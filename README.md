# Additional trust bundle ConfigMap — a Dafny model

This project models the `AdditionalTrustBundleConfig` asset of the OpenShift
installer. The asset reads the install configuration's `additionalTrustBundle`,
a text holding zero or more PEM-encoded X.509 certificates. It keeps only the
certificate authorities (basic-constraints cA flag, RFC 5280 section 4.2.1.9)
and writes them as the ConfigMap `user-ca-bundle` in namespace
`openshift-config`, under the single data key `ca-bundle.crt`.

Modules:

- `Wrappers` (`wrappers.dfy`): `Option` and `Result`.
- `Externals` (`externals.dfy`): the library calls as values of a `Library`
  datatype — PEM decoding and encoding (RFC 7468, section 2) and certificate
  parsing, seen only through `IsCA`. `WellBehaved(lib)` is the one assumption
  made of them: a successful decode leaves a strictly shorter suffix of its
  input. This is what makes the filter loop terminate.
- `CertificateFilter` (`certificate_filter.dfy`): `parseCertificates`, as the
  imperative loop `ParseCertificates`. Beside it is a reference definition,
  `Bundle`, built in three stages: decode every block (`DecodeAll`), find the
  first certificate error (`FirstParseError`), then concatenate the CA
  encodings (`KeptPem`). The method is proved equal to `Bundle`, and the
  lemmas state the filter's properties on `Bundle`.
- `TrustBundleConfig` (`trust_bundle_config.dfy`): the asset as a class whose
  fields `ConfigMap` and `File` are set by `Generate`, with `Files` and `Load`.

Two details of `parseCertificates` that the model keeps:

- A certificate parse error is returned by `parseCertificates` unchanged, not
  wrapped (`CertificateDecode(cause)` carries the parser's detail as it is).
- The kept blocks are re-encoded by the PEM encoder, not copied from the input
  text. So the bundle is the encoder's output for each decoded block.

## Model

| member | source | states |
|---|---|---|
| `CertificateFilter.ParseCertificates` | pkg/asset/manifests/additionaltrustbundleconfig.go:101-126 | the loop returns exactly the outcome of the reference definition `Bundle`: on success a map whose only key is `ca-bundle.crt`, holding the bundle; on failure the same error |
| `CertificateFilter.DecodeAll` | pkg/asset/manifests/additionaltrustbundleconfig.go:104-123 | decoding ends successfully only after at least one block, and the empty text yields no block |
| `CertificateFilter.FirstParseError` | pkg/asset/manifests/additionaltrustbundleconfig.go:111-115 | a certificate error it reports is the parse error of one of the given blocks |
| `CertificateFilter.KeptPem` | pkg/asset/manifests/additionaltrustbundleconfig.go:117-119 | what is kept is never longer than the re-encoding of all blocks |
| `CertificateFilter.Bundle` | pkg/asset/manifests/additionaltrustbundleconfig.go:101-126 | the reference outcome of `parseCertificates`: success only when decoding ran to an empty remainder; its only failures are the "unable to parse" error and a certificate error |
| `CertificateFilter.FirstParseErrorAppend` | pkg/asset/manifests/additionaltrustbundleconfig.go:111-115 | the first certificate error of a concatenation comes from its first part if that part has one |
| `CertificateFilter.KeptPemAppend` | pkg/asset/manifests/additionaltrustbundleconfig.go:117-119 | filtering distributes over concatenation: kept blocks stay in input order, nothing is reordered or merged |
| `CertificateFilter.FirstParseErrorIsFirst` | pkg/asset/manifests/additionaltrustbundleconfig.go:111-115 | no certificate error is found exactly when every block parses; otherwise the error found is that of the first failing block |
| `CertificateFilter.KeptPemAllAuthorities` | pkg/asset/manifests/additionaltrustbundleconfig.go:117-119 | when every block is a CA, all of them are re-encoded, in order |
| `CertificateFilter.KeptPemNoAuthority` | pkg/asset/manifests/additionaltrustbundleconfig.go:117-119 | when no block is a CA, nothing is kept |
| `CertificateFilter.EmptyInputFails` | pkg/asset/manifests/additionaltrustbundleconfig.go:102-108 | the empty text is the "unable to parse" error, never an empty bundle |
| `CertificateFilter.NoBlockFails` | pkg/asset/manifests/additionaltrustbundleconfig.go:105-108 | a text where the decoder finds no block is the "unable to parse" error |
| `CertificateFilter.BundleStep` | pkg/asset/manifests/additionaltrustbundleconfig.go:104-124 | one iteration: a bad first certificate is the error; a block with an empty remainder ends the bundle; otherwise the block's contribution goes before the outcome for the remainder, and an error later on discards earlier CA blocks |
| `CertificateFilter.ParseErrorAborts` | pkg/asset/manifests/additionaltrustbundleconfig.go:111-115 | a certificate error at any decoded block makes the whole call fail with the first such error, whatever came before |
| `CertificateFilter.SuccessMeansCompleteStream` | pkg/asset/manifests/additionaltrustbundleconfig.go:121-125 | success only when decoding reached an empty remainder after at least one block and every block parsed; the value is the in-order concatenation of the CA encodings |
| `CertificateFilter.CompleteStreamSucceeds` | pkg/asset/manifests/additionaltrustbundleconfig.go:111-125 | decoding that reaches an empty remainder with every block a certificate succeeds, with the CA blocks re-encoded in order (the converse of `SuccessMeansCompleteStream`) |
| `CertificateFilter.AllAuthoritiesKept` | pkg/asset/manifests/additionaltrustbundleconfig.go:117-125 | a complete decoding of only CA certificates succeeds, and the bundle is every block re-encoded, in input order |
| `CertificateFilter.NoAuthorityYieldsEmpty` | pkg/asset/manifests/additionaltrustbundleconfig.go:117-125 | a complete decoding of certificates none of which is a CA succeeds, and its value is empty |
| `CertificateFilter.AuthorityThenLeaf` | pkg/asset/manifests/additionaltrustbundleconfig.go:104-125 | a CA certificate followed by a leaf certificate yields exactly the CA's PEM |
| `TrustBundleConfig.UserCABundle` | pkg/asset/manifests/additionaltrustbundleconfig.go:64-74 | the ConfigMap is core `v1` `ConfigMap` `user-ca-bundle` in `openshift-config`, and its data is exactly the filter result |
| `TrustBundleConfig.AdditionalTrustBundleConfig.Name` | pkg/asset/manifests/additionaltrustbundleconfig.go:38-40 | the human-friendly name "Additional Trust Bundle Config", which wraps serialiser errors |
| `TrustBundleConfig.AdditionalTrustBundleConfig.constructor` | pkg/asset/manifests/additionaltrustbundleconfig.go:30-33 | a fresh asset has neither field set, and `Files()` is empty |
| `TrustBundleConfig.AdditionalTrustBundleConfig.Generate` | pkg/asset/manifests/additionaltrustbundleconfig.go:51-86 | an empty bundle returns no error and changes nothing; a filter or serialiser error is returned and changes nothing; success sets both fields together, and `Files()` is then the one file; the asset invariant is kept |
| `TrustBundleConfig.AdditionalTrustBundleConfig.Files` | pkg/asset/manifests/additionaltrustbundleconfig.go:89-94 | at most one file, none exactly when no file is stored, and only the stored file; in a valid state that file has the fixed manifest name |
| `TrustBundleConfig.AdditionalTrustBundleConfig.Load` | pkg/asset/manifests/additionaltrustbundleconfig.go:97-99 | always reports nothing loaded and no error, and changes no field |

## Left out

- `pem.Decode`, `pem.EncodeToMemory`: RFC 7468 framing, base64 and whitespace handling are not modelled. They are abstract functions, and decoding is assumed to leave a strictly shorter suffix.
- `x509.ParseCertificate`: DER/ASN.1 decoding is not modelled. It is an abstract partial function that exposes only `IsCA`.
- `yaml.Marshal`: the YAML bytes are not modelled. It is an abstract serialiser that may fail.
- `Dependencies`, `dependencies.Get`, `asset.Parents`, `asset.FileFetcher`: these are asset-framework plumbing. `Generate` takes the `additionalTrustBundle` value directly, and `Load` takes no fetcher.
- `manifestDir` is defined outside the modelled file and is taken as `manifests`.
- `corev1.SchemeGroupVersion.String()` is taken as `v1`.
- Error message texts and `errors.Wrapf` formatting are left out. Errors are the variants of `Error`; a serialiser error carries the asset name and the cause.
- Go pointers: `ConfigMap`, `File` and the slice returned by `Files` are values, not shared references, so aliasing is not captured.
- Idempotence of the filter has no lemma of its own: `Bundle` is a function of its inputs, so equal inputs give equal outcomes.
