/** The library collaborators of the trust-bundle filter, reduced to what the
    filter relies on: Go's `encoding/pem` (Decode, EncodeToMemory) and the one
    attribute of an X.509 certificate (`crypto/x509`) it reads. */
module Externals {
  import opened Wrappers

  newtype byte = x: int | 0 <= x < 256

  /** A Go `[]byte`, and also a Go `string`, which is a byte string. */
  type Bytes = seq<byte>

  /** A decoded PEM block (RFC 7468, section 2): the label of its BEGIN line,
      its optional headers and its binary payload. */
  datatype Block = Block(Type: string, Headers: map<string, string>, Bytes: Bytes)

  /** A parsed X.509 certificate, seen only through the cA flag of its
      basic-constraints extension (RFC 5280, section 4.2.1.9). */
  datatype Certificate = Certificate(IsCA: bool)

  /** What a successful `pem.Decode` returns: the block and the bytes after it. */
  datatype Decoded = Decoded(block: Block, rest: Bytes)

  /** The three library calls the filter makes. `Decode` returns `None` where
      `pem.Decode` returns a nil block; `ParseCertificate` returns the parser's
      error detail on failure. */
  datatype Library = Library(
    Decode: Bytes -> Option<Decoded>,
    ParseCertificate: Bytes -> Result<Certificate, string>,
    EncodeToMemory: Block -> Bytes)

  /** `rest` is what remains of `s` after a non-empty prefix was consumed. */
  predicate IsStrictSuffix(rest: Bytes, s: Bytes)
  {
    |rest| < |s| && rest == s[|s| - |rest|..]
  }

  /** The one assumption made of the PEM decoder: whenever it finds a block,
      the remainder it reports is a strictly shorter suffix of its input. */
  ghost predicate WellBehaved(lib: Library)
  {
    forall s :: lib.Decode(s).Some? ==> IsStrictSuffix(lib.Decode(s).value.rest, s)
  }
}
