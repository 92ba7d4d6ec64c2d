/** The certificate-authority filter `parseCertificates`: decode the PEM blocks
    of a text one after the other, parse each as an X.509 certificate, keep the
    PEM re-encoding of those that are certificate authorities, and fail as a
    whole on the first block that cannot be decoded or parsed. */
module CertificateFilter {
  import opened Wrappers
  import opened Externals

  /** The single key of the map the filter returns. */
  const DataKey: string := "ca-bundle.crt"

  /** The distinguishable failures of the asset. */
  datatype Error =
    | NoPemBlock                                   // no PEM block where one was expected
    | CertificateDecode(cause: string)             // the X.509 parser's own error, unchanged
    | Serialization(asset: string, cause: string)  // the YAML serialiser's error, wrapped with the asset name

  // ---------------------------------------------------------------------------
  // Reference definition: decode everything, then parse, then filter.
  // ---------------------------------------------------------------------------

  /** The blocks decoded from a text in order, and whether decoding ended
      because a remainder was empty (`complete`) rather than because a
      remainder held no PEM block. */
  datatype Stream = Stream(blocks: seq<Block>, complete: bool)

  function DecodeAll(lib: Library, s: Bytes): (st: Stream)
    requires WellBehaved(lib)
    ensures st.complete ==> |st.blocks| > 0
    ensures s == [] ==> st == Stream([], false)
    decreases |s|
  {
    match lib.Decode(s)
    case None => Stream([], false)
    case Some(d) =>
      assert IsStrictSuffix(d.rest, s);
      if |d.rest| == 0 then Stream([d.block], true)
      else
        var tail := DecodeAll(lib, d.rest);
        Stream([d.block] + tail.blocks, tail.complete)
  }

  /** The error detail of the first block whose payload is not a certificate. */
  function FirstParseError(lib: Library, bs: seq<Block>): (e: Option<string>)
    ensures e.Some? ==> exists i :: 0 <= i < |bs| && lib.ParseCertificate(bs[i].Bytes) == Failure(e.value)
  {
    if bs == [] then None
    else match lib.ParseCertificate(bs[0].Bytes)
      case Failure(detail) => Some(detail)
      case Success(_) => FirstParseError(lib, bs[1..])
  }

  predicate IsCertificateAuthority(lib: Library, b: Block)
  {
    match lib.ParseCertificate(b.Bytes)
    case Success(cert) => cert.IsCA
    case Failure(_) => false
  }

  /** The in-order concatenation of the PEM encodings of the CA blocks. */
  function KeptPem(lib: Library, bs: seq<Block>): (pem: Bytes)
    ensures |pem| <= |EncodeAll(lib, bs)|
  {
    if bs == [] then []
    else (if IsCertificateAuthority(lib, bs[0]) then lib.EncodeToMemory(bs[0]) else [])
         + KeptPem(lib, bs[1..])
  }

  /** The in-order concatenation of the PEM encodings of all blocks. */
  function EncodeAll(lib: Library, bs: seq<Block>): Bytes
  {
    if bs == [] then [] else lib.EncodeToMemory(bs[0]) + EncodeAll(lib, bs[1..])
  }

  /** What the filter computes for input `s`: the first certificate error among
      the decodable blocks; otherwise, if decoding stopped at a remainder with
      no block, a decoding error; otherwise the CA blocks re-encoded. */
  function Bundle(lib: Library, s: Bytes): (r: Result<Bytes, Error>)
    requires WellBehaved(lib)
    ensures r.Success? ==> DecodeAll(lib, s).complete
    ensures r.Failure? ==> r.error.NoPemBlock? || r.error.CertificateDecode?
  {
    var st := DecodeAll(lib, s);
    match FirstParseError(lib, st.blocks)
    case Some(detail) => Failure(CertificateDecode(detail))
    case None => if st.complete then Success(KeptPem(lib, st.blocks)) else Failure(NoPemBlock)
  }

  // ---------------------------------------------------------------------------
  // The loop of parseCertificates.
  // ---------------------------------------------------------------------------

  /** A result with `prefix` put in front of its value, if it has one. */
  function Prepend(prefix: Bytes, r: Result<Bytes, Error>): Result<Bytes, Error>
  {
    match r
    case Failure(e) => Failure(e)
    case Success(v) => Success(prefix + v)
  }

  lemma PrependNothing(r: Result<Bytes, Error>)
    ensures Prepend([], r) == r
  {
    if r.Success? {
      assert [] + r.value == r.value;
    }
  }

  lemma PrependTwice(a: Bytes, b: Bytes, r: Result<Bytes, Error>)
    ensures Prepend(a, Prepend(b, r)) == Prepend(a + b, r)
  {
    if r.Success? {
      assert a + (b + r.value) == (a + b) + r.value;
    }
  }

  /** `parseCertificates`: a cursor `rest` walks the input; each iteration
      consumes one block and appends its encoding to the builder `sb` when it
      is a CA certificate. The result is a one-entry map under `DataKey`
      holding exactly what `Bundle` describes, or the error `Bundle` names. */
  method ParseCertificates(lib: Library, certificates: Bytes) returns (r: Result<map<string, Bytes>, Error>)
    requires WellBehaved(lib)
    ensures r.Success? ==> r.value.Keys == {DataKey}
    ensures Bundle(lib, certificates).Success? ==> r == Success(map[DataKey := Bundle(lib, certificates).value])
    ensures Bundle(lib, certificates).Failure? ==> r == Failure(Bundle(lib, certificates).error)
  {
    var rest := certificates;
    var sb: Bytes := [];
    PrependNothing(Bundle(lib, rest));
    while true
      invariant Bundle(lib, certificates) == Prepend(sb, Bundle(lib, rest))
      decreases |rest|
    {
      ghost var before := rest;
      var block;
      var decoded := lib.Decode(rest);
      if decoded.None? {
        NoBlockFails(lib, rest);
        return Failure(NoPemBlock);
      }
      block, rest := decoded.value.block, decoded.value.rest;
      BundleStep(lib, before);

      var cert := lib.ParseCertificate(block.Bytes);
      if cert.Failure? {
        return Failure(CertificateDecode(cert.error));
      }

      ghost var built := sb;
      ghost var kept: Bytes := if cert.value.IsCA then lib.EncodeToMemory(block) else [];
      if cert.value.IsCA {
        sb := sb + lib.EncodeToMemory(block);
      } else {
        assert sb == built + kept;
      }

      if |rest| == 0 {
        break;
      }
      PrependTwice(built, kept, Bundle(lib, rest));
    }
    return Success(map[DataKey := sb]);
  }

  // ---------------------------------------------------------------------------
  // Properties of the reference definition.
  // ---------------------------------------------------------------------------

  /** One decoding step: the first block found, followed by the blocks of the
      remainder unless the remainder is empty. */
  lemma DecodeAllStep(lib: Library, s: Bytes)
    requires WellBehaved(lib)
    requires lib.Decode(s).Some?
    ensures var d := lib.Decode(s).value;
      IsStrictSuffix(d.rest, s) &&
      DecodeAll(lib, s) == if d.rest == [] then Stream([d.block], true)
                           else Stream([d.block] + DecodeAll(lib, d.rest).blocks, DecodeAll(lib, d.rest).complete)
  {
  }

  /** The filter on a single block. */
  lemma SingleBlock(lib: Library, b: Block)
    ensures FirstParseError(lib, [b])
         == if lib.ParseCertificate(b.Bytes).Failure? then Some(lib.ParseCertificate(b.Bytes).error) else None
    ensures KeptPem(lib, [b]) == if IsCertificateAuthority(lib, b) then lib.EncodeToMemory(b) else []
  {
    assert [b][1..] == [];
    var kept := if IsCertificateAuthority(lib, b) then lib.EncodeToMemory(b) else [];
    assert kept + [] == kept;
  }

  /** The first certificate error of a concatenation is that of its first part,
      if any, otherwise that of its second part. */
  lemma {:induction false} FirstParseErrorAppend(lib: Library, a: seq<Block>, b: seq<Block>)
    ensures FirstParseError(lib, a + b)
         == if FirstParseError(lib, a).Some? then FirstParseError(lib, a) else FirstParseError(lib, b)
  {
    if a == [] {
      assert a + b == b;
    } else {
      assert (a + b)[1..] == a[1..] + b;
      FirstParseErrorAppend(lib, a[1..], b);
    }
  }

  /** Filtering distributes over concatenation: blocks are neither reordered
      nor merged. */
  lemma {:induction false} KeptPemAppend(lib: Library, a: seq<Block>, b: seq<Block>)
    ensures KeptPem(lib, a + b) == KeptPem(lib, a) + KeptPem(lib, b)
  {
    if a == [] {
      assert a + b == b;
    } else {
      assert (a + b)[1..] == a[1..] + b;
      KeptPemAppend(lib, a[1..], b);
    }
  }

  /** `FirstParseError` names the error of the first block that fails to parse,
      and finds none exactly when every block parses. */
  lemma {:induction false} FirstParseErrorIsFirst(lib: Library, bs: seq<Block>)
    ensures FirstParseError(lib, bs).None?
        <==> forall i :: 0 <= i < |bs| ==> lib.ParseCertificate(bs[i].Bytes).Success?
    ensures forall i :: 0 <= i < |bs| && lib.ParseCertificate(bs[i].Bytes).Failure?
                        && (forall j :: 0 <= j < i ==> lib.ParseCertificate(bs[j].Bytes).Success?)
                        ==> FirstParseError(lib, bs) == Some(lib.ParseCertificate(bs[i].Bytes).error)
  {
    if bs != [] {
      FirstParseErrorIsFirst(lib, bs[1..]);
      assert forall i :: 1 <= i < |bs| ==> bs[i] == bs[1..][i - 1];
      if lib.ParseCertificate(bs[0].Bytes).Success? {
        forall i | 0 <= i < |bs| && lib.ParseCertificate(bs[i].Bytes).Failure?
                   && (forall j :: 0 <= j < i ==> lib.ParseCertificate(bs[j].Bytes).Success?)
          ensures FirstParseError(lib, bs) == Some(lib.ParseCertificate(bs[i].Bytes).error)
        {
          assert i >= 1;
          assert forall j :: 0 <= j < i - 1 ==> bs[1..][j] == bs[j + 1];
        }
      }
    }
  }

  /** When every block is a CA certificate, the filter keeps all of them, in
      order. */
  lemma {:induction false} KeptPemAllAuthorities(lib: Library, bs: seq<Block>)
    requires forall i :: 0 <= i < |bs| ==> IsCertificateAuthority(lib, bs[i])
    ensures KeptPem(lib, bs) == EncodeAll(lib, bs)
  {
    if bs != [] {
      assert forall i :: 0 <= i < |bs| - 1 ==> bs[1..][i] == bs[i + 1];
      KeptPemAllAuthorities(lib, bs[1..]);
    }
  }

  /** When no block is a CA certificate, nothing is kept. */
  lemma {:induction false} KeptPemNoAuthority(lib: Library, bs: seq<Block>)
    requires forall i :: 0 <= i < |bs| ==> !IsCertificateAuthority(lib, bs[i])
    ensures KeptPem(lib, bs) == []
  {
    if bs != [] {
      assert forall i :: 0 <= i < |bs| - 1 ==> bs[1..][i] == bs[i + 1];
      KeptPemNoAuthority(lib, bs[1..]);
    }
  }

  /** The empty input is an error, never an empty bundle. */
  lemma EmptyInputFails(lib: Library)
    requires WellBehaved(lib)
    ensures Bundle(lib, []) == Failure(NoPemBlock)
  {
  }

  /** A text (or a remainder) in which the decoder finds no block is an error. */
  lemma NoBlockFails(lib: Library, s: Bytes)
    requires WellBehaved(lib)
    requires lib.Decode(s).None?
    ensures Bundle(lib, s) == Failure(NoPemBlock)
  {
  }

  /** One step of the loop, stated on the reference definition: the first
      block's certificate error wins; a block with nothing after it ends the
      bundle; otherwise the block's contribution is prepended to the outcome
      for the remainder, and an error of the remainder is the error of the
      whole, whatever the first block was. */
  lemma BundleStep(lib: Library, s: Bytes)
    requires WellBehaved(lib)
    requires lib.Decode(s).Some?
    ensures var d := lib.Decode(s).value;
      var kept := if IsCertificateAuthority(lib, d.block) then lib.EncodeToMemory(d.block) else [];
      match lib.ParseCertificate(d.block.Bytes)
      case Failure(detail) => Bundle(lib, s) == Failure(CertificateDecode(detail))
      case Success(_) =>
        Bundle(lib, s) == if d.rest == [] then Success(kept) else Prepend(kept, Bundle(lib, d.rest))
  {
    var d := lib.Decode(s).value;
    DecodeAllStep(lib, s);
    SingleBlock(lib, d.block);
    if d.rest != [] {
      var tail := DecodeAll(lib, d.rest).blocks;
      FirstParseErrorAppend(lib, [d.block], tail);
      KeptPemAppend(lib, [d.block], tail);
    }
  }

  /** A certificate error at any decoded block aborts the whole call with the
      error of the first such block, even when earlier blocks were CAs. */
  lemma ParseErrorAborts(lib: Library, s: Bytes, i: nat)
    requires WellBehaved(lib)
    requires i < |DecodeAll(lib, s).blocks|
    requires lib.ParseCertificate(DecodeAll(lib, s).blocks[i].Bytes).Failure?
    requires forall j :: 0 <= j < i ==> lib.ParseCertificate(DecodeAll(lib, s).blocks[j].Bytes).Success?
    ensures Bundle(lib, s) == Failure(CertificateDecode(lib.ParseCertificate(DecodeAll(lib, s).blocks[i].Bytes).error))
  {
    FirstParseErrorIsFirst(lib, DecodeAll(lib, s).blocks);
  }

  /** Success happens only when decoding ran to an empty remainder after at
      least one block, every decoded block is a certificate, and the value is
      the in-order concatenation of the CA blocks' encodings. */
  lemma SuccessMeansCompleteStream(lib: Library, s: Bytes)
    requires WellBehaved(lib)
    requires Bundle(lib, s).Success?
    ensures DecodeAll(lib, s).complete && |DecodeAll(lib, s).blocks| > 0
    ensures forall i :: 0 <= i < |DecodeAll(lib, s).blocks|
                        ==> lib.ParseCertificate(DecodeAll(lib, s).blocks[i].Bytes).Success?
    ensures Bundle(lib, s).value == KeptPem(lib, DecodeAll(lib, s).blocks)
  {
  }

  /** Decoding that runs to an empty remainder, with every block a
      certificate, is a success whose value is the CA blocks re-encoded. */
  lemma CompleteStreamSucceeds(lib: Library, s: Bytes)
    requires WellBehaved(lib)
    requires DecodeAll(lib, s).complete
    requires forall i :: 0 <= i < |DecodeAll(lib, s).blocks|
                         ==> lib.ParseCertificate(DecodeAll(lib, s).blocks[i].Bytes).Success?
    ensures Bundle(lib, s) == Success(KeptPem(lib, DecodeAll(lib, s).blocks))
  {
    FirstParseErrorIsFirst(lib, DecodeAll(lib, s).blocks);
  }

  /** If decoding runs to an empty remainder and every block is a CA
      certificate, the call succeeds with every block re-encoded, in order. */
  lemma AllAuthoritiesKept(lib: Library, s: Bytes)
    requires WellBehaved(lib)
    requires DecodeAll(lib, s).complete
    requires forall i :: 0 <= i < |DecodeAll(lib, s).blocks| ==> IsCertificateAuthority(lib, DecodeAll(lib, s).blocks[i])
    ensures Bundle(lib, s) == Success(EncodeAll(lib, DecodeAll(lib, s).blocks))
  {
    var bs := DecodeAll(lib, s).blocks;
    forall i | 0 <= i < |bs| ensures lib.ParseCertificate(bs[i].Bytes).Success? {
      assert IsCertificateAuthority(lib, bs[i]);
    }
    CompleteStreamSucceeds(lib, s);
    KeptPemAllAuthorities(lib, bs);
  }

  /** If decoding runs to an empty remainder and every block is a certificate
      but none is a CA, the call still succeeds: the key is there, with the
      empty value. */
  lemma NoAuthorityYieldsEmpty(lib: Library, s: Bytes)
    requires WellBehaved(lib)
    requires DecodeAll(lib, s).complete
    requires forall i :: 0 <= i < |DecodeAll(lib, s).blocks|
                         ==> lib.ParseCertificate(DecodeAll(lib, s).blocks[i].Bytes).Success?
    requires forall i :: 0 <= i < |DecodeAll(lib, s).blocks| ==> !IsCertificateAuthority(lib, DecodeAll(lib, s).blocks[i])
    ensures Bundle(lib, s) == Success([])
  {
    CompleteStreamSucceeds(lib, s);
    KeptPemNoAuthority(lib, DecodeAll(lib, s).blocks);
  }

  /** A CA certificate followed by a leaf certificate yields the CA's PEM only. */
  lemma AuthorityThenLeaf(lib: Library, s: Bytes, ca: Block, leaf: Block, between: Bytes)
    requires WellBehaved(lib)
    requires lib.Decode(s) == Some(Decoded(ca, between))
    requires lib.Decode(between) == Some(Decoded(leaf, []))
    requires lib.ParseCertificate(ca.Bytes) == Success(Certificate(true))
    requires lib.ParseCertificate(leaf.Bytes) == Success(Certificate(false))
    ensures Bundle(lib, s) == Success(lib.EncodeToMemory(ca))
  {
    BundleStep(lib, between);
    BundleStep(lib, s);
    assert lib.EncodeToMemory(ca) + [] == lib.EncodeToMemory(ca);
  }
}
