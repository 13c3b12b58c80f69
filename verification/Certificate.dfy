/** Signing-key certificates (src/openmv_ota/ota/certificate.py): the fixed 160-byte record. */
module Certificate {
  import opened Wrappers
  import opened Bytes
  import opened Struct

  datatype Error =
    | TooSmall | TooMany | OutOfRange | Truncated | BadMagic | BadVersion | BadCrc | BadJson | BadHash
    | UnknownAlg | NotP256 | UnknownKind | BadPoint | BadSignatureSize | BadCertificateSize | TooLarge
    | BadSlot | BadReason | UnknownRoot | BadSignature | KindRefused | WrongRoot | BadBody | BadComponent

  const MAGIC: bytes := [0x4F, 0x4D, 0x56, 0x43]  // "OMVC"
  const VERSION := 1
  const SIZE := 160
  const SIGNED_SIZE := 96
  const ES256 := -7
  const POINT_SIZE := 65
  const SIG_SIZE := 64

  const KIND_OTA := 0
  const KIND_FACTORY := 1
  const KIND_ISSUER := 2
  const KIND_DESK := 3

  /** magic version kind root_id epoch alg pubkey pad signature */
  const FMT: seq<Fmt> := [S(4), U(4), U(4), U(4), U(4), I(4), S(65), S(7), S(64)]

  datatype Certificate = Certificate(kind: int, rootId: int, epoch: int, pubkey: bytes, alg: int, signature: bytes)

  lemma Sizes()
    ensures CalcSize(FMT) == SIZE && CalcSize(FMT[..8]) == SIGNED_SIZE
  {
    SizeOfParts(FMT[..8], FMT[8..]);
    assert FMT[..8] + FMT[8..] == FMT;
    SizeOfParts(FMT[..4], FMT[4..8]);
    assert FMT[..4] + FMT[4..8] == FMT[..8];
    SizeOfFour(FMT[..4]);
    SizeOfFour(FMT[4..8]);
    SizeOfOne(FMT[8..]);
  }

  /** The certified algorithm, kind and key. */
  function Check(c: Certificate): Option<Error> {
    if c.alg != ES256 then Some(NotP256)
    else if !(0 <= c.kind <= 3) then Some(UnknownKind)
    else if |c.pubkey| != POINT_SIZE || c.pubkey[0] != 0x04 then Some(BadPoint)
    else None
  }

  function Zeros(n: nat): (r: bytes)
    ensures |r| == n
  {
    seq<byte>(n, _ => 0)
  }

  function Vals(c: Certificate, signature: bytes): seq<Val> {
    [Raw(MAGIC), Num(VERSION), Num(c.kind), Num(c.rootId), Num(c.epoch), Num(c.alg), Raw(c.pubkey),
     Raw(Zeros(7)), Raw(signature)]
  }

  /** The bytes the root signs, built from a certificate's fields. */
  function BuildRegion(c: Certificate): (r: Result<bytes, Error>)
    ensures r.Success? ==> |r.value| == SIGNED_SIZE
  {
    Sizes();
    match Check(c)
    case Some(e) => Failure(e)
    case None =>
      if !FitAll(FMT, Vals(c, Zeros(SIG_SIZE))) then Failure(OutOfRange)
      else Success(Pack(FMT, Vals(c, Zeros(SIG_SIZE)))[..SIGNED_SIZE])
  }

  /** The same bytes, sliced from a packed certificate. */
  function SignedRegion(data: bytes): Result<bytes, Error> {
    if |data| < SIGNED_SIZE then Failure(TooSmall) else Success(data[..SIGNED_SIZE])
  }

  function PackCertificate(c: Certificate): Result<bytes, Error> {
    var region :- BuildRegion(c);
    if |c.signature| != SIG_SIZE then Failure(BadSignatureSize) else Success(region + c.signature)
  }

  function ParseCertificate(data: bytes): (r: Result<Certificate, Error>)
    ensures r.Success? ==> |data| >= SIZE && Check(r.value).None?
  {
    if |data| < SIZE then Failure(TooSmall) else
    Sizes();
    UnpackedFit(FMT, data, 0);
    var v := Unpack(FMT, data, 0);
    if v[0].b != MAGIC then Failure(BadMagic)
    else if v[1].v != VERSION then Failure(BadVersion)
    else
      var c := Certificate(v[2].v, v[3].v, v[4].v, v[6].b, v[5].v, v[8].b);
      match Check(c)
      case Some(e) => Failure(e)
      case None => Success(c)
  }

  // ---- parse undoes pack ----

  lemma PackedWhole(c: Certificate)
    requires PackCertificate(c).Success?
    ensures FitAll(FMT, Vals(c, c.signature)) && PackCertificate(c).value == Pack(FMT, Vals(c, c.signature))
  {
    Sizes();
    var vals, zeros := Vals(c, c.signature), Vals(c, Zeros(SIG_SIZE));
    hide Vals, CalcSize;
    VectorsOf(c, c.signature, Zeros(SIG_SIZE));
    assert FMT == FMT[..8] + FMT[8..] && vals == vals[..8] + vals[8..] && zeros == zeros[..8] + zeros[8..];
    FitParts(zeros);
    FitParts(vals);
    PackParts(FMT[..8], vals[..8], FMT[8..], vals[8..]);
    PackParts(FMT[..8], zeros[..8], FMT[8..], zeros[8..]);
    PackRaw(FMT[8..], vals[8..]);
  }

  lemma VectorsOf(c: Certificate, a: bytes, b: bytes)
    requires |a| == |b| == SIG_SIZE
    ensures |Vals(c, a)| == |Vals(c, b)| == 9 && Vals(c, a)[..8] == Vals(c, b)[..8]
    ensures Vals(c, a)[8..] == [Raw(a)] && Vals(c, b)[8..] == [Raw(b)]
    ensures FitAll(FMT, Vals(c, a)) <==> FitAll(FMT, Vals(c, b))
  {
    assert forall i | 0 <= i < 8 :: Vals(c, a)[i] == Vals(c, b)[i];
  }

  lemma FitParts(vals: seq<Val>)
    requires FitAll(FMT, vals)
    ensures FitAll(FMT[..8], vals[..8]) && FitAll(FMT[8..], vals[8..])
  {
  }

  lemma PackRaw(fmt: seq<Fmt>, vals: seq<Val>)
    requires FitAll(fmt, vals) && |fmt| == 1 && vals[0].Raw? && fmt[0].S?
    ensures Pack(fmt, vals) == vals[0].b
  {
    assert Pack(fmt[1..], vals[1..]) == [];
  }

  /** Parsing gives back every certificate that packs, whatever follows it; slicing the packed bytes
      gives the region that was built for the signer. */
  lemma CertificateRoundTrip(c: Certificate, trailing: bytes)
    requires PackCertificate(c).Success?
    ensures var raw := PackCertificate(c).value;
      && |raw| == SIZE
      && ParseCertificate(raw + trailing) == Success(c)
      && SignedRegion(raw + trailing) == BuildRegion(c)
  {
    PackedWhole(c);
    Sizes();
    var raw := PackCertificate(c).value;
    AtStart(raw, trailing);
    UnpackPacked(FMT, Vals(c, c.signature), raw + trailing, 0);
    hide Unpack, Pack, CalcSize, FitAll;
    assert (raw + trailing)[..SIGNED_SIZE] == raw[..SIGNED_SIZE];
  }

  /** Two accepted certificates with equal signed regions agree on everything but the signature. */
  lemma SameRegionSameCertificate(data: bytes, data': bytes)
    requires ParseCertificate(data).Success? && ParseCertificate(data').Success?
    requires SignedRegion(data) == SignedRegion(data')
    ensures ParseCertificate(data').value.(signature := ParseCertificate(data).value.signature)
         == ParseCertificate(data).value
  {
    Sizes();
    assert FMT == FMT[..8] + FMT[8..];
    assert data[..SIGNED_SIZE] == data[0..SIGNED_SIZE] && data'[..SIGNED_SIZE] == data'[0..SIGNED_SIZE];
    SizeOfParts(FMT[..8], FMT[8..]);
    UnpackSame(FMT[..8], data, data', 0);
    UnpackParts(FMT[..8], FMT[8..], data, 0);
    UnpackParts(FMT[..8], FMT[8..], data', 0);
    hide Unpack, CalcSize;
    var v, w := Unpack(FMT, data, 0), Unpack(FMT, data', 0);
    assert v[..8] == w[..8];
    assert forall i | 0 <= i < 8 :: v[..8][i] == w[..8][i];
  }

  // ---- only what was packed is accepted ----

  lemma PadReads(data: bytes)
    requires SIZE <= |data|
    ensures CalcSize(FMT) == SIZE
    ensures Unpack(FMT, data, 0)[7] == Raw(data[89..96])
  {
    Sizes();
    hide Unpack, CalcSize;
    UnpackAt(FMT, data, 0, 7);
    assert FMT[..8] == FMT[..7] + [S(7)];
    SizeOfParts(FMT[..7], [S(7)]);
    SizeOfOne([S(7)]);
  }

  /** What the parser accepts is what the packer packed exactly when the pad is zero. */
  lemma AcceptsExactlyPacked(data: bytes, c: Certificate)
    ensures ParseCertificate(data) == Success(c) && data[89..96] == Zeros(7)
       <==> PackCertificate(c).Success? && PackCertificate(c).value <= data
  {
    hide ParseCertificate, PackCertificate, Vals, FitAll, CalcSize, Unpack;
    if ParseCertificate(data) == Success(c) && data[89..96] == Zeros(7) {
      ParsedVals(data, c);
      AcceptedPacks(data, c);
    }
    if PackCertificate(c).Success? && PackCertificate(c).value <= data {
      var raw := PackCertificate(c).value;
      assert data == raw + data[|raw|..];
      CertificateRoundTrip(c, data[|raw|..]);
      PackedPad(data, c);
    }
  }

  lemma PackedPad(data: bytes, c: Certificate)
    requires |data| >= SIZE && PackCertificate(c).Success? && PackCertificate(c).value <= data
    ensures data[89..96] == Zeros(7)
  {
    hide FitAll, CalcSize, Unpack, Pack, PackCertificate, Zeros;
    Sizes();
    PackedWhole(c);
    PadReads(data);
    assert At(data, 0, Pack(FMT, Vals(c, c.signature)));
    UnpackPacked(FMT, Vals(c, c.signature), data, 0);
  }

  /** The data with another pad. */
  function WithPad(data: bytes, pad: bytes): bytes
    requires |data| >= SIZE && |pad| == 7
  {
    data[..89] + pad + data[96..]
  }

  /** The parser does not look at the pad. */
  lemma PadIgnored(data: bytes, pad: bytes)
    requires |data| >= SIZE && |pad| == 7
    ensures ParseCertificate(WithPad(data, pad)) == ParseCertificate(data)
  {
    hide Unpack, CalcSize;
    Sizes();
    var data' := WithPad(data, pad);
    assert data[0..89] == data'[0..89] && data[96..SIZE] == data'[96..SIZE];
    assert FMT == FMT[..8] + FMT[8..] && FMT[..8] == FMT[..7] + [S(7)];
    SizeOfParts(FMT[..8], FMT[8..]);
    SizeOfParts(FMT[..7], [S(7)]);
    SizeOfOne([S(7)]);
    SizeOfOne(FMT[8..]);
    UnpackSame(FMT[..7], data, data', 0);
    UnpackSame(FMT[8..], data, data', 96);
    UnpackParts(FMT[..8], FMT[8..], data, 0);
    UnpackParts(FMT[..8], FMT[8..], data', 0);
    UnpackParts(FMT[..7], [S(7)], data, 0);
    UnpackParts(FMT[..7], [S(7)], data', 0);
    var v, w := Unpack(FMT, data, 0), Unpack(FMT, data', 0);
    assert forall i | 0 <= i < 7 :: v[i] == Unpack(FMT[..7], data, 0)[i] && w[i] == Unpack(FMT[..7], data', 0)[i];
    assert v[8] == Unpack(FMT[8..], data, 96)[0] && w[8] == Unpack(FMT[8..], data', 96)[0];
  }

  /** The data it accepts are those that, with the pad zeroed, begin with a packed certificate. */
  lemma AcceptsExactlyWritten(data: bytes, c: Certificate)
    ensures ParseCertificate(data) == Success(c) <==>
      |data| >= SIZE && PackCertificate(c).Success? && PackCertificate(c).value <= WithPad(data, Zeros(7))
  {
    hide ParseCertificate, PackCertificate, Zeros;
    if |data| >= SIZE {
      PadIgnored(data, Zeros(7));
      AcceptsExactlyPacked(WithPad(data, Zeros(7)), c);
    }
  }

  /** Data no packer wrote that the parser accepts: a packed certificate with its pad changed. */
  lemma AcceptsOtherPads(c: Certificate, pad: bytes)
    requires PackCertificate(c).Success? && |pad| == 7 && pad != Zeros(7)
    ensures |PackCertificate(c).value| == SIZE
    ensures var data := WithPad(PackCertificate(c).value, pad);
      ParseCertificate(data) == Success(c) && !(PackCertificate(c).value <= data)
  {
    hide ParseCertificate, PackCertificate, Zeros, SignedRegion, BuildRegion;
    CertificateRoundTrip(c, []);
    var raw := PackCertificate(c).value;
    assert raw + [] == raw;
    PadIgnored(raw, pad);
    AcceptsExactlyPacked(WithPad(raw, pad), c);
  }

  lemma ParsedVals(data: bytes, c: Certificate)
    requires ParseCertificate(data) == Success(c) && data[89..96] == Zeros(7)
    ensures CalcSize(FMT) == SIZE && Unpack(FMT, data, 0) == Vals(c, c.signature) && FitAll(FMT, Vals(c, c.signature))
  {
    hide Unpack, CalcSize, Zeros, Check;
    Sizes();
    UnpackedFit(FMT, data, 0);
    PadReads(data);
    var v := Unpack(FMT, data, 0);
    assert forall i | 0 <= i < 9 :: Fits(FMT[i], v[i]);
  }

  lemma AcceptedPacks(data: bytes, c: Certificate)
    requires ParseCertificate(data) == Success(c) && CalcSize(FMT) == SIZE
    requires Unpack(FMT, data, 0) == Vals(c, c.signature) && FitAll(FMT, Vals(c, c.signature))
    ensures PackCertificate(c).Success? && PackCertificate(c).value == data[..SIZE]
  {
    assert |c.signature| == SIG_SIZE by { assert Fits(FMT[8], Vals(c, c.signature)[8]); }
    hide Unpack, CalcSize, Vals, FitAll, Pack, UnpackOne, Fits;
    PackUnpacked(FMT, data, 0);
    VectorsOf(c, c.signature, Zeros(SIG_SIZE));
    PackedWhole(c);
  }
}
