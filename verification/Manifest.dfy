/** The signed update manifest (src/openmv_ota/ota/manifest.py). */
module Manifest {
  import opened Wrappers
  import opened Bytes
  import opened Struct
  import Cert = Certificate
  import T = Trailer

  type Error = Cert.Error

  const MAGIC: bytes := [0x4F, 0x4D, 0x56, 0x4D]  // "OMVM"
  const HEADER_VERSION := 2
  const HEADER_SIZE := 24
  const BODY_OFFSET := 184
  const CRC_SIZE := 4
  const MANIFEST_SZ := 8192

  /** magic header_version body_size sig_size cert_size sig_alg */
  const HEADER: seq<Fmt> := [S(4), U(4), U(4), U(4), U(4), I(4)]

  datatype Manifest = Manifest(body: string, certificate: bytes, sigAlg: int, signature: bytes, headerVersion: int)

  /** The signature's size, for the algorithms both ends support (ES256, ES384, ES512). */
  function SigSize(alg: int): Result<nat, Error> {
    if alg == -7 then Success(64) else if alg == -35 then Success(96) else if alg == -36 then Success(132)
    else Failure(Cert.UnknownAlg)
  }

  lemma Sizes()
    ensures CalcSize(HEADER) == HEADER_SIZE && CalcSize(HEADER[..2]) == 8
  {
    assert HEADER == HEADER[..4] + HEADER[4..];
    SizeOfParts(HEADER[..4], HEADER[4..]);
    SizeOfFour(HEADER[..4]);
    SizeOfOne(HEADER[4..][1..]);
    assert HEADER[..2] == [S(4), U(4)] && HEADER[..2][1..] == [U(4)];
    SizeOfOne(HEADER[..2][1..]);
  }

  function HeaderVals(m: Manifest, bodySize: nat, sigSize: nat): (v: seq<Val>)
    ensures |v| == 6
  {
    [Raw(MAGIC), Num(m.headerVersion), Num(bodySize), Num(sigSize), Num(Cert.SIZE), Num(m.sigAlg)]
  }

  function CheckCertificate(certificate: bytes): Result<Cert.Certificate, Error> {
    if |certificate| != Cert.SIZE then Failure(Cert.BadCertificateSize) else Cert.ParseCertificate(certificate)
  }

  /** The region to sign, for the bytes the body is written as. */
  function RegionWith(m: Manifest, body: bytes): Result<bytes, Error> {
    var sigSize :- SigSize(m.sigAlg);
    var _ :- CheckCertificate(m.certificate);
    if !FitAll(HEADER, HeaderVals(m, |body|, sigSize)) then Failure(Cert.OutOfRange)
    else Success(Pack(HEADER, HeaderVals(m, |body|, sigSize)) + m.certificate + body)
  }

  function BuildRegion(p: T.Codec, m: Manifest): Result<bytes, Error> {
    RegionWith(m, p.dumps(m.body))
  }

  function SignedRegion(data: bytes): (r: Result<bytes, Error>) {
    if |data| < HEADER_SIZE then Failure(Cert.TooSmall) else
    var end := BODY_OFFSET + LeValue(data[8..12]);
    if end > |data| then Failure(Cert.Truncated) else Success(data[..end])
  }

  /** `signed region || signature || crc32`, of any length. */
  function PackWith(p: T.Codec, m: Manifest, body: bytes): Result<bytes, Error> {
    var region :- RegionWith(m, body);
    var sigSize :- SigSize(m.sigAlg);
    if |m.signature| != sigSize then Failure(Cert.BadSignatureSize)
    else
      var signed := region + m.signature;
      Success(signed + Le(p.crc32(signed) % 0x1_0000_0000, 4))
  }

  /** The packer writes the body in the one form `dumps` gives it, within the size limit. */
  function PackManifest(p: T.Codec, m: Manifest): Result<bytes, Error> {
    var out :- PackWith(p, m, p.dumps(m.body));
    if |out| > MANIFEST_SZ then Failure(Cert.TooLarge) else Success(out)
  }

  function HeaderOf(data: bytes): (v: seq<Val>)
    requires HEADER_SIZE <= |data|
    ensures |v| == 6 && v[0].Raw? && forall i | 1 <= i < 6 :: v[i].Num?
    ensures v[2].v >= 0
  {
    Sizes();
    UnpackedFit(HEADER, data, 0);
    var v := Unpack(HEADER, data, 0);
    assert forall i | 0 <= i < 6 :: Fits(HEADER[i], v[i]);
    v
  }

  /** What follows the header, `bodySize` and `sigSize` being the header's. */
  function ParseRest(p: T.Codec, data: bytes, v: seq<Val>, bodySize: nat, sigSize: nat): Result<Manifest, Error>
    requires |v| == 6 && v[1].Num? && v[5].Num?
  {
    var sigOff := BODY_OFFSET + bodySize;
    var bodyEnd := sigOff + sigSize;
    if bodyEnd + CRC_SIZE > |data| then Failure(Cert.Truncated)
    else if p.crc32(data[..bodyEnd]) % 0x1_0000_0000 != LeValue(data[bodyEnd..bodyEnd + CRC_SIZE]) then
      Failure(Cert.BadCrc)
    else
      var certificate := data[HEADER_SIZE..BODY_OFFSET];
      var _ :- CheckCertificate(certificate);
      match p.loads(data[BODY_OFFSET..sigOff])
      case None => Failure(Cert.BadJson)
      case Some(body) => Success(Manifest(body, certificate, v[5].v, data[sigOff..bodyEnd], v[1].v))
  }

  function ParseManifest(p: T.Codec, data: bytes): Result<Manifest, Error> {
    if |data| < HEADER_SIZE then Failure(Cert.TooSmall) else
    var v := HeaderOf(data);
    if v[0].b != MAGIC then Failure(Cert.BadMagic)
    else if v[1].v != HEADER_VERSION then Failure(Cert.BadVersion)
    else
      var sigSize :- SigSize(v[5].v);
      if v[3].v != sigSize then Failure(Cert.BadSignatureSize)
      else if v[4].v != Cert.SIZE then Failure(Cert.BadCertificateSize)
      else ParseRest(p, data, v, v[2].v, sigSize)
  }

  // ---- parse undoes pack ----

  lemma WrittenParts(p: T.Codec, m: Manifest, body: bytes) returns (header: bytes, sigSize: nat, region: bytes)
    requires PackWith(p, m, body).Success?
    ensures SigSize(m.sigAlg) == Success(sigSize) && |m.signature| == sigSize
    ensures FitAll(HEADER, HeaderVals(m, |body|, sigSize)) && header == Pack(HEADER, HeaderVals(m, |body|, sigSize))
    ensures |header| == HEADER_SIZE && |m.certificate| == Cert.SIZE && CheckCertificate(m.certificate).Success?
    ensures region == header + m.certificate + body && RegionWith(m, body) == Success(region)
    ensures PackWith(p, m, body) == Success(region + m.signature + Le(p.crc32(region + m.signature) % 0x1_0000_0000, 4))
  {
    hide FitAll, Pack, Cert.ParseCertificate, HeaderVals, CalcSize, Le, SigSize;
    Sizes();
    sigSize := SigSize(m.sigAlg).value;
    header, region := Pack(HEADER, HeaderVals(m, |body|, sigSize)), RegionWith(m, body).value;
  }

  lemma FiveParts(data: bytes, a: bytes, b: bytes, c: bytes, d: bytes, e: bytes)
    requires a + b + c + d + e <= data
    ensures var i, j, k := |a|, |a| + |b|, |a| + |b| + |c|;
      && k + |d| + |e| <= |data| && At(data, 0, a) && data[i..j] == b && data[j..k] == c && data[..k] == a + b + c
      && data[k..k + |d|] == d && data[..k + |d|] == a + b + c + d && data[k + |d|..k + |d| + |e|] == e
  {
    hide At;
    PrefixAt(data, a + b + c + d + e);
    AtParts(data, 0, a + b + c + d, e);
    AtParts(data, 0, a + b + c, d);
    AtParts(data, 0, a + b, c);
    AtParts(data, 0, a, b);
    AtIs(data, |a|, b);
    AtIs(data, |a + b|, c);
    AtIs(data, |a + b + c|, d);
    AtIs(data, |a + b + c + d|, e);
    AtIs(data, 0, a + b + c);
    AtIs(data, 0, a + b + c + d);
  }

  lemma HeaderAt(data: bytes, v: seq<Val>)
    requires FitAll(HEADER, v) && At(data, 0, Pack(HEADER, v))
    ensures HEADER_SIZE <= |data| && HeaderOf(data) == v && v[2] == Num(LeValue(data[8..12]))
  {
    hide Unpack, CalcSize;
    Sizes();
    UnpackPacked(HEADER, v, data, 0);
    UnpackAt(HEADER, data, 0, 2);
    assert HEADER[2] == U(4);
  }

  /** Where the body ends, by the header. */
  function BodyEnd(data: bytes): nat
    requires HEADER_SIZE <= |data|
  {
    BODY_OFFSET + HeaderOf(data)[2].v
  }

  function BodyIn(data: bytes): bytes
    requires HEADER_SIZE <= |data| && BodyEnd(data) <= |data|
  {
    data[BODY_OFFSET..BodyEnd(data)]
  }

  /** Parsing gives back every manifest that was written, in whatever form its body was, and whatever
      follows it, exactly when it is of the version the parser reads. */
  lemma WrittenRoundTrip(p: T.Codec, m: Manifest, body: bytes, trailing: bytes)
    requires PackWith(p, m, body).Success? && p.loads(body) == Some(m.body)
    ensures var data := PackWith(p, m, body).value + trailing;
      && ParseManifest(p, data) == (if m.headerVersion == 2 then Success(m) else Failure(Cert.BadVersion))
      && SignedRegion(data) == RegionWith(m, body)
      && HEADER_SIZE <= |data| && BodyEnd(data) <= |data| && BodyIn(data) == body
      && HeaderOf(data)[3] == Num(|m.signature|)
      && |PackWith(p, m, body).value| == BodyEnd(data) + |m.signature| + CRC_SIZE
  {
    hide PackWith, RegionWith, FitAll, Pack, Le, LeValue, HeaderOf, CheckCertificate, SigSize;
    var data := PackWith(p, m, body).value + trailing;
    var header, sigSize, region := WrittenParts(p, m, body);
    var crc := Le(p.crc32(region + m.signature) % 0x1_0000_0000, 4);
    FiveParts(data, header, m.certificate, body, m.signature, crc);
    CrcReads(p.crc32(region + m.signature));
    HeaderAt(data, HeaderVals(m, |body|, sigSize));
  }

  /** Parsing gives back every manifest that packs, whatever follows it, exactly when it is of the
      version the parser reads; and slicing gives the region that was built for the signer. */
  lemma ManifestRoundTrip(p: T.Codec, m: Manifest, trailing: bytes)
    requires T.Sound(p) && PackManifest(p, m).Success?
    ensures var data := PackManifest(p, m).value + trailing;
      && ParseManifest(p, data) == (if m.headerVersion == 2 then Success(m) else Failure(Cert.BadVersion))
      && SignedRegion(data) == BuildRegion(p, m)
  {
    hide ParseManifest, PackWith, SignedRegion, RegionWith;
    assert p.loads(p.dumps(m.body)) == Some(m.body);
    WrittenRoundTrip(p, m, p.dumps(m.body), trailing);
  }

  // ---- only what was packed is accepted ----

  lemma HeaderPacked(data: bytes)
    requires HEADER_SIZE <= |data|
    ensures FitAll(HEADER, HeaderOf(data)) && Pack(HEADER, HeaderOf(data)) == data[..HEADER_SIZE]
  {
    hide CalcSize, Unpack, Pack, FitAll;
    Sizes();
    PackUnpacked(HEADER, data, 0);
  }

  /** The parser accepts exactly the data that begin with a written manifest of its version, its
      body in any form that loads; and it reads that manifest. */
  lemma AcceptsExactlyWritten(p: T.Codec, data: bytes, m: Manifest)
    ensures ParseManifest(p, data) == Success(m) <==> m.headerVersion == 2 && Written(p, data, m)
  {
    hide ParseManifest, PackWith, HeaderOf, RegionWith;
    if ParseManifest(p, data) == Success(m) {
      AcceptedPacks(p, data, m);
    }
    if m.headerVersion == 2 && Written(p, data, m) {
      var body :| BeginsWith(p, data, m, body);
      var raw := PackWith(p, m, body).value;
      assert data == raw + data[|raw|..];
      WrittenRoundTrip(p, m, body, data[|raw|..]);
    }
  }

  ghost predicate BeginsWith(p: T.Codec, data: bytes, m: Manifest, body: bytes) {
    p.loads(body) == Some(m.body) && PackWith(p, m, body).Success? && PackWith(p, m, body).value <= data
  }

  ghost predicate Written(p: T.Codec, data: bytes, m: Manifest) {
    exists body :: BeginsWith(p, data, m, body)
  }

  /** The manifest in the data is within the size limit, and its body in the form `dumps` gives it. */
  ghost predicate Canonical(p: T.Codec, data: bytes) {
    && HEADER_SIZE <= |data| && BodyEnd(data) <= |data|
    && BodyEnd(data) + HeaderOf(data)[3].v + CRC_SIZE <= MANIFEST_SZ
    && p.loads(BodyIn(data)).Some? && p.dumps(p.loads(BodyIn(data)).value) == BodyIn(data)
  }

  /** What the parser accepts is what the packer packed exactly when it is canonical. */
  lemma AcceptsExactlyPacked(p: T.Codec, data: bytes, m: Manifest)
    requires T.Sound(p)
    ensures ParseManifest(p, data) == Success(m) && Canonical(p, data) <==>
      m.headerVersion == 2 && PackManifest(p, m).Success? && PackManifest(p, m).value <= data
  {
    hide ParseManifest, PackWith, HeaderOf, RegionWith;
    if ParseManifest(p, data) == Success(m) && Canonical(p, data) {
      AcceptedPacks(p, data, m);
      var raw := PackWith(p, m, BodyIn(data)).value;
      assert data == raw + data[|raw|..];
      WrittenRoundTrip(p, m, BodyIn(data), data[|raw|..]);
    }
    if m.headerVersion == 2 && PackManifest(p, m).Success? && PackManifest(p, m).value <= data {
      var raw := PackManifest(p, m).value;
      assert p.loads(p.dumps(m.body)) == Some(m.body);
      assert data == raw + data[|raw|..];
      WrittenRoundTrip(p, m, p.dumps(m.body), data[|raw|..]);
    }
  }

  /** Data no packer wrote that the parser accepts: a manifest with its body in another form than
      `dumps` gives it, or longer than the limit. */
  lemma AcceptsOtherForms(p: T.Codec, m: Manifest, body: bytes, trailing: bytes)
    requires T.Sound(p) && m.headerVersion == 2
    requires PackWith(p, m, body).Success? && p.loads(body) == Some(m.body)
    requires body != p.dumps(m.body) || |PackWith(p, m, body).value| > MANIFEST_SZ
    ensures var data := PackWith(p, m, body).value + trailing;
      ParseManifest(p, data) == Success(m) && !(PackManifest(p, m).Success? && PackManifest(p, m).value <= data)
  {
    hide ParseManifest, PackWith, HeaderOf, PackManifest, RegionWith;
    WrittenRoundTrip(p, m, body, trailing);
    AcceptsExactlyPacked(p, PackWith(p, m, body).value + trailing, m);
  }

  lemma RegionOf(m: Manifest, header: bytes, body: bytes, sigSize: nat)
    requires SigSize(m.sigAlg) == Success(sigSize) && CheckCertificate(m.certificate).Success?
    requires FitAll(HEADER, HeaderVals(m, |body|, sigSize)) && Pack(HEADER, HeaderVals(m, |body|, sigSize)) == header
    ensures RegionWith(m, body) == Success(header + m.certificate + body)
  {
    hide FitAll, Pack, HeaderVals, CheckCertificate, SigSize;
  }

  lemma AcceptedPacks(p: T.Codec, data: bytes, m: Manifest)
    requires ParseManifest(p, data) == Success(m)
    ensures m.headerVersion == 2 && HEADER_SIZE <= |data| && BodyEnd(data) <= |data|
    ensures BeginsWith(p, data, m, BodyIn(data))
  {
    hide HeaderOf, LeValue, FitAll, CheckCertificate, SigSize, Pack, RegionWith, Le, CalcSize;
    var v, sigSize := HeaderOf(data), SigSize(m.sigAlg).value;
    var sigOff := BODY_OFFSET + v[2].v;
    var bodyEnd := sigOff + sigSize;
    var body := data[BODY_OFFSET..sigOff];
    assert HeaderVals(m, |body|, sigSize) == v;
    HeaderPacked(data);
    RegionOf(m, data[..HEADER_SIZE], body, sigSize);
    assert data[..HEADER_SIZE] + data[HEADER_SIZE..BODY_OFFSET] + data[BODY_OFFSET..sigOff] == data[..sigOff];
    assert data[..sigOff] + data[sigOff..bodyEnd] == data[..bodyEnd];
    LeOfValue(data[bodyEnd..bodyEnd + CRC_SIZE]);
    assert data[..bodyEnd] + data[bodyEnd..bodyEnd + CRC_SIZE] == data[..bodyEnd + CRC_SIZE];
  }

  // ---- the signature covers the rest ----

  /** Two accepted manifests with equal signed regions agree on every field but the signature. */
  lemma SameRegionSameManifest(p: T.Codec, data: bytes, data': bytes)
    requires ParseManifest(p, data).Success? && ParseManifest(p, data').Success?
    requires SignedRegion(data) == SignedRegion(data')
    ensures ParseManifest(p, data').value.(signature := ParseManifest(p, data).value.signature)
         == ParseManifest(p, data).value
  {
    hide LeValue, HeaderOf, CheckCertificate, SigSize;
    HeaderReads(data);
    HeaderReads(data');
    var end := |SignedRegion(data).value|;
    assert data[..end] == data'[..end];
    HeaderSame(data, data', end);
    SameSlice(data, data', end, HEADER_SIZE, BODY_OFFSET);
    SameSlice(data, data', end, BODY_OFFSET, end);
  }

  lemma HeaderReads(data: bytes)
    requires HEADER_SIZE <= |data|
    ensures HeaderOf(data)[2] == Num(LeValue(data[8..12]))
  {
    Sizes();
    hide Unpack, CalcSize;
    UnpackAt(HEADER, data, 0, 2);
    assert HEADER[2] == U(4);
  }

  lemma HeaderSame(data: bytes, data': bytes, end: nat)
    requires HEADER_SIZE <= end <= |data| && end <= |data'| && data[..end] == data'[..end]
    ensures HeaderOf(data) == HeaderOf(data')
  {
    Sizes();
    hide Unpack, CalcSize;
    SameSlice(data, data', end, 0, HEADER_SIZE);
    UnpackSame(HEADER, data, data', 0);
  }

  // ---- choosing a transport ----

  const NO_SIZE := 0x4000_0000_0000_0000

  /** One way to get the image; a missing field is None. */
  datatype Representation = Representation(format: Option<string>, size: Option<int>, basePayloadVersion: Option<int>,
                                           baseBodySha256: Option<string>)
  {
    function Cost(): int {
      if size.None? then NO_SIZE else size.value
    }
  }

  /** What the device runs, and whether it can apply a delta to it. */
  datatype Device = Device(deltaCapable: bool, payloadVersion: int, bodySha256: string)

  /** A full image always; a delta only against exactly the running slot. */
  ghost predicate Usable(rep: Representation, device: Device) {
    || rep.format == Some("full")
    || (rep.format == Some("ocdl") && device.deltaCapable && rep.basePayloadVersion == Some(device.payloadVersion)
        && device.bodySha256 != "" && rep.baseBodySha256 == Some(device.bodySha256))
  }

  /** The cheapest usable representation, the first listed of those; none only if none is usable. */
  method SelectRepresentation(reps: seq<Representation>, device: Device) returns (best: Option<Representation>)
    ensures best.None? <==> forall i | 0 <= i < |reps| :: !Usable(reps[i], device)
    ensures best.Some? ==> exists i :: 0 <= i < |reps| && IsBest(reps, device, i) && reps[i] == best.value
  {
    best := None;
    ghost var at := 0;
    for i := 0 to |reps|
      invariant best.None? <==> forall j | 0 <= j < i :: !Usable(reps[j], device)
      invariant best.Some? ==> 0 <= at < i && reps[at] == best.value && Usable(reps[at], device)
      invariant best.Some? ==> forall j | 0 <= j < i && Usable(reps[j], device) ::
        if j < at then reps[at].Cost() < reps[j].Cost() else reps[at].Cost() <= reps[j].Cost()
    {
      var rep := reps[i];
      if rep.format == Some("ocdl") {
        if !device.deltaCapable || rep.basePayloadVersion != Some(device.payloadVersion) || device.bodySha256 == ""
           || rep.baseBodySha256 != Some(device.bodySha256) {
          continue;
        }
      } else if rep.format != Some("full") {
        continue;
      }
      if best.None? || rep.Cost() < best.value.Cost() {
        best := Some(rep);
        at := i;
      }
    }
    assert best.Some? ==> IsBest(reps, device, at);
  }

  /** The compressed size; one not given is beyond any image's. */
  ghost function SizeOf(rep: Representation): int {
    if rep.size.Some? then rep.size.value else 0x4000_0000_0000_0000
  }

  ghost predicate IsBest(reps: seq<Representation>, device: Device, i: nat)
    requires i < |reps|
  {
    && Usable(reps[i], device)
    && forall j | 0 <= j < |reps| && Usable(reps[j], device) ::
         if j < i then SizeOf(reps[i]) < SizeOf(reps[j]) else SizeOf(reps[i]) <= SizeOf(reps[j])
  }
}
