/**
  The signed image trailer (src/openmv_ota/ota/trailer.py): a fixed header, the component table, the
  signing key's certificate, a JSON blob, the signature and a CRC.
 */
module Trailer {
  import opened Wrappers
  import opened Bytes
  import opened Struct
  import Cert = Certificate

  type Error = Cert.Error

  /** The CRC-32 of bytes, and JSON objects to and from bytes; an object is named by a string. */
  datatype Codec = Codec(crc32: bytes -> nat, dumps: string -> bytes, loads: bytes -> Option<string>)

  ghost predicate Sound(p: Codec) {
    && (forall meta :: p.loads(p.dumps(meta)) == Some(meta))
    && (forall data :: p.crc32(data) < 0x1_0000_0000)
  }

  const MAGIC: bytes := [0x4F, 0x4D, 0x56, 0x52]  // "OMVR"
  const HEADER_VERSION := 4
  const TRAILER_SZ := 4096
  const HEADER_SIZE := 96
  const COMPONENT_SIZE := 80
  const MAX_COMPONENTS := 16
  const CRC_SIZE := 4

  /** magic header_version body_size comp_count */
  const FRAMING: seq<Fmt> := [S(4), U(4), U(4), U(4)]

  /** meta_size min_stub payload_version uart_en */
  const VERSIONS: seq<Fmt> := [U(4), U(4), U(4), U(1)]

  /** uart_id wdt_en wdt_id baud */
  const STUB: seq<Fmt> := [U(1), U(1), U(1), U(4)]

  /** wdt_timeout_ms product_id publish_seq reserved */
  const IDENTITY: seq<Fmt> := [U(4), U(8), U(8), U(8)]

  /** body_sha256 */
  const DIGEST: seq<Fmt> := [S(32)]

  const HEADER: seq<Fmt> := FRAMING + VERSIONS + STUB + IDENTITY + DIGEST

  /** dest offset size installed_size sha256 installed_sha256 */
  const COMPONENT: seq<Fmt> := [U(4), U(4), U(4), U(4), S(32), S(32)]

  const U32: seq<Fmt> := [U(4)]

  datatype Component = Component(dest: int, offset: int, size: int, installedSize: int, sha256: bytes,
                                 installedSha256: bytes)

  datatype Trailer = Trailer(
    bodySize: int, meta: string, productId: int, payloadVersion: int, bodySha256: bytes, certificate: bytes,
    components: seq<Component>, minStub: int, uartEn: int, uartId: int, wdtEn: int, wdtId: int, baud: int,
    wdtTimeoutMs: int, publishSeq: int, reserved: int, signature: bytes, headerVersion: int)

  lemma Sizes()
    ensures |HEADER| == 17 && CalcSize(HEADER) == HEADER_SIZE && CalcSize(COMPONENT) == COMPONENT_SIZE
    ensures CalcSize(U32) == 4 && CalcSize(HEADER[..3]) == 12 && CalcSize(HEADER[..4]) == 16
  {
    SizeOfFour(FRAMING);
    SizeOfFour(VERSIONS);
    SizeOfFour(STUB);
    SizeOfFour(IDENTITY);
    SizeOfOne(DIGEST);
    SizeOfParts(FRAMING + VERSIONS + STUB + IDENTITY, DIGEST);
    SizeOfParts(FRAMING + VERSIONS + STUB, IDENTITY);
    SizeOfParts(FRAMING + VERSIONS, STUB);
    SizeOfParts(FRAMING, VERSIONS);
    assert COMPONENT == COMPONENT[..4] + COMPONENT[4..];
    SizeOfParts(COMPONENT[..4], COMPONENT[4..]);
    SizeOfFour(COMPONENT[..4]);
    assert COMPONENT[4..][1..] == [S(32)];
    SizeOfOne(COMPONENT[4..][1..]);
    assert HEADER[..4] == FRAMING;
    assert FRAMING == FRAMING[..3] + FRAMING[3..] && HEADER[..3] == FRAMING[..3];
    SizeOfParts(FRAMING[..3], FRAMING[3..]);
    SizeOfOne(FRAMING[3..]);
  }

  // ---- packing ----

  function HeaderVals(t: Trailer, metaSize: nat): (v: seq<Val>)
    ensures |v| == 17
  {
    [Raw(MAGIC), Num(t.headerVersion), Num(t.bodySize), Num(|t.components|),
     Num(metaSize), Num(t.minStub), Num(t.payloadVersion), Num(t.uartEn),
     Num(t.uartId), Num(t.wdtEn), Num(t.wdtId), Num(t.baud),
     Num(t.wdtTimeoutMs), Num(t.productId), Num(t.publishSeq), Num(t.reserved),
     Raw(t.bodySha256)]
  }

  function ComponentVals(c: Component): seq<Val> {
    [Num(c.dest), Num(c.offset), Num(c.size), Num(c.installedSize), Raw(c.sha256), Raw(c.installedSha256)]
  }

  function PackComponents(cs: seq<Component>): (r: Result<bytes, Error>)
    ensures r.Success? ==> |r.value| == |cs| * COMPONENT_SIZE
  {
    Sizes();
    if cs == [] then Success([])
    else if |cs[0].sha256| != 32 || |cs[0].installedSha256| != 32 then Failure(Cert.BadHash)
    else if !FitAll(COMPONENT, ComponentVals(cs[0])) then Failure(Cert.OutOfRange)
    else
      var rest :- PackComponents(cs[1..]);
      Success(Pack(COMPONENT, ComponentVals(cs[0])) + rest)
  }

  /** Everything before the signature, built from the fields and the bytes the meta is written as. */
  function RegionWith(t: Trailer, meta: bytes): Result<bytes, Error> {
    if |t.bodySha256| != 32 then Failure(Cert.BadHash)
    else if |t.components| > MAX_COMPONENTS then Failure(Cert.TooMany)
    else if |t.certificate| != Cert.SIZE then Failure(Cert.BadCertificateSize)
    else
      var _ :- Cert.ParseCertificate(t.certificate);
      if !FitAll(HEADER, HeaderVals(t, |meta|)) then Failure(Cert.OutOfRange)
      else
        var comps :- PackComponents(t.components);
        Success(Pack(HEADER, HeaderVals(t, |meta|)) + comps + t.certificate + meta)
  }

  function BuildRegion(p: Codec, t: Trailer): Result<bytes, Error> {
    RegionWith(t, p.dumps(t.meta))
  }

  /** `signed region || signature || crc32`, of any length. */
  function PackWith(p: Codec, t: Trailer, meta: bytes): Result<bytes, Error> {
    var region :- RegionWith(t, meta);
    if |t.signature| != Cert.SIG_SIZE then Failure(Cert.BadSignatureSize)
    else
      var body := region + t.signature;
      Success(body + Le(p.crc32(body) % 0x1_0000_0000, 4))
  }

  /** The packer writes the meta in the one form `dumps` gives it, in at most an erase block. */
  function PackTrailer(p: Codec, t: Trailer): Result<bytes, Error> {
    var out :- PackWith(p, t, p.dumps(t.meta));
    if |out| > TRAILER_SZ then Failure(Cert.TooLarge) else Success(out)
  }

  // ---- parsing ----

  datatype Frame = Frame(compCount: nat, certOff: nat, metaEnd: nat)

  /** The authenticated framing, checked against the data. */
  function Framing(data: bytes): (r: Result<Frame, Error>)
    ensures r.Success? ==> HEADER_SIZE <= r.value.certOff <= r.value.metaEnd - Cert.SIZE && r.value.metaEnd <= |data|
    ensures r.Success? ==> r.value.certOff == HEADER_SIZE + r.value.compCount * COMPONENT_SIZE
  {
    if |data| < HEADER_SIZE then Failure(Cert.TooSmall) else
    var compCount := LeValue(data[12..16]);
    if compCount > MAX_COMPONENTS then Failure(Cert.TooMany) else
    var metaSize := LeValue(data[16..20]);
    var certOff := HEADER_SIZE + compCount * COMPONENT_SIZE;
    var end := certOff + Cert.SIZE + metaSize;
    if end > |data| then Failure(Cert.Truncated) else Success(Frame(compCount, certOff, end))
  }

  /** Everything before the signature, sliced from raw bytes. */
  function SignedRegion(data: bytes): Result<bytes, Error> {
    var f :- Framing(data);
    Success(data[..f.metaEnd])
  }

  function ReadComponent(data: bytes, off: nat): Component
    requires off + COMPONENT_SIZE <= |data|
  {
    Sizes();
    UnpackedFit(COMPONENT, data, off);
    var v := Unpack(COMPONENT, data, off);
    Component(v[0].v, v[1].v, v[2].v, v[3].v, v[4].b, v[5].b)
  }

  function ParseComponents(data: bytes, off: nat, n: nat): (cs: seq<Component>)
    requires off + n * COMPONENT_SIZE <= |data|
    ensures |cs| == n
    decreases n
  {
    if n == 0 then [] else [ReadComponent(data, off)] + ParseComponents(data, off + COMPONENT_SIZE, n - 1)
  }

  /** The header's fields, and the parts that follow it. */
  function Fields(v: seq<Val>, components: seq<Component>, certificate: bytes, meta: string, signature: bytes): Trailer
    requires |v| == 17 && FitAll(HEADER, v)
  {
    Kinds(v);
    Trailer(v[2].v, meta, v[13].v, v[6].v, v[16].b, certificate, components, v[5].v, v[7].v, v[8].v, v[9].v, v[10].v,
            v[11].v, v[12].v, v[14].v, v[15].v, signature, v[1].v)
  }

  lemma Kinds(v: seq<Val>)
    requires |v| == 17 && FitAll(HEADER, v)
    ensures v[0].Raw? && v[16].Raw? && forall i | 1 <= i < 16 :: v[i].Num?
  {
    assert HEADER[0] == S(4) && HEADER[16] == S(32);
    assert forall i | 1 <= i < 16 :: HEADER[i].U?;
    assert forall i | 0 <= i < 17 :: Fits(HEADER[i], v[i]);
  }

  /** What follows the header, once its magic and version are right. */
  function ParseRest(p: Codec, data: bytes, f: Frame, v: seq<Val>): Result<Trailer, Error>
    requires Framing(data) == Success(f) && |v| == 17 && FitAll(HEADER, v)
  {
    var certificate := data[f.certOff..f.certOff + Cert.SIZE];
    var _ :- Cert.ParseCertificate(certificate);
    var bodyEnd := f.metaEnd + Cert.SIG_SIZE;
    if bodyEnd + CRC_SIZE > |data| then Failure(Cert.Truncated)
    else if p.crc32(data[..bodyEnd]) % 0x1_0000_0000 != LeValue(data[bodyEnd..bodyEnd + CRC_SIZE]) then
      Failure(Cert.BadCrc)
    else
      var components := ParseComponents(data, HEADER_SIZE, f.compCount);
      match p.loads(data[f.certOff + Cert.SIZE..f.metaEnd])
      case None => Failure(Cert.BadJson)
      case Some(meta) => Success(Fields(v, components, certificate, meta, data[f.metaEnd..bodyEnd]))
  }

  function HeaderOf(data: bytes): (v: seq<Val>)
    requires HEADER_SIZE <= |data|
    ensures |v| == 17 && FitAll(HEADER, v) && v[0].Raw? && v[1].Num?
  {
    Sizes();
    UnpackedFit(HEADER, data, 0);
    Kinds(Unpack(HEADER, data, 0));
    Unpack(HEADER, data, 0)
  }

  function ParseTrailer(p: Codec, data: bytes): Result<Trailer, Error> {
    var f :- Framing(data);
    var v := HeaderOf(data);
    if v[0].b != MAGIC then Failure(Cert.BadMagic)
    else if v[1].v != HEADER_VERSION then Failure(Cert.BadVersion)
    else ParseRest(p, data, f, v)
  }
}
