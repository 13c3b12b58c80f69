/** What the trailer's packer, parser and slicer promise together. */
module TrailerTheorems {
  import opened Wrappers
  import opened Bytes
  import opened Struct
  import opened Trailer
  import Cert = Certificate

  /** The two numbers the framing reads on their own are the header's. */
  lemma FramingReads(data: bytes)
    requires HEADER_SIZE <= |data|
    ensures CalcSize(HEADER) == HEADER_SIZE
    ensures Unpack(HEADER, data, 0)[3] == Num(LeValue(data[12..16]))
    ensures Unpack(HEADER, data, 0)[4] == Num(LeValue(data[16..20]))
  {
    Sizes();
    hide CalcSize, Unpack;
    UnpackAt(HEADER, data, 0, 3);
    UnpackAt(HEADER, data, 0, 4);
    assert HEADER[3] == U(4) && HEADER[4] == U(4);
  }

  lemma ComponentAt(c: Component, data: bytes, off: nat)
    requires FitAll(COMPONENT, ComponentVals(c)) && At(data, off, Pack(COMPONENT, ComponentVals(c)))
    ensures off + COMPONENT_SIZE <= |data| && ReadComponent(data, off) == c
  {
    Sizes();
    UnpackPacked(COMPONENT, ComponentVals(c), data, off);
    hide Pack, CalcSize, Unpack, FitAll;
  }

  lemma {:induction false} ComponentsAt(cs: seq<Component>, data: bytes, off: nat)
    requires PackComponents(cs).Success? && At(data, off, PackComponents(cs).value)
    ensures off + |cs| * COMPONENT_SIZE <= |data| && ParseComponents(data, off, |cs|) == cs
    decreases |cs|
  {
    hide CalcSize, Pack, ReadComponent, FitAll, Cert.ParseCertificate;
    if cs != [] {
      Sizes();
      AtParts(data, off, Pack(COMPONENT, ComponentVals(cs[0])), PackComponents(cs[1..]).value);
      ComponentAt(cs[0], data, off);
      ComponentsAt(cs[1..], data, off + COMPONENT_SIZE);
      assert [cs[0]] + cs[1..] == cs;
    }
  }

  /** The parts of a written trailer. */
  lemma WrittenParts(p: Codec, t: Trailer, meta: bytes) returns (header: bytes, comps: bytes, region: bytes)
    requires PackWith(p, t, meta).Success?
    ensures region == header + comps + t.certificate + meta && RegionWith(t, meta) == Success(region)
    ensures FitAll(HEADER, HeaderVals(t, |meta|)) && header == Pack(HEADER, HeaderVals(t, |meta|))
    ensures PackComponents(t.components) == Success(comps) && |t.components| <= MAX_COMPONENTS
    ensures |t.certificate| == Cert.SIZE && |t.signature| == Cert.SIG_SIZE
    ensures Cert.ParseCertificate(t.certificate).Success?
    ensures PackWith(p, t, meta) == Success(region + t.signature + Le(p.crc32(region + t.signature) % 0x1_0000_0000, 4))
    ensures |header| == HEADER_SIZE
  {
    hide FitAll, Pack, Cert.ParseCertificate, PackComponents, HeaderVals, CalcSize, Le;
    Sizes();
    header, comps := Pack(HEADER, HeaderVals(t, |meta|)), PackComponents(t.components).value;
    region := RegionWith(t, meta).value;
  }

  /** Six parts in a row, and what slicing finds. */
  lemma SixParts(data: bytes, a: bytes, b: bytes, c: bytes, d: bytes, e: bytes, f: bytes)
    requires a + b + c + d + e + f <= data
    ensures var i, j, k, l := |a|, |a| + |b|, |a| + |b| + |c|, |a| + |b| + |c| + |d|;
      && l + |e| + |f| <= |data| && At(data, 0, a) && At(data, i, b)
      && data[j..k] == c && data[k..l] == d && data[..l] == a + b + c + d
      && data[l..l + |e|] == e && data[..l + |e|] == a + b + c + d + e
      && data[l + |e|..l + |e| + |f|] == f
  {
    hide At;
    PrefixAt(data, a + b + c + d + e + f);
    AtParts(data, 0, a + b + c + d + e, f);
    AtParts(data, 0, a + b + c + d, e);
    AtParts(data, 0, a + b + c, d);
    AtParts(data, 0, a + b, c);
    AtParts(data, 0, a, b);
    AtIs(data, |a + b|, c);
    AtIs(data, |a + b + c|, d);
    AtIs(data, |a + b + c + d|, e);
    AtIs(data, |a + b + c + d + e|, f);
    AtIs(data, 0, a + b + c + d);
    AtIs(data, 0, a + b + c + d + e);
  }

  /** What the parser finds where, in data that begins with a packed trailer. */
  ghost predicate Laid(p: Codec, t: Trailer, data: bytes, certOff: nat, meta: bytes, region: bytes) {
    var metaEnd := certOff + Cert.SIZE + |meta|;
    var bodyEnd := metaEnd + Cert.SIG_SIZE;
    && bodyEnd + CRC_SIZE <= |data|
    && data[certOff..certOff + Cert.SIZE] == t.certificate && data[certOff + Cert.SIZE..metaEnd] == meta
    && data[..metaEnd] == region && data[metaEnd..bodyEnd] == t.signature && data[..bodyEnd] == region + t.signature
    && LeValue(data[bodyEnd..bodyEnd + CRC_SIZE]) == p.crc32(region + t.signature) % 0x1_0000_0000
  }

  lemma PartsLaid(p: Codec, t: Trailer, data: bytes, header: bytes, comps: bytes, meta: bytes, region: bytes,
                  certOff: nat)
    requires region == header + comps + t.certificate + meta && certOff == |header| + |comps|
    requires region + t.signature + Le(p.crc32(region + t.signature) % 0x1_0000_0000, 4) <= data
    requires |t.certificate| == Cert.SIZE && |t.signature| == Cert.SIG_SIZE
    ensures Laid(p, t, data, certOff, meta, region) && At(data, 0, header) && At(data, |header|, comps)
  {
    var crc := Le(p.crc32(region + t.signature) % 0x1_0000_0000, 4);
    CrcReads(p.crc32(region + t.signature));
    hide Le, LeValue;
    SixParts(data, header, comps, t.certificate, meta, t.signature, crc);
  }

  lemma FramingOf(data: bytes, v: seq<Val>, n: nat, metaSize: nat, certOff: nat)
    requires FitAll(HEADER, v) && At(data, 0, Pack(HEADER, v)) && v[3] == Num(n) && v[4] == Num(metaSize)
    requires n <= MAX_COMPONENTS && certOff == HEADER_SIZE + n * COMPONENT_SIZE
    requires certOff + Cert.SIZE + metaSize <= |data|
    ensures HeaderOf(data) == v
    ensures Framing(data) == Success(Frame(n, certOff, certOff + Cert.SIZE + metaSize))
  {
    UnpackPacked(HEADER, v, data, 0);
    FramingReads(data);
    hide Unpack, Pack, CalcSize, FitAll, LeValue;
  }

  /** What the parser returns, from what it finds. */
  lemma RestOf(p: Codec, t: Trailer, data: bytes, certOff: nat, meta: bytes, region: bytes, f: Frame, v: seq<Val>)
    requires |v| == 17 && FitAll(HEADER, v) && p.loads(meta) == Some(t.meta)
    requires f == Frame(|t.components|, certOff, certOff + Cert.SIZE + |meta|) && Framing(data) == Success(f)
    requires ParseComponents(data, HEADER_SIZE, |t.components|) == t.components
    requires Laid(p, t, data, certOff, meta, region) && Cert.ParseCertificate(t.certificate).Success?
    ensures ParseRest(p, data, f, v) == Success(Fields(v, t.components, t.certificate, t.meta, t.signature))
  {
    hide Framing, ParseComponents, LeValue, FitAll, Fields, Cert.ParseCertificate;
  }

  lemma FieldsOf(t: Trailer, metaSize: nat)
    requires FitAll(HEADER, HeaderVals(t, metaSize))
    ensures Fields(HeaderVals(t, metaSize), t.components, t.certificate, t.meta, t.signature) == t
  {
  }

  /** The bytes of the meta, in framed data. */
  function MetaIn(data: bytes): bytes
    requires Framing(data).Success?
  {
    data[Framing(data).value.certOff + Cert.SIZE..Framing(data).value.metaEnd]
  }

  /** Parsing gives back every trailer that was written, in whatever form its meta was, and whatever
      follows it, exactly when it is of the version the parser reads. */
  lemma WrittenRoundTrip(p: Codec, t: Trailer, meta: bytes, trailing: bytes)
    requires PackWith(p, t, meta).Success? && p.loads(meta) == Some(t.meta)
    ensures var data := PackWith(p, t, meta).value + trailing;
      && ParseTrailer(p, data) == (if t.headerVersion == 4 then Success(t) else Failure(Cert.BadVersion))
      && SignedRegion(data) == RegionWith(t, meta)
      && Framing(data).Success? && MetaIn(data) == meta
      && |PackWith(p, t, meta).value| == Framing(data).value.metaEnd + Cert.SIG_SIZE + CRC_SIZE
  {
    hide PackWith, RegionWith, Unpack, CalcSize, Framing, ParseComponents, PackComponents, LeValue, Le, FitAll, Pack,
      ParseRest, HeaderOf, Fields;
    var data := PackWith(p, t, meta).value + trailing;
    var header, comps, region := WrittenParts(p, t, meta);
    var certOff := |header| + |comps|;
    PartsLaid(p, t, data, header, comps, meta, region, certOff);
    ComponentsAt(t.components, data, HEADER_SIZE);
    FramingOf(data, HeaderVals(t, |meta|), |t.components|, |meta|, certOff);
    RestOf(p, t, data, certOff, meta, region, Framing(data).value, HeaderVals(t, |meta|));
    FieldsOf(t, |meta|);
  }

  /** Parsing gives back every trailer that packs, whatever follows it, exactly when it is of the
      version the parser reads; and slicing gives the region that was built for the signer. */
  lemma TrailerRoundTrip(p: Codec, t: Trailer, trailing: bytes)
    requires Sound(p) && PackTrailer(p, t).Success?
    ensures var data := PackTrailer(p, t).value + trailing;
      && ParseTrailer(p, data) == (if t.headerVersion == 4 then Success(t) else Failure(Cert.BadVersion))
      && SignedRegion(data) == BuildRegion(p, t)
  {
    hide ParseTrailer, PackWith, SignedRegion, RegionWith;
    assert p.loads(p.dumps(t.meta)) == Some(t.meta);
    WrittenRoundTrip(p, t, p.dumps(t.meta), trailing);
  }

  // ---- authenticated framing ----

  lemma {:induction false} ComponentsSame(data: bytes, data': bytes, off: nat, n: nat, end: nat)
    requires off + n * COMPONENT_SIZE <= end <= |data| && end <= |data'| && data[..end] == data'[..end]
    ensures ParseComponents(data, off, n) == ParseComponents(data', off, n)
    decreases n
  {
    hide ReadComponent;
    if n > 0 {
      ComponentSame(data, data', off, end);
      ComponentsSame(data, data', off + COMPONENT_SIZE, n - 1, end);
    }
  }

  lemma ComponentSame(data: bytes, data': bytes, off: nat, end: nat)
    requires off + COMPONENT_SIZE <= end <= |data| && end <= |data'| && data[..end] == data'[..end]
    ensures ReadComponent(data, off) == ReadComponent(data', off)
  {
    Sizes();
    hide Unpack, CalcSize;
    SameSlice(data, data', end, off, off + COMPONENT_SIZE);
    UnpackSame(COMPONENT, data, data', off);
  }

  lemma HeaderSame(data: bytes, data': bytes, end: nat)
    requires HEADER_SIZE <= end <= |data| && end <= |data'| && data[..end] == data'[..end]
    ensures HeaderOf(data) == HeaderOf(data')
    ensures data[12..16] == data'[12..16] && data[16..20] == data'[16..20]
  {
    Sizes();
    hide Unpack, CalcSize;
    SameSlice(data, data', end, 0, HEADER_SIZE);
    SameSlice(data, data', end, 12, 16);
    SameSlice(data, data', end, 16, 20);
    UnpackSame(HEADER, data, data', 0);
  }

  /** The region holds everything it frames: two data with equal regions are framed alike. */
  lemma FramingSame(data: bytes, data': bytes)
    requires Framing(data).Success? && Framing(data').Success? && SignedRegion(data) == SignedRegion(data')
    ensures Framing(data) == Framing(data')
    ensures var f := Framing(data).value;
      && data[..f.metaEnd] == data'[..f.metaEnd] && HeaderOf(data) == HeaderOf(data')
      && ParseComponents(data, HEADER_SIZE, f.compCount) == ParseComponents(data', HEADER_SIZE, f.compCount)
      && data[f.certOff..f.certOff + Cert.SIZE] == data'[f.certOff..f.certOff + Cert.SIZE]
      && data[f.certOff + Cert.SIZE..f.metaEnd] == data'[f.certOff + Cert.SIZE..f.metaEnd]
  {
    hide HeaderOf, ParseComponents, LeValue;
    var f := Framing(data).value;
    var end := f.metaEnd;
    assert |data[..end]| == |data'[..Framing(data').value.metaEnd]|;
    HeaderSame(data, data', end);
    ComponentsSame(data, data', HEADER_SIZE, f.compCount, end);
    SameSlice(data, data', end, f.certOff, f.certOff + Cert.SIZE);
    SameSlice(data, data', end, f.certOff + Cert.SIZE, end);
  }

  /** Two accepted trailers with equal signed regions agree on every field but the signature: the
      signature covers all the others. */
  lemma SameRegionSameTrailer(p: Codec, data: bytes, data': bytes)
    requires ParseTrailer(p, data).Success? && ParseTrailer(p, data').Success?
    requires SignedRegion(data) == SignedRegion(data')
    ensures ParseTrailer(p, data').value.(signature := ParseTrailer(p, data).value.signature)
         == ParseTrailer(p, data).value
  {
    hide Framing, HeaderOf, ParseComponents, Fields, FitAll, SignedRegion;
    ParsedParts(p, data);
    ParsedParts(p, data');
    hide ParseTrailer;
    FramingSame(data, data');
    var f, v := Framing(data).value, HeaderOf(data);
    FieldsSigned(v, ParseComponents(data, HEADER_SIZE, f.compCount), data[f.certOff..f.certOff + Cert.SIZE],
                 p.loads(data[f.certOff + Cert.SIZE..f.metaEnd]).value, data[f.metaEnd..f.metaEnd + Cert.SIG_SIZE],
                 data'[f.metaEnd..f.metaEnd + Cert.SIG_SIZE]);
  }

  ghost predicate Readable(p: Codec, data: bytes, f: Frame) {
    && f.certOff == HEADER_SIZE + f.compCount * COMPONENT_SIZE && f.certOff + Cert.SIZE <= f.metaEnd
    && f.metaEnd + Cert.SIG_SIZE <= |data| && p.loads(data[f.certOff + Cert.SIZE..f.metaEnd]).Some?
  }

  /** The trailer in data framed by `f`. */
  ghost function Found(p: Codec, data: bytes, f: Frame): Trailer
    requires Readable(p, data, f)
  {
    Fields(HeaderOf(data), ParseComponents(data, HEADER_SIZE, f.compCount), data[f.certOff..f.certOff + Cert.SIZE],
           p.loads(data[f.certOff + Cert.SIZE..f.metaEnd]).value, data[f.metaEnd..f.metaEnd + Cert.SIG_SIZE])
  }

  lemma RestFields(p: Codec, data: bytes, f: Frame)
    requires Framing(data) == Success(f) && ParseRest(p, data, f, HeaderOf(data)).Success?
    ensures Readable(p, data, f) && ParseRest(p, data, f, HeaderOf(data)) == Success(Found(p, data, f))
  {
    hide Framing, HeaderOf, ParseComponents, Fields, FitAll, LeValue, Cert.ParseCertificate;
  }

  lemma ParsedParts(p: Codec, data: bytes)
    requires ParseTrailer(p, data).Success?
    ensures Framing(data).Success? && Readable(p, data, Framing(data).value)
    ensures ParseTrailer(p, data) == Success(Found(p, data, Framing(data).value))
  {
    hide Framing, HeaderOf, ParseComponents, Fields, FitAll, ParseRest, Readable, Found;
    RestFields(p, data, Framing(data).value);
  }

  lemma FieldsSigned(v: seq<Val>, cs: seq<Component>, certificate: bytes, meta: string, sig: bytes, sig': bytes)
    requires |v| == 17 && FitAll(HEADER, v)
    ensures Fields(v, cs, certificate, meta, sig').(signature := sig) == Fields(v, cs, certificate, meta, sig)
  {
  }

  // ---- only what was packed is accepted ----

  lemma ComponentPacked(data: bytes, off: nat)
    requires off + COMPONENT_SIZE <= |data|
    ensures var c := ReadComponent(data, off);
      && |c.sha256| == |c.installedSha256| == 32 && FitAll(COMPONENT, ComponentVals(c))
      && Pack(COMPONENT, ComponentVals(c)) == data[off..off + COMPONENT_SIZE]
  {
    Sizes();
    hide CalcSize, Pack, Unpack;
    PackUnpacked(COMPONENT, data, off);
    var v := Unpack(COMPONENT, data, off);
    assert forall i | 0 <= i < 6 :: Fits(COMPONENT[i], v[i]);
    assert ComponentVals(ReadComponent(data, off)) == v;
  }

  lemma {:induction false} ComponentsPacked(data: bytes, off: nat, n: nat)
    requires off + n * COMPONENT_SIZE <= |data|
    ensures PackComponents(ParseComponents(data, off, n)) == Success(data[off..off + n * COMPONENT_SIZE])
    decreases n
  {
    hide ReadComponent, FitAll, Pack;
    if n > 0 {
      ComponentPacked(data, off);
      ComponentsPacked(data, off + COMPONENT_SIZE, n - 1);
      assert ParseComponents(data, off, n)[1..] == ParseComponents(data, off + COMPONENT_SIZE, n - 1);
      Adjacent(data, off, off + COMPONENT_SIZE, off + n * COMPONENT_SIZE);
    } else {
      assert data[off..off] == [];
    }
  }

  lemma HeaderPacked(data: bytes, v: seq<Val>)
    requires HEADER_SIZE <= |data| && v == HeaderOf(data)
    ensures FitAll(HEADER, v) && Pack(HEADER, v) == data[..HEADER_SIZE]
  {
    Sizes();
    hide CalcSize, Unpack, Pack, FitAll;
    PackUnpacked(HEADER, data, 0);
  }

  /** The header's values are those the trailer read from it would be packed with. */
  lemma FieldsBack(v: seq<Val>, cs: seq<Component>, certificate: bytes, meta: string, sig: bytes, metaSize: nat)
    requires |v| == 17 && FitAll(HEADER, v)
    requires v[0] == Raw(MAGIC) && v[3] == Num(|cs|) && v[4] == Num(metaSize)
    ensures HeaderVals(Fields(v, cs, certificate, meta, sig), metaSize) == v
    ensures |Fields(v, cs, certificate, meta, sig).bodySha256| == 32
  {
    Kinds(v);
    assert Fits(HEADER[16], v[16]);
  }

  /** The parser accepts exactly the data that begin with a written trailer of its version, its meta
      in any form that loads; and it reads that trailer. */
  lemma AcceptsExactlyWritten(p: Codec, data: bytes, t: Trailer)
    ensures ParseTrailer(p, data) == Success(t) <==> t.headerVersion == 4 && Written(p, data, t)
  {
    hide ParseTrailer, PackWith, Framing, RegionWith;
    if ParseTrailer(p, data) == Success(t) {
      AcceptedPacks(p, data, t);
    }
    if t.headerVersion == 4 && Written(p, data, t) {
      var meta :| BeginsWith(p, data, t, meta);
      var raw := PackWith(p, t, meta).value;
      assert data == raw + data[|raw|..];
      WrittenRoundTrip(p, t, meta, data[|raw|..]);
    }
  }

  ghost predicate BeginsWith(p: Codec, data: bytes, t: Trailer, meta: bytes) {
    p.loads(meta) == Some(t.meta) && PackWith(p, t, meta).Success? && PackWith(p, t, meta).value <= data
  }

  ghost predicate Written(p: Codec, data: bytes, t: Trailer) {
    exists meta :: BeginsWith(p, data, t, meta)
  }

  /** The trailer in the data fits an erase block, and its meta is in the form `dumps` gives it. */
  ghost predicate Canonical(p: Codec, data: bytes) {
    && Framing(data).Success? && Framing(data).value.metaEnd + Cert.SIG_SIZE + CRC_SIZE <= TRAILER_SZ
    && p.loads(MetaIn(data)).Some? && p.dumps(p.loads(MetaIn(data)).value) == MetaIn(data)
  }

  /** What the parser accepts is what the packer packed exactly when it is canonical. */
  lemma AcceptsExactlyPacked(p: Codec, data: bytes, t: Trailer)
    requires Sound(p)
    ensures ParseTrailer(p, data) == Success(t) && Canonical(p, data) <==>
      t.headerVersion == 4 && PackTrailer(p, t).Success? && PackTrailer(p, t).value <= data
  {
    hide ParseTrailer, PackWith, Framing, RegionWith;
    if ParseTrailer(p, data) == Success(t) && Canonical(p, data) {
      AcceptedPacks(p, data, t);
      var raw := PackWith(p, t, MetaIn(data)).value;
      assert data == raw + data[|raw|..];
      WrittenRoundTrip(p, t, MetaIn(data), data[|raw|..]);
    }
    if t.headerVersion == 4 && PackTrailer(p, t).Success? && PackTrailer(p, t).value <= data {
      var raw := PackTrailer(p, t).value;
      assert p.loads(p.dumps(t.meta)) == Some(t.meta);
      assert data == raw + data[|raw|..];
      WrittenRoundTrip(p, t, p.dumps(t.meta), data[|raw|..]);
    }
  }

  /** Data no packer wrote that the parser accepts: a trailer with its meta in another form than
      `dumps` gives it, or longer than an erase block. */
  lemma AcceptsOtherForms(p: Codec, t: Trailer, meta: bytes, trailing: bytes)
    requires Sound(p) && t.headerVersion == 4
    requires PackWith(p, t, meta).Success? && p.loads(meta) == Some(t.meta)
    requires meta != p.dumps(t.meta) || |PackWith(p, t, meta).value| > TRAILER_SZ
    ensures var data := PackWith(p, t, meta).value + trailing;
      ParseTrailer(p, data) == Success(t) && !(PackTrailer(p, t).Success? && PackTrailer(p, t).value <= data)
  {
    hide ParseTrailer, PackWith, Framing, PackTrailer, RegionWith;
    WrittenRoundTrip(p, t, meta, trailing);
    AcceptsExactlyPacked(p, PackWith(p, t, meta).value + trailing, t);
  }

  /** What the parser has checked when it accepts. */
  ghost predicate Checked(p: Codec, data: bytes, f: Frame) {
    var bodyEnd := f.metaEnd + Cert.SIG_SIZE;
    && bodyEnd + CRC_SIZE <= |data| && f.certOff + Cert.SIZE <= f.metaEnd && f.compCount <= MAX_COMPONENTS
    && Cert.ParseCertificate(data[f.certOff..f.certOff + Cert.SIZE]).Success?
    && LeValue(data[bodyEnd..bodyEnd + CRC_SIZE]) == p.crc32(data[..bodyEnd]) % 0x1_0000_0000
    && HeaderOf(data)[0] == Raw(MAGIC) && HeaderOf(data)[1] == Num(HEADER_VERSION)
    && HeaderOf(data)[3] == Num(f.compCount) && HeaderOf(data)[4] == Num(f.metaEnd - f.certOff - Cert.SIZE)
  }

  lemma AcceptedChecked(p: Codec, data: bytes)
    requires ParseTrailer(p, data).Success?
    ensures Framing(data).Success? && Checked(p, data, Framing(data).value)
  {
    hide LeValue, CalcSize, Unpack, ParseComponents, Fields, FitAll, ParseRest;
    FramingReads(data);
    RestChecked(p, data, Framing(data).value);
  }

  lemma RestChecked(p: Codec, data: bytes, f: Frame)
    requires Framing(data) == Success(f) && ParseRest(p, data, f, HeaderOf(data)).Success?
    ensures var bodyEnd := f.metaEnd + Cert.SIG_SIZE;
      && bodyEnd + CRC_SIZE <= |data| && f.certOff + Cert.SIZE <= f.metaEnd
      && Cert.ParseCertificate(data[f.certOff..f.certOff + Cert.SIZE]).Success?
      && LeValue(data[bodyEnd..bodyEnd + CRC_SIZE]) == p.crc32(data[..bodyEnd]) % 0x1_0000_0000
  {
    hide Framing, HeaderOf, LeValue, ParseComponents, Fields, FitAll, Cert.ParseCertificate;
  }

  lemma RegionOf(t: Trailer, header: bytes, comps: bytes, meta: bytes)
    requires |t.bodySha256| == 32 && |t.components| <= MAX_COMPONENTS && |t.certificate| == Cert.SIZE
    requires Cert.ParseCertificate(t.certificate).Success?
    requires FitAll(HEADER, HeaderVals(t, |meta|)) && Pack(HEADER, HeaderVals(t, |meta|)) == header
    requires PackComponents(t.components) == Success(comps)
    ensures RegionWith(t, meta) == Success(header + comps + t.certificate + meta)
  {
    hide FitAll, Pack, HeaderVals, PackComponents, Cert.ParseCertificate;
  }

  lemma Joined(data: bytes, i: nat, j: nat, k: nat, l: nat)
    requires i <= j <= k <= l <= |data|
    ensures data[..i] + data[i..j] + data[j..k] + data[k..l] == data[..l]
  {
  }

  lemma AcceptedPacks(p: Codec, data: bytes, t: Trailer)
    requires ParseTrailer(p, data) == Success(t)
    ensures t.headerVersion == 4 && Framing(data).Success? && BeginsWith(p, data, t, MetaIn(data))
  {
    hide ParseTrailer, Framing, HeaderOf, ParseComponents, LeValue, FitAll, Cert.ParseCertificate, RegionWith, Pack,
      PackComponents, HeaderVals, CalcSize, Le;
    AcceptedChecked(p, data);
    ParsedParts(p, data);
    var f, v := Framing(data).value, HeaderOf(data);
    var certEnd, bodyEnd := f.certOff + Cert.SIZE, f.metaEnd + Cert.SIG_SIZE;
    var meta := data[certEnd..f.metaEnd];
    FieldsBack(v, t.components, t.certificate, t.meta, t.signature, |meta|);
    HeaderPacked(data, v);
    ComponentsPacked(data, HEADER_SIZE, f.compCount);
    RegionOf(t, data[..HEADER_SIZE], data[HEADER_SIZE..f.certOff], meta);
    Joined(data, HEADER_SIZE, f.certOff, certEnd, f.metaEnd);
    assert data[..f.metaEnd] + data[f.metaEnd..bodyEnd] == data[..bodyEnd];
    LeOfValue(data[bodyEnd..bodyEnd + CRC_SIZE]);
    assert data[..bodyEnd] + data[bodyEnd..bodyEnd + CRC_SIZE] == data[..bodyEnd + CRC_SIZE];
  }
}
