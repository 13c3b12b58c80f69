/**
  The four signed or stored formats byte by byte, in the order their documentation lists them, and
  exactly which values can be packed (src/openmv_ota/ota/certificate.py, trailer.py, manifest.py and
  install_record.py). Numbers are little-endian words.
 */
module Layouts {
  import opened Wrappers
  import opened Bytes
  import opened Struct
  import Cert = Certificate
  import T = Trailer
  import M = Manifest
  import R = InstallRecord

  predicate Is32(x: int) {
    0 <= x < 0x1_0000_0000
  }

  predicate Is64(x: int) {
    0 <= x < 0x1_0000_0000_0000_0000
  }

  predicate Is8(x: int) {
    0 <= x < 0x100
  }

  // ---- fields ----

  lemma Powers()
    ensures Pow256(1) == 0x100 && Pow256(4) == 0x1_0000_0000 && Pow256(8) == 0x1_0000_0000_0000_0000
  {
    assert Pow256(4) == 0x1_0000_0000;
    assert Pow256(6) == 0x1_0000_0000_0000;
  }

  lemma Unsigned(x: int)
    ensures Fits(U(1), Num(x)) <==> Is8(x)
    ensures Fits(U(4), Num(x)) <==> Is32(x)
    ensures Fits(U(8), Num(x)) <==> Is64(x)
    ensures Is8(x) ==> PackOne(U(1), Num(x)) == [x]
    ensures Is32(x) ==> PackOne(U(4), Num(x)) == Word32(x)
    ensures Is64(x) ==> PackOne(U(8), Num(x)) == Word64(x)
  {
    Powers();
    hide Pow256, Word32, Word64;
    if x >= 0 {
      LeIsWord32(x);
      LeIsWord64(x);
      LeOne(x);
    }
  }

  lemma LeOne(x: nat)
    ensures Le(x, 1) == [x % 256]
  {
    assert Le(x / 256, 0) == [];
  }

  /** The algorithms' numbers, two's complement. */
  lemma Signed(x: int)
    requires -0x100 <= x < 0
    ensures Fits(I(4), Num(x)) && PackOne(I(4), Num(x)) == [0x100 + x, 0xFF, 0xFF, 0xFF]
  {
    Powers();
    hide Pow256;
    LeIsWord32(x + 0x1_0000_0000);
  }

  lemma PackSingle(f: Fmt, v: Val)
    requires Fits(f, v)
    ensures FitAll([f], [v]) && Pack([f], [v]) == PackOne(f, v)
  {
    assert [f][1..] == [] && [v][1..] == [];
  }

  lemma PackTwo(f: Fmt, g: Fmt, v: Val, w: Val)
    requires Fits(f, v) && Fits(g, w)
    ensures FitAll([f, g], [v, w]) && Pack([f, g], [v, w]) == PackOne(f, v) + PackOne(g, w)
  {
    hide Fits, PackOne;
    PackSingle(f, v);
    PackSingle(g, w);
    assert [f, g] == [f] + [g] && [v, w] == [v] + [w];
    PackParts([f], [v], [g], [w]);
  }

  lemma PackFour(f: Fmt, g: Fmt, h: Fmt, i: Fmt, a: Val, b: Val, c: Val, d: Val)
    requires Fits(f, a) && Fits(g, b) && Fits(h, c) && Fits(i, d)
    ensures FitAll([f, g, h, i], [a, b, c, d])
    ensures Pack([f, g, h, i], [a, b, c, d]) == PackOne(f, a) + PackOne(g, b) + (PackOne(h, c) + PackOne(i, d))
  {
    hide Fits, PackOne;
    PackTwo(f, g, a, b);
    PackTwo(h, i, c, d);
    assert [f, g, h, i] == [f, g] + [h, i] && [a, b, c, d] == [a, b] + [c, d];
    PackParts([f, g], [a, b], [h, i], [c, d]);
  }

  // ---- certificate ----

  /** "OMVC", version, kind, root id, epoch, algorithm, key, pad, signature. */
  function CertificateBytes(c: Cert.Certificate): bytes
    requires c.kind >= 0 && c.rootId >= 0 && c.epoch >= 0
  {
    [0x4F, 0x4D, 0x56, 0x43] + Word32(1) + (Word32(c.kind) + Word32(c.rootId))
    + (Word32(c.epoch) + [0xF9, 0xFF, 0xFF, 0xFF] + (c.pubkey + [0, 0, 0, 0, 0, 0, 0])) + c.signature
  }

  predicate CertificateOk(c: Cert.Certificate) {
    && c.alg == -7 && 0 <= c.kind <= 3 && Is32(c.rootId) && Is32(c.epoch)
    && |c.pubkey| == 65 && c.pubkey[0] == 4 && |c.signature| == 64
  }

  lemma CertificateLaid(c: Cert.Certificate)
    requires CertificateOk(c)
    ensures FitAll(Cert.FMT, Cert.Vals(c, c.signature))
    ensures Pack(Cert.FMT, Cert.Vals(c, c.signature)) == CertificateBytes(c)
  {
    hide PackOne, Fits, FitAll, Pack, Word32, Word64, CalcSize;
    Unsigned(1);
    Unsigned(c.kind);
    Unsigned(c.rootId);
    Unsigned(c.epoch);
    Signed(-7);
    RawField(Cert.MAGIC);
    RawField(c.pubkey);
    RawField(Cert.Zeros(7));
    RawField(c.signature);
    PackFour(S(4), U(4), U(4), U(4), Raw(Cert.MAGIC), Num(1), Num(c.kind), Num(c.rootId));
    PackFour(U(4), I(4), S(65), S(7), Num(c.epoch), Num(-7), Raw(c.pubkey), Raw(Cert.Zeros(7)));
    PackSingle(S(64), Raw(c.signature));
    var f, g := [S(4), U(4), U(4), U(4)], [U(4), I(4), S(65), S(7)];
    var v := [Raw(Cert.MAGIC), Num(1), Num(c.kind), Num(c.rootId)];
    var w := [Num(c.epoch), Num(-7), Raw(c.pubkey), Raw(Cert.Zeros(7))];
    PackParts(f, v, g, w);
    PackParts(f + g, v + w, [S(64)], [Raw(c.signature)]);
    assert Cert.FMT == f + g + [S(64)] && Cert.Vals(c, c.signature) == v + w + [Raw(c.signature)];
    assert Cert.Zeros(7) == [0, 0, 0, 0, 0, 0, 0];
  }

  lemma RawField(b: bytes)
    ensures Fits(S(|b|), Raw(b)) && PackOne(S(|b|), Raw(b)) == b
  {
  }

  lemma CertificateFits(c: Cert.Certificate)
    requires FitAll(Cert.FMT, Cert.Vals(c, c.signature))
    ensures Is32(c.rootId) && Is32(c.epoch) && |c.signature| == 64
  {
    var v := Cert.Vals(c, c.signature);
    assert Fits(Cert.FMT[3], v[3]) && Fits(Cert.FMT[4], v[4]) && Fits(Cert.FMT[8], v[8]);
    hide Fits, Cert.Vals;
    Unsigned(c.rootId);
    Unsigned(c.epoch);
  }

  /** A certificate packs exactly when its fields are in range, to exactly these bytes. */
  lemma CertificatePacks(c: Cert.Certificate)
    ensures Cert.PackCertificate(c).Success? <==> CertificateOk(c)
    ensures CertificateOk(c) ==> Cert.PackCertificate(c) == Success(CertificateBytes(c))
  {
    hide FitAll, Pack, Cert.Vals, CertificateBytes;
    if Cert.PackCertificate(c).Success? {
      Cert.PackedWhole(c);
      CertificateFits(c);
    }
    if CertificateOk(c) {
      CertificateLaid(c);
      Cert.VectorsOf(c, c.signature, Cert.Zeros(64));
      Cert.PackedWhole(c);
    }
  }

  // ---- trailer ----

  /** Destination, offset, size, installed size, the blob's digest, the installed bytes' digest. */
  function ComponentBytes(c: T.Component): bytes
    requires ComponentOk(c)
  {
    Word32(c.dest) + Word32(c.offset) + (Word32(c.size) + Word32(c.installedSize)) + (c.sha256 + c.installedSha256)
  }

  predicate ComponentOk(c: T.Component) {
    && Is32(c.dest) && Is32(c.offset) && Is32(c.size) && Is32(c.installedSize)
    && |c.sha256| == 32 && |c.installedSha256| == 32
  }

  function ComponentsBytes(cs: seq<T.Component>): bytes
    requires forall i | 0 <= i < |cs| :: ComponentOk(cs[i])
  {
    if cs == [] then [] else
    assert ComponentOk(cs[0]);
    ComponentBytes(cs[0]) + ComponentsBytes(cs[1..])
  }

  lemma ComponentLaid(c: T.Component)
    ensures |c.sha256| == |c.installedSha256| == 32 && FitAll(T.COMPONENT, T.ComponentVals(c)) <==> ComponentOk(c)
    ensures ComponentOk(c) ==> Pack(T.COMPONENT, T.ComponentVals(c)) == ComponentBytes(c)
  {
    var vals := T.ComponentVals(c);
    Unsigned(c.dest);
    Unsigned(c.offset);
    Unsigned(c.size);
    Unsigned(c.installedSize);
    if FitAll(T.COMPONENT, vals) {
      assert Fits(U(4), vals[0]) && Fits(U(4), vals[1]) && Fits(U(4), vals[2]) && Fits(U(4), vals[3]);
    }
    if ComponentOk(c) {
      hide PackOne, Fits, FitAll, Pack, Word32, Word64;
      RawField(c.sha256);
      RawField(c.installedSha256);
      PackFour(U(4), U(4), U(4), U(4), Num(c.dest), Num(c.offset), Num(c.size), Num(c.installedSize));
      PackTwo(S(32), S(32), Raw(c.sha256), Raw(c.installedSha256));
      var f, g := [U(4), U(4), U(4), U(4)], [S(32), S(32)];
      var v := [Num(c.dest), Num(c.offset), Num(c.size), Num(c.installedSize)];
      var w := [Raw(c.sha256), Raw(c.installedSha256)];
      PackParts(f, v, g, w);
      assert T.COMPONENT == f + g && vals == v + w;
    }
  }

  lemma {:induction false} ComponentsLaid(cs: seq<T.Component>)
    ensures T.PackComponents(cs).Success? <==> forall i | 0 <= i < |cs| :: ComponentOk(cs[i])
    ensures T.PackComponents(cs).Success? ==> T.PackComponents(cs) == Success(ComponentsBytes(cs))
  {
    hide FitAll, Pack, ComponentOk, ComponentBytes, T.ComponentVals;
    if cs != [] {
      ComponentLaid(cs[0]);
      ComponentsLaid(cs[1..]);
      assert forall i | 0 < i < |cs| :: cs[i] == cs[1..][i - 1];
      assert (forall i | 0 <= i < |cs| :: ComponentOk(cs[i]))
        <==> ComponentOk(cs[0]) && forall i | 0 <= i < |cs[1..]| :: ComponentOk(cs[1..][i]);
    }
  }

  /** "OMVR", version, body size, number of components; meta size, least stub, payload version, UART;
      its id, watchdog, its id, baud; watchdog timeout, product, publication, reserved; body digest. */
  function TrailerHeader(t: T.Trailer, metaSize: nat): bytes
    requires HeaderOk(t, metaSize)
  {
    [0x4F, 0x4D, 0x56, 0x52] + Word32(t.headerVersion) + (Word32(t.bodySize) + Word32(|t.components|))
    + (Word32(metaSize) + Word32(t.minStub) + (Word32(t.payloadVersion) + [t.uartEn]))
    + ([t.uartId] + [t.wdtEn] + ([t.wdtId] + Word32(t.baud)))
    + (Word32(t.wdtTimeoutMs) + Word64(t.productId) + (Word64(t.publishSeq) + Word64(t.reserved)))
    + t.bodySha256
  }

  predicate HeaderOk(t: T.Trailer, metaSize: nat) {
    && Is32(t.headerVersion) && Is32(t.bodySize) && Is32(|t.components|) && Is32(metaSize) && Is32(t.minStub)
    && Is32(t.payloadVersion) && Is8(t.uartEn) && Is8(t.uartId) && Is8(t.wdtEn) && Is8(t.wdtId) && Is32(t.baud)
    && Is32(t.wdtTimeoutMs) && Is64(t.productId) && Is64(t.publishSeq) && Is64(t.reserved) && |t.bodySha256| == 32
  }

  lemma RawFits(n: nat, b: bytes)
    ensures Fits(S(n), Raw(b)) <==> |b| == n
  {
  }

  lemma HeaderUnsigned(t: T.Trailer, metaSize: nat)
    ensures HeaderOk(t, metaSize) <==>
      && Fits(U(4), Num(t.headerVersion)) && Fits(U(4), Num(t.bodySize)) && Fits(U(4), Num(|t.components|))
      && Fits(U(4), Num(metaSize)) && Fits(U(4), Num(t.minStub)) && Fits(U(4), Num(t.payloadVersion))
      && Fits(U(1), Num(t.uartEn)) && Fits(U(1), Num(t.uartId)) && Fits(U(1), Num(t.wdtEn))
      && Fits(U(1), Num(t.wdtId)) && Fits(U(4), Num(t.baud)) && Fits(U(4), Num(t.wdtTimeoutMs))
      && Fits(U(8), Num(t.productId)) && Fits(U(8), Num(t.publishSeq)) && Fits(U(8), Num(t.reserved))
      && Fits(S(32), Raw(t.bodySha256))
  {
    Powers();
    hide Pow256;
  }

  lemma HeaderFits(t: T.Trailer, metaSize: nat)
    requires FitAll(T.HEADER, T.HeaderVals(t, metaSize))
    ensures HeaderOk(t, metaSize)
  {
    hide Fits, HeaderOk;
    var v := T.HeaderVals(t, metaSize);
    var f := [S(4), U(4), U(4), U(4), U(4), U(4), U(4), U(1), U(1), U(1), U(1), U(4), U(4), U(8), U(8), U(8), S(32)];
    assert T.HEADER == f;
    assert forall i | 0 <= i < 17 :: Fits(f[i], v[i]);
    assert Fits(f[1], v[1]) && Fits(f[2], v[2]) && Fits(f[3], v[3]) && Fits(f[4], v[4]) && Fits(f[5], v[5]);
    assert Fits(f[6], v[6]) && Fits(f[7], v[7]) && Fits(f[8], v[8]) && Fits(f[9], v[9]) && Fits(f[10], v[10]);
    assert Fits(f[11], v[11]) && Fits(f[12], v[12]) && Fits(f[13], v[13]) && Fits(f[14], v[14]) && Fits(f[15], v[15]);
    assert Fits(f[16], v[16]);
    HeaderUnsigned(t, metaSize);
  }

  lemma HeaderLaid(t: T.Trailer, metaSize: nat)
    requires HeaderOk(t, metaSize)
    ensures FitAll(T.HEADER, T.HeaderVals(t, metaSize))
    ensures Pack(T.HEADER, T.HeaderVals(t, metaSize)) == TrailerHeader(t, metaSize)
  {
    hide PackOne, Fits, FitAll, Pack, Word32, Word64, CalcSize;
    Unsigned(t.headerVersion);
    Unsigned(t.bodySize);
    Unsigned(|t.components|);
    Unsigned(metaSize);
    Unsigned(t.minStub);
    Unsigned(t.payloadVersion);
    Unsigned(t.uartEn);
    Unsigned(t.uartId);
    Unsigned(t.wdtEn);
    Unsigned(t.wdtId);
    Unsigned(t.baud);
    Unsigned(t.wdtTimeoutMs);
    Unsigned(t.productId);
    Unsigned(t.publishSeq);
    Unsigned(t.reserved);
    RawField(T.MAGIC);
    RawField(t.bodySha256);
    PackFour(S(4), U(4), U(4), U(4), Raw(T.MAGIC), Num(t.headerVersion), Num(t.bodySize), Num(|t.components|));
    PackFour(U(4), U(4), U(4), U(1), Num(metaSize), Num(t.minStub), Num(t.payloadVersion), Num(t.uartEn));
    PackFour(U(1), U(1), U(1), U(4), Num(t.uartId), Num(t.wdtEn), Num(t.wdtId), Num(t.baud));
    PackFour(U(4), U(8), U(8), U(8), Num(t.wdtTimeoutMs), Num(t.productId), Num(t.publishSeq), Num(t.reserved));
    PackSingle(S(32), Raw(t.bodySha256));
    var v1 := [Raw(T.MAGIC), Num(t.headerVersion), Num(t.bodySize), Num(|t.components|)];
    var v2 := [Num(metaSize), Num(t.minStub), Num(t.payloadVersion), Num(t.uartEn)];
    var v3 := [Num(t.uartId), Num(t.wdtEn), Num(t.wdtId), Num(t.baud)];
    var v4 := [Num(t.wdtTimeoutMs), Num(t.productId), Num(t.publishSeq), Num(t.reserved)];
    PackParts(T.FRAMING, v1, T.VERSIONS, v2);
    PackParts(T.FRAMING + T.VERSIONS, v1 + v2, T.STUB, v3);
    PackParts(T.FRAMING + T.VERSIONS + T.STUB, v1 + v2 + v3, T.IDENTITY, v4);
    PackParts(T.FRAMING + T.VERSIONS + T.STUB + T.IDENTITY, v1 + v2 + v3 + v4, T.DIGEST, [Raw(t.bodySha256)]);
    assert T.HeaderVals(t, metaSize) == v1 + v2 + v3 + v4 + [Raw(t.bodySha256)];
  }

  /** What can be written as a trailer with these meta bytes. */
  predicate TrailerOk(t: T.Trailer, meta: bytes) {
    && HeaderOk(t, |meta|) && |t.components| <= 16 && |t.certificate| == 160
    && Cert.ParseCertificate(t.certificate).Success?
    && (forall i | 0 <= i < |t.components| :: ComponentOk(t.components[i])) && |t.signature| == 64
  }

  /** Header, components, certificate, meta, signature. */
  function TrailerBody(t: T.Trailer, meta: bytes): bytes
    requires TrailerOk(t, meta)
  {
    TrailerHeader(t, |meta|) + ComponentsBytes(t.components) + t.certificate + meta + t.signature
  }

  lemma TrailerWrites(p: T.Codec, t: T.Trailer, meta: bytes)
    ensures T.PackWith(p, t, meta).Success? <==> TrailerOk(t, meta)
    ensures TrailerOk(t, meta) ==>
      var body := TrailerBody(t, meta);
      T.PackWith(p, t, meta) == Success(body + Word32(p.crc32(body) % 0x1_0000_0000))
  {
    hide FitAll, Pack, T.PackComponents, T.HeaderVals, HeaderOk, ComponentOk, TrailerHeader, ComponentsBytes,
      Cert.ParseCertificate, Le, Word32;
    ComponentsLaid(t.components);
    if FitAll(T.HEADER, T.HeaderVals(t, |meta|)) {
      HeaderFits(t, |meta|);
    }
    if HeaderOk(t, |meta|) {
      HeaderLaid(t, |meta|);
    }
    DigestOk(t, |meta|);
    if TrailerOk(t, meta) {
      LeIsWord32(p.crc32(TrailerBody(t, meta)) % 0x1_0000_0000);
    }
  }

  lemma DigestOk(t: T.Trailer, metaSize: nat)
    ensures HeaderOk(t, metaSize) ==> |t.bodySha256| == 32
  {
  }

  /** A trailer packs exactly when its fields are in range, its parts are of their sizes and it fits an
      erase block, to exactly these bytes. */
  lemma TrailerPacks(p: T.Codec, t: T.Trailer)
    ensures var meta := p.dumps(t.meta);
      && (T.PackTrailer(p, t).Success? <==>
            TrailerOk(t, meta) && 96 + 80 * |t.components| + 160 + |meta| + 64 + 4 <= 4096)
      && (T.PackTrailer(p, t).Success? ==>
            var body := TrailerBody(t, meta);
            T.PackTrailer(p, t) == Success(body + Word32(p.crc32(body) % 0x1_0000_0000)))
  {
    hide T.PackWith, TrailerOk, Word32, TrailerBody;
    var meta := p.dumps(t.meta);
    TrailerWrites(p, t, meta);
    if TrailerOk(t, meta) {
      TrailerSize(t, meta);
    }
  }

  lemma TrailerSize(t: T.Trailer, meta: bytes)
    requires TrailerOk(t, meta)
    ensures |TrailerBody(t, meta)| == 96 + 80 * |t.components| + 160 + |meta| + 64
  {
    hide Word32, Word64, ComponentOk;
    ComponentsSize(t.components);
  }

  lemma {:induction false} ComponentsSize(cs: seq<T.Component>)
    requires forall i | 0 <= i < |cs| :: ComponentOk(cs[i])
    ensures |ComponentsBytes(cs)| == 80 * |cs|
  {
    if cs != [] {
      ComponentsSize(cs[1..]);
    }
  }

  // ---- manifest ----

  function SignatureSize(alg: int): nat {
    if alg == -7 then 64 else if alg == -35 then 96 else 132
  }

  /** What can be written as a manifest with these body bytes; ES256, ES384 or ES512. */
  predicate ManifestOk(m: M.Manifest, body: bytes) {
    && (m.sigAlg == -7 || m.sigAlg == -35 || m.sigAlg == -36) && |m.signature| == SignatureSize(m.sigAlg)
    && Is32(m.headerVersion) && Is32(|body|)
    && |m.certificate| == 160 && Cert.ParseCertificate(m.certificate).Success?
  }

  /** "OMVM", version, body size, signature size, certificate size, algorithm. */
  function ManifestHeader(m: M.Manifest, bodySize: nat): bytes
    requires m.headerVersion >= 0 && -0x100 <= m.sigAlg < 0
  {
    [0x4F, 0x4D, 0x56, 0x4D] + Word32(m.headerVersion) + (Word32(bodySize) + Word32(SignatureSize(m.sigAlg)))
    + (Word32(160) + [0x100 + m.sigAlg, 0xFF, 0xFF, 0xFF])
  }

  lemma ManifestLaid(m: M.Manifest, bodySize: nat, sigSize: nat)
    requires -0x100 <= m.sigAlg < 0 && sigSize == SignatureSize(m.sigAlg)
    ensures FitAll(M.HEADER, M.HeaderVals(m, bodySize, sigSize)) <==> Is32(m.headerVersion) && Is32(bodySize)
    ensures Is32(m.headerVersion) && Is32(bodySize) ==>
      Pack(M.HEADER, M.HeaderVals(m, bodySize, sigSize)) == ManifestHeader(m, bodySize)
  {
    hide PackOne, Fits, Pack, Word32, CalcSize;
    Unsigned(m.headerVersion);
    Unsigned(bodySize);
    Unsigned(sigSize);
    Unsigned(160);
    Signed(m.sigAlg);
    RawField(M.MAGIC);
    var f, g := [S(4), U(4), U(4), U(4)], [U(4), I(4)];
    var v := [Raw(M.MAGIC), Num(m.headerVersion), Num(bodySize), Num(sigSize)];
    var w := [Num(160), Num(m.sigAlg)];
    assert M.HEADER == f + g && M.HeaderVals(m, bodySize, sigSize) == v + w;
    if FitAll(M.HEADER, M.HeaderVals(m, bodySize, sigSize)) {
      assert Fits(M.HEADER[1], (v + w)[1]) && Fits(M.HEADER[2], (v + w)[2]);
    }
    if Is32(m.headerVersion) && Is32(bodySize) {
      PackFour(S(4), U(4), U(4), U(4), Raw(M.MAGIC), Num(m.headerVersion), Num(bodySize), Num(sigSize));
      PackTwo(U(4), I(4), Num(160), Num(m.sigAlg));
      hide FitAll;
      PackParts(f, v, g, w);
    }
  }

  function ManifestBody(m: M.Manifest, body: bytes): bytes
    requires ManifestOk(m, body)
  {
    ManifestHeader(m, |body|) + m.certificate + body + m.signature
  }

  lemma ManifestWrites(p: T.Codec, m: M.Manifest, body: bytes)
    ensures M.PackWith(p, m, body).Success? <==> ManifestOk(m, body)
    ensures ManifestOk(m, body) ==>
      var all := ManifestBody(m, body);
      M.PackWith(p, m, body) == Success(all + Word32(p.crc32(all) % 0x1_0000_0000))
  {
    hide FitAll, Pack, M.HeaderVals, ManifestHeader, Cert.ParseCertificate, Le, Word32;
    if M.SigSize(m.sigAlg).Success? {
      ManifestLaid(m, |body|, M.SigSize(m.sigAlg).value);
    }
    if ManifestOk(m, body) {
      LeIsWord32(p.crc32(ManifestBody(m, body)) % 0x1_0000_0000);
    }
  }

  /** A manifest packs exactly when its fields are in range, its parts are of their sizes and it is
      within the limit, to exactly these bytes. */
  lemma ManifestPacks(p: T.Codec, m: M.Manifest)
    ensures var body := p.dumps(m.body);
      && (M.PackManifest(p, m).Success? <==>
            ManifestOk(m, body) && 24 + 160 + |body| + |m.signature| + 4 <= 8192)
      && (M.PackManifest(p, m).Success? ==>
            var all := ManifestBody(m, body);
            M.PackManifest(p, m) == Success(all + Word32(p.crc32(all) % 0x1_0000_0000)))
  {
    hide M.PackWith, Word32;
    ManifestWrites(p, m, p.dumps(m.body));
  }

  // ---- install record ----

  predicate EntryOk(e: R.Entry) {
    Is32(e.dest) && Is32(e.size) && |e.sha256| == 32
  }

  /** Destination, size, digest. */
  function EntryBytes(e: R.Entry): bytes
    requires EntryOk(e)
  {
    Word32(e.dest) + Word32(e.size) + e.sha256
  }

  function EntriesBytes(es: seq<R.Entry>): bytes
    requires forall i | 0 <= i < |es| :: EntryOk(es[i])
  {
    if es == [] then [] else
    assert EntryOk(es[0]);
    EntryBytes(es[0]) + EntriesBytes(es[1..])
  }

  lemma EntryLaid(e: R.Entry)
    ensures FitAll(R.ENTRY, R.EntryVals(e)) <==> EntryOk(e)
    ensures EntryOk(e) ==> Pack(R.ENTRY, R.EntryVals(e)) == EntryBytes(e)
  {
    hide PackOne, Fits, Pack, Word32, CalcSize;
    Unsigned(e.dest);
    Unsigned(e.size);
    RawFits(32, e.sha256);
    var v, w := [Num(e.dest), Num(e.size)], [Raw(e.sha256)];
    assert R.ENTRY == [U(4), U(4)] + [S(32)] && R.EntryVals(e) == v + w;
    if FitAll(R.ENTRY, R.EntryVals(e)) {
      assert Fits(R.ENTRY[0], (v + w)[0]) && Fits(R.ENTRY[1], (v + w)[1]) && Fits(R.ENTRY[2], (v + w)[2]);
    }
    if EntryOk(e) {
      RawField(e.sha256);
      PackTwo(U(4), U(4), Num(e.dest), Num(e.size));
      PackSingle(S(32), Raw(e.sha256));
      hide FitAll;
      PackParts([U(4), U(4)], v, [S(32)], w);
    }
  }

  lemma {:induction false} EntriesLaid(es: seq<R.Entry>)
    ensures R.PackEntries(es).Success? <==> forall i | 0 <= i < |es| :: EntryOk(es[i])
    ensures R.PackEntries(es).Success? ==> R.PackEntries(es) == Success(EntriesBytes(es))
  {
    hide FitAll, Pack, EntryOk, EntryBytes, R.EntryVals;
    if es != [] {
      EntryLaid(es[0]);
      EntriesLaid(es[1..]);
      assert forall i | 0 < i < |es| :: es[i] == es[1..][i - 1];
      assert (forall i | 0 <= i < |es| :: EntryOk(es[i]))
        <==> EntryOk(es[0]) && forall i | 0 <= i < |es[1..]| :: EntryOk(es[1..][i]);
    }
  }

  /** Slot 0 or 1, reason 0 to 3, at most sixteen components. */
  predicate RecordOk(r: R.InstallRecord, reserved: int) {
    && (r.slot == 0 || r.slot == 1) && 0 <= r.reason <= 3 && |r.components| <= 16
    && (forall i | 0 <= i < |r.components| :: EntryOk(r.components[i]))
    && Is32(r.recordVersion) && Is32(r.stubVersion) && Is64(reserved)
  }

  /** "OMVI", version, stub version, slot, number of components, reason, reserved; the entries. */
  function RecordBody(r: R.InstallRecord, reserved: int): bytes
    requires RecordOk(r, reserved)
  {
    [0x4F, 0x4D, 0x56, 0x49] + Word32(r.recordVersion) + (Word32(r.stubVersion) + Word32(r.slot))
    + (Word32(|r.components|) + Word32(r.reason)) + Word64(reserved) + EntriesBytes(r.components)
  }

  lemma RecordLaid(r: R.InstallRecord, reserved: int)
    requires (r.slot == 0 || r.slot == 1) && 0 <= r.reason <= 3 && |r.components| <= 16
    ensures FitAll(R.FIXED, R.FixedVals(r, reserved))
       <==> Is32(r.recordVersion) && Is32(r.stubVersion) && Is64(reserved)
    ensures Is32(r.recordVersion) && Is32(r.stubVersion) && Is64(reserved) ==>
      Pack(R.FIXED, R.FixedVals(r, reserved))
      == [0x4F, 0x4D, 0x56, 0x49] + Word32(r.recordVersion) + (Word32(r.stubVersion) + Word32(r.slot))
         + (Word32(|r.components|) + Word32(r.reason)) + Word64(reserved)
  {
    hide PackOne, Fits, Pack, Word32, Word64, CalcSize;
    Unsigned(r.recordVersion);
    Unsigned(r.stubVersion);
    Unsigned(r.slot);
    Unsigned(|r.components|);
    Unsigned(r.reason);
    Unsigned(reserved);
    RawField(R.MAGIC);
    var f, g, h := [S(4), U(4), U(4), U(4)], [U(4), U(4)], [U(8)];
    var v := [Raw(R.MAGIC), Num(r.recordVersion), Num(r.stubVersion), Num(r.slot)];
    var w, x := [Num(|r.components|), Num(r.reason)], [Num(reserved)];
    var all := v + w + x;
    assert R.FIXED == f + g + h && R.FixedVals(r, reserved) == all;
    if FitAll(R.FIXED, all) {
      assert Fits(R.FIXED[1], all[1]) && Fits(R.FIXED[2], all[2]) && Fits(R.FIXED[6], all[6]);
    }
    if Is32(r.recordVersion) && Is32(r.stubVersion) && Is64(reserved) {
      PackFour(S(4), U(4), U(4), U(4), Raw(R.MAGIC), Num(r.recordVersion), Num(r.stubVersion), Num(r.slot));
      PackTwo(U(4), U(4), Num(|r.components|), Num(r.reason));
      PackSingle(U(8), Num(reserved));
      hide FitAll;
      PackParts(f, v, g, w);
      PackParts(f + g, v + w, h, x);
    }
  }

  /** A record packs exactly when its fields are in range, to exactly these bytes. */
  lemma RecordWrites(p: T.Codec, r: R.InstallRecord, reserved: int)
    ensures R.PackWith(p, r, reserved).Success? <==> RecordOk(r, reserved)
    ensures RecordOk(r, reserved) ==>
      var body := RecordBody(r, reserved);
      R.PackWith(p, r, reserved) == Success(body + Word32(p.crc32(body) % 0x1_0000_0000))
  {
    hide FitAll, Pack, R.FixedVals, R.PackEntries, Le, Word32, Word64, EntriesBytes;
    EntriesLaid(r.components);
    if (r.slot == 0 || r.slot == 1) && 0 <= r.reason <= 3 && |r.components| <= 16 {
      RecordLaid(r, reserved);
    }
    assert (forall i | 0 <= i < |r.components| :: EntryOk(r.components[i])) ==>
      forall i | 0 <= i < |r.components| :: EntryOk(r.components[i]) && |r.components[i].sha256| == 32;
    if RecordOk(r, reserved) {
      LeIsWord32(p.crc32(RecordBody(r, reserved)) % 0x1_0000_0000);
    }
  }
}
