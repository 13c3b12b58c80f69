/**
  Whether an image is genuine and intact (src/openmv_ota/ota/verify.py:30-61), by way of its
  certificate (src/openmv_ota/ota/certificate.py:160-192), its trailer and its components.
 */
module VerifyImage {
  import opened Wrappers
  import opened Bytes
  import Struct
  import Cert = Certificate
  import opened Trailer
  import opened TrailerTheorems
  import opened Components

  // ---- certificates ----

  /** What a verifier takes: release certificates, issuers', or desks'. */
  datatype Purpose = Images | Issuers | Desks {
    predicate Takes(kind: int) {
      match this
      case Images => kind == Cert.KIND_OTA || kind == Cert.KIND_FACTORY
      case Issuers => kind == Cert.KIND_ISSUER
      case Desks => kind == Cert.KIND_DESK
    }
  }

  function VerifyRegion(p: Prims, pubkey: bytes, region: bytes, signature: bytes): bool {
    |signature| == Cert.SIG_SIZE && p.verify(pubkey, region, signature)
  }

  function VerifyCertificate(p: Prims, data: bytes, roots: map<int, bytes>, purpose: Purpose)
    : (r: Result<Cert.Certificate, Error>)
    ensures r.Success? ==> |data| >= Cert.SIZE
  {
    var c :- Cert.ParseCertificate(data);
    if c.rootId !in roots then Failure(Cert.UnknownRoot) else
    var region :- Cert.SignedRegion(data);
    if !VerifyRegion(p, roots[c.rootId], region, c.signature) then Failure(Cert.BadSignature)
    else if !purpose.Takes(c.kind) then Failure(Cert.KindRefused)
    else Success(c)
  }

  /** The certificate is accepted exactly when its root is a trusted one, that root's signature over
      its first 96 bytes verifies, and it is of a kind the verifier takes. */
  lemma VerifiedCertificate(p: Prims, data: bytes, roots: map<int, bytes>, purpose: Purpose, c: Cert.Certificate)
    ensures VerifyCertificate(p, data, roots, purpose) == Success(c) <==>
      && Cert.ParseCertificate(data) == Success(c) && c.rootId in roots
      && |c.signature| == 64 && p.verify(roots[c.rootId], data[..96], c.signature)
      && Taken(purpose, c.kind)
  {
    hide Cert.ParseCertificate;
  }

  /** Kinds by number: 0 for updates, 1 for the factory, 2 for an issuer, 3 for a desk. */
  ghost predicate Taken(purpose: Purpose, kind: int) {
    if purpose == Images then kind == 0 || kind == 1 else kind == if purpose == Issuers then 2 else 3
  }

  /** A desk's chain of trust: root, issuer, desk. */
  function VerifyDesk(p: Prims, desk: bytes, issuer: bytes, roots: map<int, bytes>)
    : Result<(Cert.Certificate, Cert.Certificate), Error>
  {
    var i :- VerifyCertificate(p, issuer, roots, Issuers);
    var d :- Cert.ParseCertificate(desk);
    if d.rootId != i.rootId then Failure(Cert.WrongRoot) else
    var d' :- VerifyCertificate(p, desk, map[i.rootId := i.pubkey], Desks);
    Success((d', i))
  }

  /** A desk chain is accepted exactly when a trusted root signed an issuer's certificate, that issuer
      a desk's, and both name the same root. */
  lemma VerifiedDesk(p: Prims, desk: bytes, issuer: bytes, roots: map<int, bytes>, d: Cert.Certificate,
                     i: Cert.Certificate)
    ensures VerifyDesk(p, desk, issuer, roots) == Success((d, i)) <==>
      && Cert.ParseCertificate(desk) == Success(d) && Cert.ParseCertificate(issuer) == Success(i)
      && d.kind == 3 && i.kind == 2 && d.rootId == i.rootId && i.rootId in roots
      && |i.signature| == 64 && p.verify(roots[i.rootId], issuer[..96], i.signature)
      && |d.signature| == 64 && p.verify(i.pubkey, desk[..96], d.signature)
  {
    hide VerifyCertificate, Cert.ParseCertificate;
    VerifiedCertificate(p, issuer, roots, Issuers, i);
    VerifiedCertificate(p, desk, map[i.rootId := i.pubkey], Desks, d);
    VerifiedSizes(p, issuer, roots, Issuers);
    VerifiedSizes(p, desk, map[i.rootId := i.pubkey], Desks);
  }

  lemma VerifiedSizes(p: Prims, data: bytes, roots: map<int, bytes>, purpose: Purpose)
    ensures VerifyCertificate(p, data, roots, purpose).Success? ==>
      Cert.ParseCertificate(data) == VerifyCertificate(p, data, roots, purpose)
  {
    hide Cert.ParseCertificate;
  }

  /** No certificate in an accepted desk chain is accepted for a release, whatever the roots. */
  lemma DeskChainSignsNoImage(p: Prims, desk: bytes, issuer: bytes, roots: map<int, bytes>, others: map<int, bytes>)
    requires VerifyDesk(p, desk, issuer, roots).Success?
    ensures VerifyCertificate(p, desk, others, Images).Failure?
    ensures VerifyCertificate(p, issuer, others, Images).Failure?
  {
    hide Cert.ParseCertificate, Cert.SignedRegion, VerifyRegion;
  }

  // ---- images ----

  lemma Parsed(p: Codec, data: bytes)
    requires ParseTrailer(p, data).Success?
    ensures Framing(data).Success? && Listable(ParseTrailer(p, data).value.components)
    ensures ParseTrailer(p, data).value.bodySize >= 0
  {
    ParsedParts(p, data);
    var f, v := Framing(data).value, HeaderOf(data);
    Kinds(v);
    assert Struct.Fits(HEADER[2], v[2]);
    hide Framing, HeaderOf, ParseTrailer, Struct.FitAll;
    ReadListable(data, HEADER_SIZE, f.compCount);
  }

  lemma {:induction false} ReadListable(data: bytes, off: nat, n: nat)
    requires off + n * COMPONENT_SIZE <= |data|
    ensures Listable(ParseComponents(data, off, n))
    decreases n
  {
    if n > 0 {
      OneListable(data, off);
      ReadListable(data, off + COMPONENT_SIZE, n - 1);
      hide ReadComponent;
      var rest := ParseComponents(data, off + COMPONENT_SIZE, n - 1);
      assert forall i | 0 < i < n :: ([ReadComponent(data, off)] + rest)[i] == rest[i - 1];
    }
  }

  lemma OneListable(data: bytes, off: nat)
    requires off + COMPONENT_SIZE <= |data|
    ensures ReadComponent(data, off).offset >= 0 && ReadComponent(data, off).size >= 0
  {
    Sizes();
    Struct.UnpackedFit(COMPONENT, data, off);
    var v := Struct.Unpack(COMPONENT, data, off);
    assert Struct.Fits(COMPONENT[1], v[1]) && Struct.Fits(COMPONENT[2], v[2]);
    hide Struct.Unpack, Struct.CalcSize;
  }

  /** Two signatures, the body's digest, and the components: an error, or the certificate. */
  function VerifyImage(p: Prims, body: bytes, trailerBytes: bytes, roots: map<int, bytes>)
    : Result<Cert.Certificate, Error>
  {
    var t :- ParseTrailer(p.codec, trailerBytes);
    Parsed(p.codec, trailerBytes);
    var cert :- VerifyCertificate(p, t.certificate, roots, Images);
    var region :- SignedRegion(trailerBytes);
    if !VerifyRegion(p, cert.pubkey, region, t.signature) then Failure(Cert.BadSignature)
    else if |body| < t.bodySize then Failure(Cert.Truncated)
    else if p.sha256(body[..t.bodySize]) != t.bodySha256 then Failure(Cert.BadBody)
    else match CheckAll(p, body, t.components)
      case Some(e) => Failure(e)
      case None => Success(cert)
  }

  /** The body carries the compressed blob that `c` lists, and it installs what `c` says. */
  ghost predicate Carried(p: Prims, body: bytes, c: Component) {
    && 0 <= c.offset && 0 <= c.size && c.offset + c.size <= |body|
    && var blob := body[c.offset..c.offset + c.size];
       && p.sha256(blob) == c.sha256 && p.decompress(blob).Some?
       && |p.decompress(blob).value| == c.installedSize && p.sha256(p.decompress(blob).value) == c.installedSha256
  }

  /** An image is accepted exactly when its trailer parses, the certificate in it verifies, the
      certified key's signature over the signed region does, and the body is the one described. */
  lemma VerifiedImage(p: Prims, body: bytes, data: bytes, roots: map<int, bytes>, cert: Cert.Certificate)
    ensures VerifyImage(p, body, data, roots) == Success(cert) <==>
      && ParseTrailer(p.codec, data).Success? && SignedRegion(data).Success?
      && var t := ParseTrailer(p.codec, data).value;
         && VerifyCertificate(p, t.certificate, roots, Images) == Success(cert)
         && |t.signature| == 64 && p.verify(cert.pubkey, SignedRegion(data).value, t.signature)
         && 0 <= t.bodySize <= |body| && p.sha256(body[..t.bodySize]) == t.bodySha256
         && forall i | 0 <= i < |t.components| :: Carried(p, body, t.components[i])
  {
    hide ParseTrailer, SignedRegion, VerifyCertificate, CheckAll;
    if ParseTrailer(p.codec, data).Success? {
      Parsed(p.codec, data);
      CarriedAll(p, body, ParseTrailer(p.codec, data).value.components);
    }
  }

  lemma CarriedAll(p: Prims, body: bytes, cs: seq<Component>)
    requires Listable(cs)
    ensures CheckAll(p, body, cs).None? <==> forall i | 0 <= i < |cs| :: Carried(p, body, cs[i])
  {
    forall i | 0 <= i < |cs|
      ensures CheckOne(p, body, cs[i]).None? <==> Carried(p, body, cs[i])
    {
    }
  }

  /** An image built the way the build does it is accepted: any filesystem and blobs laid out by
      `append`, any padding, a packed certificate of an update or factory key that a trusted root
      signed, and a packed trailer that lists the blobs, signed by that key. */
  lemma BuiltImageVerifies(p: Prims, fs: bytes, blobs: seq<Blob>, image: bytes, padding: bytes, t: Trailer,
                           trailing: bytes, roots: map<int, bytes>, cert: Cert.Certificate)
    requires Sound(p.codec) && Lossless(p) && PackTrailer(p.codec, t).Success?
    requires LaidOut(p, fs, blobs, image, t.components)
    requires t.headerVersion == 4 && t.bodySize == |fs| && t.bodySha256 == p.sha256(fs)
    requires Cert.PackCertificate(cert) == Success(t.certificate) && (cert.kind == 0 || cert.kind == 1)
    requires cert.rootId in roots && p.verify(roots[cert.rootId], Cert.BuildRegion(cert).value, cert.signature)
    requires p.verify(cert.pubkey, BuildRegion(p.codec, t).value, t.signature)
    ensures VerifyImage(p, image + padding, PackTrailer(p.codec, t).value + trailing, roots) == Success(cert)
  {
    hide PackTrailer, BuildRegion, ParseTrailer, VerifyCertificate, CheckAll, SignedRegion, LaidOut,
      Cert.PackCertificate, Cert.BuildRegion, Cert.ParseCertificate;
    TrailerRoundTrip(p.codec, t, trailing);
    LayoutMeaning(p, fs, blobs, image, t.components);
    LaidOutChecks(p, fs, blobs, image, t.components, padding);
    BodyPrefix(p, fs, blobs, image, t.components, padding);
    PackedRegion(p.codec, t);
    Cert.CertificateRoundTrip(cert, []);
    assert t.certificate + [] == t.certificate;
    PackedSignature(cert);
    VerifiedCertificate(p, t.certificate, roots, Images, cert);
  }

  lemma PackedSignature(c: Cert.Certificate)
    requires Cert.PackCertificate(c).Success?
    ensures |c.signature| == 64
  {
    hide Cert.BuildRegion;
  }

  lemma PackedRegion(p: Codec, t: Trailer)
    requires PackTrailer(p, t).Success?
    ensures BuildRegion(p, t).Success? && |t.signature| == 64
  {
    hide RegionWith;
  }

  lemma BodyPrefix(p: Prims, fs: bytes, blobs: seq<Blob>, image: bytes, comps: seq<Component>, padding: bytes)
    requires Sits(p, fs, blobs, image, comps)
    ensures |fs| <= |image + padding| && (image + padding)[..|fs|] == fs
  {
  }

  // ---- integrity ----

  /** Equal digests: the same bytes, or a collision of SHA-256. */
  predicate SameDigest(p: Prims, a: bytes, b: bytes) {
    p.sha256(a) == p.sha256(b)
  }

  /** The compressed bytes a component names. */
  function BlobBytes(body: bytes, c: Component): bytes
    requires 0 <= c.offset && 0 <= c.size && c.offset + c.size <= |body|
  {
    body[c.offset..c.offset + c.size]
  }

  lemma Accepted(p: Prims, body: bytes, trailerBytes: bytes, roots: map<int, bytes>)
    requires VerifyImage(p, body, trailerBytes, roots).Success?
    ensures ParseTrailer(p.codec, trailerBytes).Success? && SignedRegion(trailerBytes).Success?
    ensures var t := ParseTrailer(p.codec, trailerBytes).value;
      && 0 <= t.bodySize <= |body| && p.sha256(body[..t.bodySize]) == t.bodySha256
      && Listable(t.components) && CheckAll(p, body, t.components).None?
  {
    Parsed(p.codec, trailerBytes);
    hide ParseTrailer, VerifyCertificate, CheckAll, VerifyRegion, Listable;
  }

  lemma CheckedBlob(p: Prims, body: bytes, cs: seq<Component>, i: nat)
    requires Listable(cs) && CheckAll(p, body, cs).None? && i < |cs|
    ensures 0 <= cs[i].offset && 0 <= cs[i].size && cs[i].offset + cs[i].size <= |body|
    ensures p.sha256(BlobBytes(body, cs[i])) == cs[i].sha256
    ensures p.decompress(BlobBytes(body, cs[i])).Some?
    ensures p.sha256(p.decompress(BlobBytes(body, cs[i])).value) == cs[i].installedSha256
    ensures |p.decompress(BlobBytes(body, cs[i])).value| == cs[i].installedSize
  {
    assert CheckOne(p, body, cs[i]).None?;
  }

  /** Both bodies carry the blob `c` lists, and install bytes of one size and digest. */
  ghost predicate SameBlob(p: Prims, c: Component, body: bytes, body': bytes) {
    && 0 <= c.offset && 0 <= c.size && c.offset + c.size <= |body| && c.offset + c.size <= |body'|
    && var a, b := p.decompress(BlobBytes(body, c)), p.decompress(BlobBytes(body', c));
       a.Some? && b.Some? && |a.value| == |b.value| == c.installedSize && SameDigest(p, a.value, b.value)
  }

  /** Both bodies are the image `t` describes, by digest: the filesystem, and blob by blob. */
  ghost predicate SameImage(p: Prims, t: Trailer, body: bytes, body': bytes) {
    && 0 <= t.bodySize <= |body| && t.bodySize <= |body'|
    && SameDigest(p, body[..t.bodySize], body'[..t.bodySize])
    && forall i | 0 <= i < |t.components| :: SameBlob(p, t.components[i], body, body')
  }

  /** What the signature protects: two images accepted with one signed region are described alike,
      and have filesystems, and bytes to install at each address, of the same digest. */
  lemma SignedRegionFixesImage(p: Prims, body: bytes, data: bytes, roots: map<int, bytes>, body': bytes, data': bytes,
                               roots': map<int, bytes>)
    requires VerifyImage(p, body, data, roots).Success? && VerifyImage(p, body', data', roots').Success?
    requires SignedRegion(data) == SignedRegion(data')
    ensures ParseTrailer(p.codec, data).Success? && ParseTrailer(p.codec, data').Success?
    ensures var t, t' := ParseTrailer(p.codec, data).value, ParseTrailer(p.codec, data').value;
      t'.(signature := t.signature) == t && SameImage(p, t, body, body')
  {
    hide ParseTrailer, SignedRegion, CheckAll, Listable;
    Accepted(p, body, data, roots);
    Accepted(p, body', data', roots');
    hide VerifyImage;
    SameRegionSameTrailer(p.codec, data, data');
    var t := ParseTrailer(p.codec, data).value;
    forall i | 0 <= i < |t.components|
      ensures SameBlob(p, t.components[i], body, body')
    {
      CheckedBlob(p, body, t.components, i);
      CheckedBlob(p, body', t.components, i);
    }
  }

  // ---- authenticity ----

  /** Every message any private key has signed, by public key. */
  type Signed = iset<(bytes, bytes)>

  /** If this signature verifies, the key it verifies under made it. Nothing is asked of others. */
  ghost predicate Genuine(p: Prims, signed: Signed, key: bytes, region: bytes, signature: bytes) {
    VerifyRegion(p, key, region, signature) ==> (key, region) in signed
  }

  /** The signature a certificate presents, under the root it names. */
  ghost predicate GenuineCertificate(p: Prims, signed: Signed, data: bytes, roots: map<int, bytes>) {
    Cert.ParseCertificate(data).Success? && Cert.SignedRegion(data).Success? ==>
      var c := Cert.ParseCertificate(data).value;
      c.rootId in roots ==> Genuine(p, signed, roots[c.rootId], Cert.SignedRegion(data).value, c.signature)
  }

  /** The two signatures an image presents. */
  ghost predicate GenuineTrailer(p: Prims, signed: Signed, data: bytes, roots: map<int, bytes>) {
    ParseTrailer(p.codec, data).Success? && SignedRegion(data).Success? ==>
      var t := ParseTrailer(p.codec, data).value;
      && GenuineCertificate(p, signed, t.certificate, roots)
      && (Cert.ParseCertificate(t.certificate).Success? ==>
            Genuine(p, signed, Cert.ParseCertificate(t.certificate).value.pubkey, SignedRegion(data).value,
                    t.signature))
  }

  /** An accepted desk chain carries a trusted root's signature over the issuer's certificate, and
      the issuer's over the desk's, which names the same root. */
  lemma DeskChainIsSigned(p: Prims, signed: Signed, desk: bytes, issuer: bytes, roots: map<int, bytes>,
                          d: Cert.Certificate, i: Cert.Certificate)
    requires VerifyDesk(p, desk, issuer, roots) == Success((d, i))
    requires GenuineCertificate(p, signed, issuer, roots)
    requires GenuineCertificate(p, signed, desk, map[i.rootId := i.pubkey])
    ensures Cert.ParseCertificate(desk) == Success(d) && Cert.ParseCertificate(issuer) == Success(i)
    ensures d.kind == Cert.KIND_DESK && i.kind == Cert.KIND_ISSUER && d.rootId == i.rootId && i.rootId in roots
    ensures Cert.SignedRegion(issuer).Success? && (roots[i.rootId], Cert.SignedRegion(issuer).value) in signed
    ensures Cert.SignedRegion(desk).Success? && (i.pubkey, Cert.SignedRegion(desk).value) in signed
  {
    hide Cert.ParseCertificate, Cert.SignedRegion, VerifyRegion;
  }

  datatype Release = Release(body: bytes, trailerBytes: bytes)

  /** The key has signed nothing but the trailers of releases, each a genuine image. */
  ghost predicate SignsOnlyReleases(p: Prims, signed: Signed, key: bytes, releases: iset<Release>,
                                    roots: map<int, bytes>)
  {
    forall region | (key, region) in signed :: exists r :: r in releases && IsReleaseOf(p, r, region, roots)
  }

  ghost predicate IsReleaseOf(p: Prims, r: Release, region: bytes, roots: map<int, bytes>) {
    SignedRegion(r.trailerBytes) == Success(region) && VerifyImage(p, r.body, r.trailerBytes, roots).Success?
  }

  /** An accepted image whose two signatures are genuine was certified and signed: a trusted root
      signed the certificate of a release key, and that key the trailer. */
  lemma AcceptedIsSigned(p: Prims, signed: Signed, body: bytes, data: bytes, roots: map<int, bytes>,
                         cert: Cert.Certificate)
    requires GenuineTrailer(p, signed, data, roots) && VerifyImage(p, body, data, roots) == Success(cert)
    ensures ParseTrailer(p.codec, data).Success? && SignedRegion(data).Success?
    ensures var t := ParseTrailer(p.codec, data).value;
      && Cert.ParseCertificate(t.certificate) == Success(cert) && Cert.SignedRegion(t.certificate).Success?
      && cert.rootId in roots && (roots[cert.rootId], Cert.SignedRegion(t.certificate).value) in signed
    ensures cert.kind == Cert.KIND_OTA || cert.kind == Cert.KIND_FACTORY
    ensures (cert.pubkey, SignedRegion(data).value) in signed
  {
    hide ParseTrailer, SignedRegion, CheckAll, Listable, Cert.ParseCertificate, Cert.SignedRegion, VerifyRegion;
  }

  /** Authenticity: under a key that signs only releases, every accepted image is one of them, by the
      digests of its filesystem and of all it installs. */
  lemma AcceptedIsReleased(p: Prims, signed: Signed, releases: iset<Release>, body: bytes, data: bytes,
                           roots: map<int, bytes>, cert: Cert.Certificate) returns (r: Release)
    requires GenuineTrailer(p, signed, data, roots) && VerifyImage(p, body, data, roots) == Success(cert)
    requires SignsOnlyReleases(p, signed, cert.pubkey, releases, roots)
    ensures r in releases && ParseTrailer(p.codec, data).Success? && ParseTrailer(p.codec, r.trailerBytes).Success?
    ensures var t, t' := ParseTrailer(p.codec, data).value, ParseTrailer(p.codec, r.trailerBytes).value;
      t'.(signature := t.signature) == t && SameImage(p, t, body, r.body)
  {
    hide VerifyImage, GenuineTrailer, ParseTrailer, SignedRegion, SameImage;
    AcceptedIsSigned(p, signed, body, data, roots, cert);
    r :| r in releases && IsReleaseOf(p, r, SignedRegion(data).value, roots);
    SignedRegionFixesImage(p, body, data, roots, r.body, r.trailerBytes, roots);
  }
}
