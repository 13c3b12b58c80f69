/** The blobs after the filesystem: how they are laid out and checked (src/openmv_ota/ota/components.py). */
module Components {
  import opened Wrappers
  import opened Bytes
  import Cert = Certificate
  import opened Trailer

  const BLOB_ALIGN := 16
  const PAD: byte := 0xFF

  /** SHA-256, raw LZMA and ECDSA verification, beside the trailer's codec. */
  datatype Prims = Prims(
    codec: Codec,
    sha256: bytes -> bytes,
    compress: bytes -> bytes,
    decompress: bytes -> Option<bytes>,
    verify: (bytes, bytes, bytes) -> bool)

  ghost predicate Lossless(p: Prims) {
    forall data :: p.decompress(p.compress(data)) == Some(data)
  }

  /** The bytes to install at an address. */
  datatype Blob = Blob(dest: int, data: bytes)

  function Align(n: nat): (m: nat)
    ensures n <= m < n + BLOB_ALIGN && m % BLOB_ALIGN == 0
  {
    if n % BLOB_ALIGN == 0 then n else n + (BLOB_ALIGN - n % BLOB_ALIGN)
  }

  // ---- laying out ----

  /** `c` describes `blob`, compressed and put at `offset`. */
  predicate Describes(p: Prims, blob: Blob, offset: nat, c: Component) {
    c == Component(blob.dest, offset, |p.compress(blob.data)|, |blob.data|, p.sha256(p.compress(blob.data)),
                   p.sha256(blob.data))
  }

  /** `n` pad bytes. */
  function Padding(n: nat): (r: bytes)
    ensures |r| == n
  {
    seq<byte>(n, _ => PAD)
  }

  /** `image` is `body` and then each blob, padded to the next boundary; `comps` describe them. */
  ghost predicate LaidOut(p: Prims, body: bytes, blobs: seq<Blob>, image: bytes, comps: seq<Component>) {
    |comps| == |blobs| &&
    if blobs == [] then image == body
    else
      var n := |blobs| - 1;
      exists before :: LaidOut(p, body, blobs[..n], before, comps[..n]) && Placed(p, before, blobs[n], image, comps[n])
  }

  predicate Placed(p: Prims, before: bytes, blob: Blob, image: bytes, c: Component) {
    && Describes(p, blob, Align(|before|), c)
    && image == before + Padding(Align(|before|) - |before|) + p.compress(blob.data)
  }

  method Append(p: Prims, body: bytes, blobs: seq<Blob>) returns (image: bytes, comps: seq<Component>)
    ensures LaidOut(p, body, blobs, image, comps)
  {
    image, comps := body, [];
    assert blobs[..0] == [];
    for i := 0 to |blobs|
      invariant LaidOut(p, body, blobs[..i], image, comps)
    {
      var Blob(dest, data) := blobs[i];
      ghost var before, described := image, comps;
      var blob := p.compress(data);
      if |image| % BLOB_ALIGN != 0 {
        image := image + Padding(BLOB_ALIGN - |image| % BLOB_ALIGN);
      }
      comps := comps + [Component(dest, |image|, |blob|, |data|, p.sha256(blob), p.sha256(data))];
      assert image == before + Padding(Align(|before|) - |before|);
      image := image + blob;
      assert blobs[..i + 1][..i] == blobs[..i] && comps[..i] == described;
      assert Placed(p, before, blobs[i], image, comps[i]);
    }
    assert blobs[..|blobs|] == blobs;
  }

  /** Where what is before the `i`th blob ends. */
  function EndOf(body: bytes, comps: seq<Component>, i: nat): int
    requires i <= |comps|
  {
    if i == 0 then |body| else comps[i - 1].offset + comps[i - 1].size
  }

  /** Fewer than sixteen bytes, all 0xFF. */
  predicate IsGap(image: bytes, from: int, to: int) {
    0 <= from <= to < from + 16 && to <= |image| && forall k | from <= k < to :: image[k] == 0xFF
  }

  /** The body stays a prefix; the blobs sit at ascending, aligned offsets, none over another or the
      body; each is in the image where, and as, its component says; and there is nothing else but short gaps
      of 0xFF before them. */
  ghost predicate Sits(p: Prims, body: bytes, blobs: seq<Blob>, image: bytes, comps: seq<Component>) {
    && |comps| == |blobs| && body <= image && |image| == EndOf(body, comps, |comps|)
    && (forall i: nat | i < |comps| :: SitsAt(p, body, blobs, image, comps, i))
    && forall i, j | 0 <= i < j < |comps| :: comps[i].offset + comps[i].size <= comps[j].offset
  }

  ghost predicate SitsAt(p: Prims, body: bytes, blobs: seq<Blob>, image: bytes, comps: seq<Component>, i: nat)
    requires i < |comps| == |blobs|
  {
    && InPlace(p, blobs[i], image, comps[i])
    && |body| <= comps[i].offset && comps[i].offset % 16 == 0
    && IsGap(image, EndOf(body, comps, i), comps[i].offset)
  }

  lemma SitsAtMore(p: Prims, body: bytes, blobs: seq<Blob>, blob: Blob, image: bytes, more: bytes,
                   comps: seq<Component>, c: Component, i: nat)
    requires i < |comps| == |blobs| && SitsAt(p, body, blobs, image, comps, i)
    ensures SitsAt(p, body, blobs + [blob], image + more, comps + [c], i)
    ensures comps[i].offset + comps[i].size <= |image|
  {
    hide InPlace, IsGap;
    GapMore(image, EndOf(body, comps, i), comps[i].offset, more);
    InPlaceMore(p, blobs[i], image, comps[i], more);
    InPlaceEnds(p, blobs[i], image, comps[i]);
  }

  lemma SitsMore(p: Prims, body: bytes, blobs: seq<Blob>, blob: Blob, before: bytes, image: bytes,
                 comps: seq<Component>, c: Component)
    requires Sits(p, body, blobs, before, comps) && Placed(p, before, blob, image, c)
    ensures Sits(p, body, blobs + [blob], image, comps + [c])
  {
    hide InPlace, Placed, Align, IsGap;
    PlacedThere(p, before, blob, image, c);
    var n, more := |comps|, image[|before|..];
    assert image == before + more;
    assert SitsAt(p, body, blobs + [blob], image, comps + [c], n);
    hide SitsAt;
    forall i: nat | i < n
      ensures SitsAt(p, body, blobs + [blob], image, comps + [c], i) && comps[i].offset + comps[i].size <= |before|
    {
      SitsAtMore(p, body, blobs, blob, before, more, comps, c, i);
    }
  }

  lemma SitsNone(p: Prims, body: bytes)
    ensures Sits(p, body, [], body, [])
  {
  }

  lemma GapMore(image: bytes, from: int, to: int, more: bytes)
    requires IsGap(image, from, to)
    ensures IsGap(image + more, from, to)
  {
  }

  lemma InPlaceEnds(p: Prims, blob: Blob, image: bytes, c: Component)
    requires InPlace(p, blob, image, c)
    ensures c.offset + c.size <= |image|
  {
  }

  lemma {:induction false} LayoutMeaning(p: Prims, body: bytes, blobs: seq<Blob>, image: bytes, comps: seq<Component>)
    requires LaidOut(p, body, blobs, image, comps)
    ensures Sits(p, body, blobs, image, comps)
    decreases |blobs|
  {
    hide Placed, Sits;
    if blobs == [] {
      SitsNone(p, body);
    } else {
      var n := |blobs| - 1;
      var before :| LaidOut(p, body, blobs[..n], before, comps[..n]) && Placed(p, before, blobs[n], image, comps[n]);
      LayoutMeaning(p, body, blobs[..n], before, comps[..n]);
      SitsMore(p, body, blobs[..n], blobs[n], before, image, comps[..n], comps[n]);
      assert blobs == blobs[..n] + [blobs[n]] && comps == comps[..n] + [comps[n]];
    }
  }

  /** The blob's compressed bytes are in the image where its component says. */
  predicate InPlace(p: Prims, blob: Blob, image: bytes, c: Component) {
    && 0 <= c.offset && 0 <= c.size && c.offset + c.size <= |image| && Describes(p, blob, c.offset, c)
    && image[c.offset..c.offset + c.size] == p.compress(blob.data)
  }

  lemma InPlaceMore(p: Prims, blob: Blob, image: bytes, c: Component, more: bytes)
    requires InPlace(p, blob, image, c)
    ensures InPlace(p, blob, image + more, c)
  {
    assert (image + more)[c.offset..c.offset + c.size] == image[c.offset..c.offset + c.size];
  }

  lemma PlacedThere(p: Prims, before: bytes, blob: Blob, image: bytes, c: Component)
    requires Placed(p, before, blob, image, c)
    ensures InPlace(p, blob, image, c) && before <= image && |before| <= c.offset && c.offset % 16 == 0
    ensures IsGap(image, |before|, c.offset) && |image| == c.offset + c.size
  {
  }

  // ---- checking ----

  /** Why the image does not carry `c` as listed, if it does not. */
  function CheckOne(p: Prims, image: bytes, c: Component): Option<Error>
    requires 0 <= c.offset && 0 <= c.size
  {
    if c.offset + c.size > |image| then Some(Cert.Truncated)
    else
      var blob := image[c.offset..c.offset + c.size];
      if p.sha256(blob) != c.sha256 then Some(Cert.BadHash)
      else match p.decompress(blob)
        case None => Some(Cert.BadComponent)
        case Some(data) =>
          if |data| != c.installedSize then Some(Cert.BadComponent)
          else if p.sha256(data) != c.installedSha256 then Some(Cert.BadHash)
          else None
  }

  /** A component as a trailer can list it. */
  predicate Listable(cs: seq<Component>) {
    forall i | 0 <= i < |cs| :: 0 <= cs[i].offset && 0 <= cs[i].size
  }

  function CheckAll(p: Prims, image: bytes, cs: seq<Component>): (r: Option<Error>)
    requires Listable(cs)
    ensures r.None? <==> forall i | 0 <= i < |cs| :: CheckOne(p, image, cs[i]).None?
  {
    if cs == [] then None
    else
      var first := CheckOne(p, image, cs[0]);
      if first.Some? then first else
      assert forall i | 0 < i < |cs| :: cs[i] == cs[1..][i - 1];
      CheckAll(p, image, cs[1..])
  }

  method Check(p: Prims, image: bytes, cs: seq<Component>) returns (r: Option<Error>)
    requires Listable(cs)
    ensures r == CheckAll(p, image, cs)
  {
    hide CheckOne;
    assert cs[0..] == cs;
    for i := 0 to |cs|
      invariant CheckAll(p, image, cs) == CheckAll(p, image, cs[i..])
    {
      r := CheckOne(p, image, cs[i]);
      if r.Some? {
        return;
      }
      assert cs[i..][1..] == cs[i + 1..];
    }
    return None;
  }

  /** What was laid out checks, with any padding after it. */
  lemma LaidOutChecks(p: Prims, body: bytes, blobs: seq<Blob>, image: bytes, comps: seq<Component>, padding: bytes)
    requires Lossless(p) && LaidOut(p, body, blobs, image, comps)
    ensures Listable(comps) && CheckAll(p, image + padding, comps) == None
  {
    LayoutMeaning(p, body, blobs, image, comps);
    hide LaidOut, InPlace, CheckOne;
    forall i | 0 <= i < |comps|
      ensures 0 <= comps[i].offset && 0 <= comps[i].size && CheckOne(p, image + padding, comps[i]).None?
    {
      assert SitsAt(p, body, blobs, image, comps, i);
      InPlaceMore(p, blobs[i], image, comps[i], padding);
      InPlaceChecks(p, blobs[i], image + padding, comps[i]);
    }
  }

  lemma InPlaceChecks(p: Prims, blob: Blob, image: bytes, c: Component)
    requires Lossless(p) && InPlace(p, blob, image, c)
    ensures 0 <= c.offset && 0 <= c.size && CheckOne(p, image, c) == None
  {
    assert p.decompress(p.compress(blob.data)) == Some(blob.data);
  }
}
