/** Byte strings, as the codecs read and write them. */
module Bytes {

  type byte = x: int | 0 <= x < 256

  type bytes = seq<byte>

  /** `part` is in `buf` at `pos`. */
  ghost predicate At(buf: bytes, pos: nat, part: bytes) {
    pos + |part| <= |buf| && buf[pos..pos + |part|] == part
  }

  lemma AtParts(buf: bytes, pos: nat, a: bytes, b: bytes)
    requires At(buf, pos, a + b)
    ensures At(buf, pos, a) && At(buf, pos + |a|, b)
  {
    assert buf[pos..pos + |a|] == (a + b)[..|a|];
    assert buf[pos + |a|..pos + |a| + |b|] == (a + b)[|a|..];
  }

  lemma AtIs(buf: bytes, pos: nat, part: bytes)
    requires At(buf, pos, part)
    ensures pos + |part| <= |buf| && buf[pos..pos + |part|] == part
  {
  }

  lemma PrefixAt(buf: bytes, part: bytes)
    requires part <= buf
    ensures At(buf, 0, part)
  {
  }

  lemma Assoc<T>(a: seq<T>, b: seq<T>, c: seq<T>)
    ensures a + b + c == a + (b + c)
  {
  }

  lemma AtStart(a: bytes, b: bytes)
    ensures At(a + b, 0, a)
  {
  }

  // ---- little-endian numbers ----

  function Pow256(n: nat): (r: nat)
    ensures r > 0
  {
    if n == 0 then 1 else 256 * Pow256(n - 1)
  }

  function Le(v: nat, n: nat): (r: bytes)
    ensures |r| == n
  {
    if n == 0 then [] else [v % 256] + Le(v / 256, n - 1)
  }

  function LeValue(bs: bytes): nat {
    if bs == [] then 0 else bs[0] + 256 * LeValue(bs[1..])
  }

  lemma {:induction false} ValueOfLe(v: nat, n: nat)
    requires v < Pow256(n)
    ensures LeValue(Le(v, n)) == v
  {
    if n > 0 {
      ValueOfLe(v / 256, n - 1);
      assert Le(v, n)[1..] == Le(v / 256, n - 1);
    }
  }

  lemma {:induction false} LeOfValue(bs: bytes)
    ensures LeValue(bs) < Pow256(|bs|) && Le(LeValue(bs), |bs|) == bs
  {
    if bs != [] {
      var high := LeValue(bs[1..]);
      LeOfValue(bs[1..]);
      assert (bs[0] + 256 * high) / 256 == high;
      assert bs == [bs[0]] + bs[1..];
    }
  }

  /** A CRC reads back from the four bytes it is stored in. */
  lemma CrcReads(crc: nat)
    ensures LeValue(Le(crc % 0x1_0000_0000, 4)) == crc % 0x1_0000_0000
  {
    assert Pow256(4) == 0x1_0000_0000;
    ValueOfLe(crc % 0x1_0000_0000, 4);
  }

  /** Data that agree up to `end` agree on every slice before it. */
  lemma SameSlice(data: bytes, data': bytes, end: nat, i: nat, j: nat)
    requires i <= j <= end <= |data| && end <= |data'| && data[..end] == data'[..end]
    ensures data[i..j] == data'[i..j]
  {
    assert data[i..j] == data[..end][i..j];
    assert data'[i..j] == data'[..end][i..j];
  }

  /** The four bytes of a number modulo 2^32, the lowest first. */
  function Word32(v: nat): (r: bytes)
    ensures |r| == 4
  {
    [v % 0x100, v / 0x100 % 0x100, v / 0x1_0000 % 0x100, v / 0x100_0000 % 0x100]
  }

  function Word64(v: nat): (r: bytes)
    ensures |r| == 8
  {
    Word32(v) + Word32(v / 0x1_0000_0000)
  }

  lemma LeIsWord32(v: nat)
    ensures Le(v, 4) == Word32(v)
  {
    Quarters(v);
    var w := v / 256;
    assert Le(w / 256 / 256, 1) == [w / 256 / 256 % 256];
    assert Le(w / 256, 2) == [w / 256 % 256] + Le(w / 256 / 256, 1);
    assert Le(w, 3) == [w % 256] + Le(w / 256, 2);
  }

  lemma Quarters(v: nat)
    ensures v / 0x1_0000 == v / 256 / 256 && v / 0x100_0000 == v / 256 / 256 / 256
    ensures v / 0x1_0000_0000 == v / 256 / 256 / 256 / 256
  {
  }

  lemma {:induction false} LeHalves(v: nat, n: nat)
    ensures Le(v, n + 4) == Le(v, 4) + Le(v / 0x1_0000_0000, n)
  {
    Quarters(v);
    var a := v / 256;
    var b := a / 256;
    var c := b / 256;
    assert Le(v, n + 4) == [v % 256] + Le(a, n + 3);
    assert Le(a, n + 3) == [a % 256] + Le(b, n + 2);
    assert Le(b, n + 2) == [b % 256] + Le(c, n + 1);
    assert Le(c, n + 1) == [c % 256] + Le(c / 256, n);
    assert Le(v, 4) == [v % 256] + Le(a, 3);
    assert Le(a, 3) == [a % 256] + Le(b, 2);
    assert Le(b, 2) == [b % 256] + Le(c, 1);
    assert Le(c, 1) == [c % 256] + Le(c / 256, 0);
  }

  lemma LeIsWord64(v: nat)
    ensures Le(v, 8) == Word64(v)
  {
    hide Le, Word32;
    LeHalves(v, 4);
    LeIsWord32(v);
    LeIsWord32(v / 0x1_0000_0000);
  }
}
