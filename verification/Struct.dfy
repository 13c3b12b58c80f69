/**
  The `struct` module's packing, for the formats the codecs use: little-endian numbers and fixed
  byte fields, one after another.
 */
module Struct {
  import opened Bytes

  /** A field: an unsigned or a two's-complement number of `n` bytes, or `n` raw bytes. */
  datatype Fmt = U(n: nat) | I(n: nat) | S(n: nat)

  datatype Val = Num(v: int) | Raw(b: bytes)

  /** `struct.pack` raises for a number out of its field's range. */
  predicate Fits(f: Fmt, v: Val) {
    match f
    case U(n) => v.Num? && 0 <= v.v < Pow256(n)
    case I(n) => v.Num? && 0 <= Pow256(n) + 2 * v.v && 2 * v.v < Pow256(n)
    case S(n) => v.Raw? && |v.b| == n
  }

  predicate FitAll(fmt: seq<Fmt>, vals: seq<Val>) {
    |fmt| == |vals| && forall i | 0 <= i < |fmt| :: Fits(fmt[i], vals[i])
  }

  function CalcSize(fmt: seq<Fmt>): nat {
    if fmt == [] then 0 else fmt[0].n + CalcSize(fmt[1..])
  }

  function PackOne(f: Fmt, v: Val): (r: bytes)
    requires Fits(f, v)
    ensures |r| == f.n
  {
    match f
    case U(n) => Le(v.v, n)
    case I(n) => Le(if v.v < 0 then v.v + Pow256(n) else v.v, n)
    case S(n) => v.b
  }

  function Pack(fmt: seq<Fmt>, vals: seq<Val>): (r: bytes)
    requires FitAll(fmt, vals)
    ensures |r| == CalcSize(fmt)
  {
    if fmt == [] then [] else PackOne(fmt[0], vals[0]) + Pack(fmt[1..], vals[1..])
  }

  function UnpackOne(f: Fmt, data: bytes, off: nat): (v: Val)
    requires off + f.n <= |data|
  {
    var raw := data[off..off + f.n];
    match f
    case U(n) => Num(LeValue(raw))
    case I(n) => Num(if 2 * LeValue(raw) < Pow256(n) then LeValue(raw) else LeValue(raw) - Pow256(n))
    case S(n) => Raw(raw)
  }

  function Unpack(fmt: seq<Fmt>, data: bytes, off: nat): (vals: seq<Val>)
    requires off + CalcSize(fmt) <= |data|
    ensures |vals| == |fmt|
  {
    if fmt == [] then []
    else [UnpackOne(fmt[0], data, off)] + Unpack(fmt[1..], data, off + fmt[0].n)
  }

  lemma UnpackPackedOne(f: Fmt, v: Val, data: bytes, off: nat)
    requires Fits(f, v) && At(data, off, PackOne(f, v))
    ensures UnpackOne(f, data, off) == v
  {
    match f
    case U(n) => ValueOfLe(v.v, n);
    case I(n) => ValueOfLe(if v.v < 0 then v.v + Pow256(n) else v.v, n);
    case S(n) =>
  }

  /** Unpacking gives back what was packed, wherever it is in the data. */
  lemma {:induction false} UnpackPacked(fmt: seq<Fmt>, vals: seq<Val>, data: bytes, off: nat)
    requires FitAll(fmt, vals) && At(data, off, Pack(fmt, vals))
    ensures Unpack(fmt, data, off) == vals
    decreases |fmt|
  {
    hide Fits, PackOne, UnpackOne, At;
    if fmt != [] {
      AtParts(data, off, PackOne(fmt[0], vals[0]), Pack(fmt[1..], vals[1..]));
      UnpackPackedOne(fmt[0], vals[0], data, off);
      AtIs(data, off + fmt[0].n, Pack(fmt[1..], vals[1..]));
      UnpackPacked(fmt[1..], vals[1..], data, off + fmt[0].n);
      assert [vals[0]] + vals[1..] == vals;
    } else {
      AtIs(data, off, Pack(fmt, vals));
    }
  }

  lemma PackUnpackedOne(f: Fmt, data: bytes, off: nat)
    requires off + f.n <= |data|
    ensures Fits(f, UnpackOne(f, data, off)) && PackOne(f, UnpackOne(f, data, off)) == data[off..off + f.n]
  {
    LeOfValue(data[off..off + f.n]);
  }

  /** Packing what was unpacked gives back the bytes. */
  lemma {:induction false} PackUnpacked(fmt: seq<Fmt>, data: bytes, off: nat)
    requires off + CalcSize(fmt) <= |data|
    ensures FitAll(fmt, Unpack(fmt, data, off))
    ensures Pack(fmt, Unpack(fmt, data, off)) == data[off..off + CalcSize(fmt)]
    decreases |fmt|
  {
    hide Fits, PackOne, UnpackOne;
    if fmt != [] {
      PackUnpackedOne(fmt[0], data, off);
      PackUnpacked(fmt[1..], data, off + fmt[0].n);
      assert Unpack(fmt, data, off)[1..] == Unpack(fmt[1..], data, off + fmt[0].n);
    }
  }

  /** Each value unpacked is of its field's kind and range. */
  lemma UnpackedFit(fmt: seq<Fmt>, data: bytes, off: nat)
    requires off + CalcSize(fmt) <= |data|
    ensures FitAll(fmt, Unpack(fmt, data, off))
  {
    PackUnpacked(fmt, data, off);
  }

  /** Only the bytes of the fields matter. */
  lemma {:induction false} UnpackSame(fmt: seq<Fmt>, data: bytes, data': bytes, off: nat)
    requires off + CalcSize(fmt) <= |data| && off + CalcSize(fmt) <= |data'|
    requires data[off..off + CalcSize(fmt)] == data'[off..off + CalcSize(fmt)]
    ensures Unpack(fmt, data, off) == Unpack(fmt, data', off)
  {
    PackUnpacked(fmt, data, off);
    UnpackPacked(fmt, Unpack(fmt, data, off), data', off);
  }

  /** Packing and unpacking go part by part. */
  lemma {:induction false} PackParts(a: seq<Fmt>, va: seq<Val>, b: seq<Fmt>, vb: seq<Val>)
    requires FitAll(a, va) && FitAll(b, vb)
    ensures FitAll(a + b, va + vb) && Pack(a + b, va + vb) == Pack(a, va) + Pack(b, vb)
  {
    hide Fits, PackOne;
    if a == [] {
      assert a + b == b && va + vb == vb;
    } else {
      PackParts(a[1..], va[1..], b, vb);
      Assoc(PackOne(a[0], va[0]), Pack(a[1..], va[1..]), Pack(b, vb));
      assert (a + b)[1..] == a[1..] + b && (va + vb)[1..] == va[1..] + vb;
    }
  }

  lemma UnpackParts(a: seq<Fmt>, b: seq<Fmt>, data: bytes, off: nat)
    requires off + CalcSize(a) + CalcSize(b) <= |data|
    ensures CalcSize(a + b) == CalcSize(a) + CalcSize(b)
    ensures Unpack(a + b, data, off) == Unpack(a, data, off) + Unpack(b, data, off + CalcSize(a))
  {
    hide *;
    var va, vb, mid := Unpack(a, data, off), Unpack(b, data, off + CalcSize(a)), off + CalcSize(a);
    SizeOfParts(a, b);
    PackUnpacked(a, data, off);
    PackUnpacked(b, data, mid);
    PackParts(a, va, b, vb);
    Adjacent(data, off, mid, mid + CalcSize(b));
    AtSlice(data, off, Pack(a + b, va + vb));
    UnpackPacked(a + b, va + vb, data, off);
  }

  lemma Adjacent(data: bytes, i: nat, j: nat, k: nat)
    requires i <= j <= k <= |data|
    ensures data[i..j] + data[j..k] == data[i..k]
  {
  }

  lemma AtSlice(data: bytes, off: nat, part: bytes)
    requires off + |part| <= |data| && data[off..off + |part|] == part
    ensures At(data, off, part)
  {
  }

  /** One field can be read on its own, at the size of the fields before it. */
  lemma {:induction false} UnpackAt(fmt: seq<Fmt>, data: bytes, off: nat, i: nat)
    requires off + CalcSize(fmt) <= |data| && i < |fmt|
    ensures CalcSize(fmt[..i]) + fmt[i].n <= CalcSize(fmt)
    ensures Unpack(fmt, data, off)[i] == UnpackOne(fmt[i], data, off + CalcSize(fmt[..i]))
    decreases |fmt|
  {
    hide UnpackOne;
    if i > 0 {
      UnpackAt(fmt[1..], data, off + fmt[0].n, i - 1);
      assert fmt[..i][1..] == fmt[1..][..i - 1];
    }
  }

  // ---- sizes of formats ----

  lemma {:induction false} SizeOfParts(a: seq<Fmt>, b: seq<Fmt>)
    ensures CalcSize(a + b) == CalcSize(a) + CalcSize(b)
  {
    if a == [] {
      assert a + b == b;
    } else {
      SizeOfParts(a[1..], b);
      assert (a + b)[1..] == a[1..] + b;
    }
  }

  lemma SizeOfOne(f: seq<Fmt>)
    requires |f| == 1
    ensures CalcSize(f) == f[0].n
  {
  }

  lemma SizeOfFour(f: seq<Fmt>)
    requires |f| == 4
    ensures CalcSize(f) == f[0].n + f[1].n + f[2].n + f[3].n
  {
    SizeOfOne(f[3..]);
    assert f[2..][1..] == f[3..];
    assert f[1..][1..] == f[2..];
    assert CalcSize(f[2..]) == f[2].n + CalcSize(f[3..]);
    assert CalcSize(f[1..]) == f[1].n + CalcSize(f[2..]);
  }
}
