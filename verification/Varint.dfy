/**
  Unsigned LEB128 varints and zigzag, as the OCDL delta codec writes and reads them
  (src/openmv_ota/ota/delta.py:45-94). A varint of more than ten bytes is refused.
 */
module Varint {
  import opened Wrappers
  import opened Bytes

  datatype Error =
    | NotADelta | TruncatedVarint | VarintTooLong | Truncated | NoProgress | Overrun | OutOfBase

  const VARINT_MAX := 10

  /** 2^70: seven bits in each of the ten bytes. */
  const CAP := 0x40_0000_0000_0000_0000

  /** A bytearray the writers append to. */
  class ByteArray {
    var data: bytes

    constructor ()
      ensures data == []
    {
      data := [];
    }

    method Append(b: byte)
      modifies this
      ensures data == old(data) + [b]
    {
      data := data + [b];
    }

    method Extend(bs: bytes)
      modifies this
      ensures data == old(data) + bs
    {
      data := data + bs;
    }
  }

  // ---- the encoding, low seven bits first ----

  function Uvarint(v: nat): (r: bytes)
    ensures |r| > 0
  {
    if v < 128 then [v] else [v % 128 + 128] + Uvarint(v / 128)
  }

  function Zigzag(v: int): nat {
    if v >= 0 then 2 * v else -2 * v - 1
  }

  function Unzigzag(z: nat): int {
    if z % 2 == 0 then z / 2 else -((z + 1) / 2)
  }

  function Svarint(v: int): bytes {
    Uvarint(Zigzag(v))
  }

  method WriteUvarint(out: ByteArray, v: nat)
    modifies out
    ensures out.data == old(out.data) + Uvarint(v)
  {
    var val := v;
    while true
      invariant out.data + Uvarint(val) == old(out.data) + Uvarint(v)
      decreases val
    {
      var b := val % 128;
      ghost var before, whole := out.data, val;
      val := val / 128;
      if val != 0 {
        out.Append(b + 128);
        assert before + Uvarint(whole) == before + [b + 128] + Uvarint(val);
      } else {
        out.Append(b);
        return;
      }
    }
  }

  method WriteSvarint(out: ByteArray, v: int)
    modifies out
    ensures out.data == old(out.data) + Svarint(v)
  {
    WriteUvarint(out, Zigzag(v));
  }

  // ---- reading ----

  /** The value at `pos` and the position after it; `count` bytes of it were read already. */
  function ReadFrom(buf: bytes, pos: nat, count: nat): (r: Result<(nat, nat), Error>)
    ensures r.Success? ==> pos < r.value.1 <= |buf|
    decreases |buf| - pos
  {
    if pos >= |buf| then Failure(TruncatedVarint)
    else if count >= VARINT_MAX then Failure(VarintTooLong)
    else if buf[pos] < 128 then Success((buf[pos], pos + 1))
    else match ReadFrom(buf, pos + 1, count + 1)
      case Failure(e) => Failure(e)
      case Success((v, next)) => Success((buf[pos] - 128 + 128 * v, next))
  }

  function Read(buf: bytes, pos: nat): (r: Result<(nat, nat), Error>)
    ensures r.Success? ==> pos < r.value.1 <= |buf|
  {
    ReadFrom(buf, pos, 0)
  }

  function ReadSigned(buf: bytes, pos: nat): (r: Result<(int, nat), Error>)
    ensures r.Success? ==> pos < r.value.1 <= |buf|
  {
    var (z, next) :- Read(buf, pos);
    Success((Unzigzag(z), next))
  }

  function Pow2(n: nat): (r: nat)
    ensures r > 0
  {
    if n == 0 then 1 else 2 * Pow2(n - 1)
  }

  lemma Pow2Add7(n: nat)
    ensures Pow2(n + 7) == 128 * Pow2(n)
  {
    assert Pow2(n + 2) == 4 * Pow2(n);
    assert Pow2(n + 4) == 4 * Pow2(n + 2);
    assert Pow2(n + 6) == 4 * Pow2(n + 4);
  }

  /** What the reader makes of the bytes still to come, given the value read so far. */
  ghost function Lift(result: nat, scale: nat, rest: Result<(nat, nat), Error>): Result<(nat, nat), Error> {
    match rest
    case Failure(e) => Failure(e)
    case Success((v, next)) => Success((result + v * scale, next))
  }

  lemma LiftStep(buf: bytes, pos: nat, count: nat, result: nat, scale: nat)
    requires pos < |buf| && count < VARINT_MAX
    ensures Lift(result, scale, ReadFrom(buf, pos, count)) == var low := buf[pos] % 128;
      if buf[pos] < 128 then Success((result + low * scale, pos + 1))
      else Lift(result + low * scale, 128 * scale, ReadFrom(buf, pos + 1, count + 1))
  {
    var low, rest := buf[pos] % 128, ReadFrom(buf, pos + 1, count + 1);
    if buf[pos] >= 128 && rest.Success? {
      LiftValue(result, scale, low, rest.value.0);
    }
  }

  lemma LiftValue(result: nat, scale: nat, low: nat, v: nat)
    ensures result + (low + 128 * v) * scale == result + low * scale + v * (128 * scale)
  {
    assert (low + 128 * v) * scale == low * scale + (128 * v) * scale;
    assert (128 * v) * scale == v * (128 * scale);
  }

  lemma LiftEnds(buf: bytes, pos: nat, count: nat, result: nat, scale: nat)
    ensures pos >= |buf| ==> Lift(result, scale, ReadFrom(buf, pos, count)) == Failure(TruncatedVarint)
    ensures pos < |buf| && count >= VARINT_MAX ==>
      Lift(result, scale, ReadFrom(buf, pos, count)) == Failure(VarintTooLong)
    ensures Lift(0, 1, ReadFrom(buf, pos, count)) == ReadFrom(buf, pos, count)
  {
  }

  /** The reader's loop: a shift and an accumulator. The bits or-ed in never overlap. */
  method ReadUvarint(buf: bytes, start: nat) returns (r: Result<(nat, nat), Error>)
    ensures r == Read(buf, start)
  {
    var pos, result, shift, n := start, 0, 0, |buf|;
    ghost var count: nat := 0;
    assert Pow2(0) == 1;
    LiftEnds(buf, start, 0, 0, 1);
    hide Pow2, ReadFrom, Lift;
    while true
      invariant shift == 7 * count && result >= 0
      invariant Read(buf, start) == Lift(result, Pow2(shift), ReadFrom(buf, pos, count))
      decreases n - pos
    {
      LiftEnds(buf, pos, count, result, Pow2(shift));
      if pos >= n {
        return Failure(TruncatedVarint);
      }
      if shift >= 7 * VARINT_MAX {
        return Failure(VarintTooLong);
      }
      LiftStep(buf, pos, count, result, Pow2(shift));
      var b := buf[pos];
      pos := pos + 1;
      result := result + b % 128 * Pow2(shift);
      if b < 128 {
        return Success((result, pos));
      }
      Pow2Add7(shift);
      shift := shift + 7;
      count := count + 1;
    }
  }

  // ---- what the reader and the writer promise each other ----

  function Pow128(n: nat): (r: nat)
    ensures r > 0
  {
    if n == 0 then 1 else 128 * Pow128(n - 1)
  }

  /** Every value read is below the cap, after at most ten bytes, all inside the buffer. */
  lemma {:induction false} ReadFromBounds(buf: bytes, pos: nat, count: nat)
    requires count <= VARINT_MAX
    ensures var r := ReadFrom(buf, pos, count);
      r.Success? ==> r.value.0 < Pow128(VARINT_MAX - count) && r.value.1 <= pos + VARINT_MAX - count
    decreases |buf| - pos
  {
    hide Uvarint;
    if pos < |buf| && count < VARINT_MAX && buf[pos] >= 128 {
      ReadFromBounds(buf, pos + 1, count + 1);
    }
  }

  lemma CapIsPow128()
    ensures Pow128(VARINT_MAX) == CAP
  {
    assert Pow128(3) == 0x20_0000;
    assert Pow128(6) == 0x400_0000_0000;
    assert Pow128(9) == 0x8000_0000_0000_0000;
  }

  lemma ReadBounds(buf: bytes, pos: nat)
    ensures var r := Read(buf, pos);
      r.Success? ==> r.value.0 < CAP && pos < r.value.1 <= |buf| && r.value.1 <= pos + VARINT_MAX
  {
    ReadFromBounds(buf, pos, 0);
    CapIsPow128();
  }

  /** A written value reads back as itself, with the position after it, exactly when it fits. */
  lemma {:induction false} ReadWritten(buf: bytes, pos: nat, count: nat, v: nat)
    requires At(buf, pos, Uvarint(v)) && count < VARINT_MAX
    ensures v < Pow128(VARINT_MAX - count) ==>
      |Uvarint(v)| <= VARINT_MAX - count && ReadFrom(buf, pos, count) == Success((v, pos + |Uvarint(v)|))
    ensures v >= Pow128(VARINT_MAX - count) ==> ReadFrom(buf, pos, count) == Failure(VarintTooLong)
    decreases v
  {
    var w := Uvarint(v);
    assert buf[pos] == w[0];
    if v >= 128 {
      assert At(buf, pos + 1, Uvarint(v / 128)) by {
        assert buf[pos..pos + |w|][1..] == buf[pos + 1..pos + |w|];
      }
      if count + 1 < VARINT_MAX {
        ReadWritten(buf, pos + 1, count + 1, v / 128);
      } else {
        assert Pow128(1) == 128;
        assert ReadFrom(buf, pos + 1, count + 1) == Failure(VarintTooLong);
      }
    } else {
      assert Pow128(VARINT_MAX - count) == 128 * Pow128(VARINT_MAX - count - 1) >= 128;
    }
  }

  lemma UvarintRoundTrip(buf: bytes, pos: nat, v: nat)
    requires At(buf, pos, Uvarint(v))
    ensures v < CAP <==> Read(buf, pos).Success?
    ensures v < CAP ==> Read(buf, pos) == Success((v, pos + |Uvarint(v)|)) && |Uvarint(v)| <= VARINT_MAX
    ensures v >= CAP ==> Read(buf, pos) == Failure(VarintTooLong)
  {
    ReadWritten(buf, pos, 0, v);
    CapIsPow128();
  }

  lemma SvarintRoundTrip(buf: bytes, pos: nat, v: int)
    requires At(buf, pos, Svarint(v)) && Zigzag(v) < CAP
    ensures ReadSigned(buf, pos) == Success((v, pos + |Svarint(v)|)) && |Svarint(v)| <= VARINT_MAX
  {
    UvarintRoundTrip(buf, pos, Zigzag(v));
  }

  // ---- what the code is ----

  /** Seven-bit groups, the lowest first. */
  function Groups(bs: bytes): nat {
    if bs == [] then 0 else bs[0] % 128 + 128 * Groups(bs[1..])
  }

  /** Only the last byte of a varint has its top bit clear. */
  predicate Flagged(bs: bytes) {
    && bs != [] && bs[|bs| - 1] < 128
    && forall i | 0 <= i < |bs| - 1 :: bs[i] >= 128
  }

  /** The bytes written are the groups of the value, flagged, with no zero group at the end. */
  lemma {:induction false} UvarintIs(v: nat)
    ensures var w := Uvarint(v); Flagged(w) && Groups(w) == v && (|w| > 1 ==> w[|w| - 1] != 0)
    decreases v
  {
    var w := Uvarint(v);
    if v >= 128 {
      UvarintIs(v / 128);
      assert w[1..] == Uvarint(v / 128);
      assert forall i | 0 < i < |w| :: w[i] == w[1..][i - 1];
    }
  }

  lemma GroupsMore(b: byte, bs: bytes)
    ensures Groups([b] + bs) == b % 128 + 128 * Groups(bs)
  {
    assert ([b] + bs)[1..] == bs;
  }

  /** The `len` bytes at `pos` are a varint of `v`. */
  predicate VarintAt(buf: bytes, pos: nat, len: nat, v: nat) {
    pos + len <= |buf| && Flagged(buf[pos..pos + len]) && Groups(buf[pos..pos + len]) == v
  }

  lemma VarintStep(buf: bytes, pos: nat, len: nat, v: nat)
    requires pos < |buf| && len > 0
    ensures VarintAt(buf, pos, len, v) <==>
      if buf[pos] < 128 then len == 1 && v == buf[pos]
      else len > 1 && v % 128 == buf[pos] - 128 && VarintAt(buf, pos + 1, len - 1, v / 128)
  {
    if pos + len <= |buf| {
      var w := buf[pos..pos + len];
      assert w == [buf[pos]] + buf[pos + 1..pos + len];
      var rest := buf[pos + 1..pos + len];
      assert forall i | 0 < i < len :: w[i] == rest[i - 1];
      GroupsMore(buf[pos], rest);
      if buf[pos] < 128 && len == 1 {
        assert rest == [];
      }
    }
  }

  lemma {:induction false} ReadFromIs(buf: bytes, pos: nat, count: nat, v: nat, len: nat)
    requires len > 0
    ensures ReadFrom(buf, pos, count) == Success((v, pos + len))
       <==> VarintAt(buf, pos, len, v) && count + len <= VARINT_MAX
    decreases len
  {
    hide VarintAt;
    if pos < |buf| {
      VarintStep(buf, pos, len, v);
      if buf[pos] >= 128 && len > 1 {
        ReadFromIs(buf, pos + 1, count + 1, v / 128, len - 1);
      }
    } else {
      assert !VarintAt(buf, pos, len, v) by { VarintInside(buf, pos, len, v); }
    }
  }

  lemma VarintInside(buf: bytes, pos: nat, len: nat, v: nat)
    ensures VarintAt(buf, pos, len, v) ==> len > 0 && pos + len <= |buf|
  {
  }

  /** The reader accepts exactly the varints of at most ten bytes, padded with zero groups or not. */
  lemma ReadIs(buf: bytes, pos: nat, v: nat, len: nat)
    requires len > 0
    ensures Read(buf, pos) == Success((v, pos + len)) <==> VarintAt(buf, pos, len, v) && len <= 10
  {
    ReadFromIs(buf, pos, 0, v, len);
  }

  /** Signed values are numbered by size, the negative one first: 0, -1, 1, -2, 2 and so on. With
      every number taken, order fixes the whole numbering. */
  lemma ZigzagOrder(v: int, w: int)
    ensures Zigzag(v) < Zigzag(w) <==> Abs(v) < Abs(w) || (v == -w && v < 0)
  {
  }

  function Abs(v: int): nat {
    if v < 0 then -v else v
  }

  lemma ZigzagOnto(z: nat)
    ensures Zigzag(Unzigzag(z)) == z
  {
  }

  lemma ZigzagBack(v: int)
    ensures Unzigzag(Zigzag(v)) == v && Zigzag(0) == 0 && Zigzag(-1) == 1 && Zigzag(1) == 2
  {
  }
}
