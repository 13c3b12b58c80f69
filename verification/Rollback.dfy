/**
  The anti-rollback floor: entries appended to NOR flash, which only ever programs bits from one to
  zero (src/openmv_ota/ota/rollback.py). Flash bytes are bit-vectors.
 */
module Rollback {
  import opened Wrappers
  import Bytes

  type Flash = seq<bv8>

  const ENTRY_SIZE := 16
  const ERASED: bv8 := 0xFF

  /** 2^64 - 1. */
  const MASK := 0xFFFF_FFFF_FFFF_FFFF

  // ---- bytes and their values ----

  lemma Increment(b: bv8)
    requires b != 0xFF
    ensures (b + 1) as int == b as int + 1
  {
  }

  ghost function ByteOf(x: nat): (b: bv8)
    requires x < 256
    ensures b as int == x
  {
    if x == 0 then 0 else Increment(ByteOf(x - 1)); ByteOf(x - 1) + 1
  }

  function Byte(x: int): (b: bv8)
    requires 0 <= x < 256
    ensures b as int == x
  {
    assert (ByteOf(x) as int) as bv8 == ByteOf(x);
    x as bv8
  }

  lemma ByteComplement(x: int)
    requires 0 <= x < 256
    ensures Complements(Byte(255 - x), Byte(x))
  {
    assert (!Byte(x)) as int == 255 - Byte(x) as int;
    SameByte(Byte(255 - x), !Byte(x));
  }

  lemma SameByte(a: bv8, b: bv8)
    requires a as int == b as int
    ensures a == b
  {
  }

  function ToFlash(bs: Bytes.bytes): (f: Flash)
    ensures |f| == |bs|
  {
    seq(|bs|, i requires 0 <= i < |bs| => Byte(bs[i]))
  }

  function FromFlash(f: Flash): (bs: Bytes.bytes)
    ensures |bs| == |f|
  {
    seq<Bytes.byte>(|f|, i requires 0 <= i < |f| => ByteValue(f[i]))
  }

  function ByteValue(b: bv8): (x: Bytes.byte)
    ensures x == b as int
  {
    ByteRange(b);
    b as int
  }

  lemma ByteRange(b: bv8)
    ensures 0 <= b as int < 256
  {
  }

  /** The low `n` bytes of `v`, least significant first, and their value. */
  function Le(v: nat, n: nat): (r: Flash)
    ensures |r| == n
  {
    ToFlash(Bytes.Le(v, n))
  }

  function Value(f: Flash): nat {
    Bytes.LeValue(FromFlash(f))
  }

  lemma ValueOfLe(v: nat, n: nat)
    requires v < Bytes.Pow256(n)
    ensures Value(Le(v, n)) == v
  {
    hide Bytes.Le, Bytes.LeValue, Bytes.Pow256, Byte;
    Bytes.ValueOfLe(v, n);
    assert FromFlash(ToFlash(Bytes.Le(v, n))) == Bytes.Le(v, n);
  }

  lemma LeOfValue(f: Flash)
    ensures Value(f) < Bytes.Pow256(|f|) && Le(Value(f), |f|) == f
  {
    hide Bytes.Le, Bytes.LeValue, Bytes.Pow256, Byte;
    Bytes.LeOfValue(FromFlash(f));
    forall i | 0 <= i < |f|
      ensures ToFlash(FromFlash(f))[i] == f[i]
    {
      SameByte(Byte(ByteValue(f[i])), f[i]);
    }
    assert ToFlash(FromFlash(f)) == f;
  }

  lemma DivMod256(low: int, high: int)
    requires 0 <= low < 256
    ensures (low + 256 * high) % 256 == low && (low + 256 * high) / 256 == high
  {
  }

  lemma ComplementParts(v: nat, w: nat, bound: nat)
    requires v + w == 256 * bound - 1
    ensures w % 256 == 255 - v % 256 && v / 256 + w / 256 == bound - 1
  {
    assert w == (255 - v % 256) + 256 * (bound - 1 - v / 256);
    DivMod256(255 - v % 256, bound - 1 - v / 256);
  }

  predicate Complements(a: bv8, b: bv8) {
    a == !b
  }

  /** Taking `v` from all ones complements every byte. */
  lemma {:induction false} LeComplement(v: nat, w: nat, n: nat, i: nat)
    requires v + w == Bytes.Pow256(n) - 1 && i < n
    ensures Complements(Le(w, n)[i], Le(v, n)[i])
  {
    hide *;
    LeAt(v, n, i);
    LeAt(w, n, i);
    ComplementParts(v, w, Bytes.Pow256(n - 1));
    if i == 0 {
      ByteComplement(v % 256);
    } else {
      LeComplement(v / 256, w / 256, n - 1, i - 1);
    }
  }

  lemma LeAt(v: nat, n: nat, i: nat)
    requires i < n
    ensures Le(v, n)[i] == if i == 0 then Byte(v % 256) else Le(v / 256, n - 1)[i - 1]
    ensures Bytes.Pow256(n) == 256 * Bytes.Pow256(n - 1)
  {
  }

  lemma Pow256At8()
    ensures Bytes.Pow256(8) == MASK + 1
  {
    assert Bytes.Pow256(4) == 0x1_0000_0000;
  }

  // ---- entries ----

  /** The key, then its ones-complement, eight little-endian bytes each. */
  function EncodeEntry(key: int): (r: Flash)
    ensures |r| == ENTRY_SIZE
  {
    Le(key % (MASK + 1), 8) + Le(MASK - key % (MASK + 1), 8)
  }

  /** The key in an entry; none when the halves disagree. */
  function EntryKey(entry: Flash): Option<nat>
    requires |entry| == ENTRY_SIZE
  {
    var key, check := Value(entry[..8]), Value(entry[8..]);
    if MASK - key == check then Some(key) else None
  }

  function Blank(n: nat): (r: Flash)
    ensures |r| == n
  {
    seq<bv8>(n, _ => ERASED)
  }

  /** What a program of `data` onto `was` can leave: some of its one-to-zero changes are made. */
  predicate Torn(was: Flash, data: Flash, now: Flash) {
    && |was| == |data| == |now|
    && forall i | 0 <= i < |was| :: TornByte(was[i], data[i], now[i])
  }

  predicate TornByte(was: bv8, data: bv8, now: bv8) {
    now & was == now && now & (was & data) == was & data
  }

  /** The halves are complements byte by byte in a valid entry. */
  lemma ValidHalves(entry: Flash)
    requires |entry| == ENTRY_SIZE && EntryKey(entry).Some?
    ensures forall i | 0 <= i < 8 :: entry[8 + i] == !entry[i]
  {
    Pow256At8();
    LeOfValue(entry[..8]);
    LeOfValue(entry[8..]);
    forall i | 0 <= i < 8
      ensures entry[8 + i] == !entry[i]
    {
      LeComplement(Value(entry[..8]), Value(entry[8..]), 8, i);
    }
  }

  lemma NoKey(entry: Flash)
    requires |entry| == ENTRY_SIZE && entry[8] != !entry[0]
    ensures EntryKey(entry) == None
  {
    if EntryKey(entry).Some? {
      ValidHalves(entry);
    }
  }

  lemma EntryParts(key: int)
    ensures EncodeEntry(key)[..8] == Le(key % (MASK + 1), 8) && EncodeEntry(key)[8..] == Le(MASK - key % (MASK + 1), 8)
  {
    hide Le;
  }

  lemma KeyOf(entry: Flash, k: nat, check: nat)
    requires |entry| == ENTRY_SIZE && Value(entry[..8]) == k && Value(entry[8..]) == check && k + check == MASK
    ensures EntryKey(entry) == Some(k)
  {
    hide Value;
  }

  lemma EncodedKey(key: int)
    ensures EntryKey(EncodeEntry(key)) == Some(key % (MASK + 1))
  {
    hide Le, Value, Bytes.Pow256, EncodeEntry, EntryKey;
    var k: nat := key % (MASK + 1);
    Pow256At8();
    ValueOfLe(k, 8);
    ValueOfLe(MASK - k, 8);
    EntryParts(key);
    KeyOf(EncodeEntry(key), k, MASK - k);
  }

  lemma BlankHasNoKey()
    ensures EntryKey(Blank(ENTRY_SIZE)) == None
  {
    NoKey(Blank(ENTRY_SIZE));
  }

  lemma BothProgrammed(data: bv8, a: bv8, b: bv8)
    requires TornByte(ERASED, data, a) && TornByte(ERASED, !data, b) && b == !a
    ensures a == data && b == !data
  {
  }

  /** A partly programmed entry never reads as any key; a whole one reads as the key written. */
  lemma TornEntryReads(key: int, now: Flash)
    requires Torn(Blank(ENTRY_SIZE), EncodeEntry(key), now)
    ensures EntryKey(now) == if now == EncodeEntry(key) then Some(key % (MASK + 1)) else None
  {
    hide EncodeEntry, EntryKey;
    var entry := EncodeEntry(key);
    EncodedKey(key);
    ValidHalves(entry);
    if EntryKey(now).Some? {
      ValidHalves(now);
      forall i | 0 <= i < 8
        ensures HalvesAgree(now, entry, i)
      {
        assert TornByte(ERASED, entry[i], now[i]) && TornByte(ERASED, entry[8 + i], now[8 + i]);
        BothProgrammed(entry[i], now[i], now[8 + i]);
      }
      forall i | 0 <= i < ENTRY_SIZE
        ensures now[i] == entry[i]
      {
        assert HalvesAgree(now, entry, i % 8);
      }
      assert now == entry;
    }
  }

  predicate HalvesAgree(a: Flash, b: Flash, i: int)
    requires |a| == |b| == ENTRY_SIZE && 0 <= i < 8
  {
    a[i] == b[i] && a[8 + i] == b[8 + i]
  }

  // ---- an entry, byte by byte ----

  /** The key's eight bytes, the lowest first, and then each of them complemented. */
  lemma EntryBytes(key: int, i: nat)
    requires i < 8
    ensures EncodeEntry(key)[i] as int == Bytes.Word64(key % 0x1_0000_0000_0000_0000)[i]
    ensures EncodeEntry(key)[8 + i] as int == 255 - Bytes.Word64(key % 0x1_0000_0000_0000_0000)[i]
  {
    var k: nat := key % (MASK + 1);
    Pow256At8();
    hide Bytes.Pow256, Le, Value, EncodeEntry, Bytes.Word64;
    EntryParts(key);
    assert EncodeEntry(key)[i] == EncodeEntry(key)[..8][i] && EncodeEntry(key)[8 + i] == EncodeEntry(key)[8..][i];
    LeByte(k, 8, i);
    Bytes.LeIsWord64(k);
    LeComplement(k, MASK - k, 8, i);
    NotIs(Le(k, 8)[i]);
  }

  lemma LeByte(v: nat, n: nat, i: nat)
    requires i < n
    ensures Le(v, n)[i] as int == Bytes.Le(v, n)[i]
  {
  }

  lemma NotIs(b: bv8)
    ensures (!b) as int == 255 - b as int
  {
  }

  /** An entry reads as a key exactly when it is that key's, byte for byte. */
  lemma EntryKeyMeaning(entry: Flash, key: nat)
    requires |entry| == ENTRY_SIZE
    ensures EntryKey(entry) == Some(key) <==> key < 0x1_0000_0000_0000_0000 && entry == EncodeEntry(key)
  {
    hide Le, Value, EncodeEntry;
    if EntryKey(entry) == Some(key) {
      Pow256At8();
      LeOfValue(entry[..8]);
      LeOfValue(entry[8..]);
      EntryParts(key);
      assert entry == entry[..8] + entry[8..] && EncodeEntry(key) == EncodeEntry(key)[..8] + EncodeEntry(key)[8..];
    }
    if key < MASK + 1 && entry == EncodeEntry(key) {
      EncodedKey(key);
    }
  }
}
