/**
  The floor read from, and appended to, a region of flash (src/openmv_ota/ota/rollback.py:48-65), over
  whole runs of appends that a power loss may cut anywhere.
 */
module FloorLog {
  import opened Wrappers
  import opened Rollback

  function Max(a: nat, b: nat): nat {
    if a < b then b else a
  }

  function EntryAt(region: Flash, i: nat): Flash
    requires i + ENTRY_SIZE <= |region|
  {
    region[i..i + ENTRY_SIZE]
  }

  function KeyAt(region: Flash, i: nat): nat
    requires i + ENTRY_SIZE <= |region|
  {
    match EntryKey(EntryAt(region, i))
    case None => 0
    case Some(key) => key
  }

  /** The highest key from offset `i` on, 0 if there is none. */
  function FloorFrom(region: Flash, stride: nat, i: nat): nat
    requires stride > 0
    decreases |region| - i
  {
    if i + ENTRY_SIZE > |region| then 0 else Max(KeyAt(region, i), FloorFrom(region, stride, i + stride))
  }

  function Floor(region: Flash, stride: nat): nat
    requires stride > 0
  {
    FloorFrom(region, stride, 0)
  }

  method FloorOf(region: Flash, stride: nat) returns (floor: nat)
    requires stride > 0
    ensures floor == Floor(region, stride)
  {
    hide EntryKey;
    floor := 0;
    var i := 0;
    while i < |region| - ENTRY_SIZE + 1
      invariant i >= 0 && Floor(region, stride) == Max(floor, FloorFrom(region, stride, i))
    {
      var key := EntryKey(region[i..i + ENTRY_SIZE]);
      if key.Some? && key.value > floor {
        floor := key.value;
      }
      i := i + stride;
    }
  }

  /** `j` is `i` or a number of strides past it. */
  predicate OnGrid(i: nat, stride: nat, j: nat)
    requires stride > 0
    decreases j - i
  {
    i == j || (i + stride <= j && OnGrid(i + stride, stride, j))
  }

  /** An entry slot of the region. */
  predicate IsSlot(region: Flash, stride: nat, j: nat)
    requires stride > 0
  {
    OnGrid(0, stride, j) && j + ENTRY_SIZE <= |region|
  }

  method AppendOffset(region: Flash, stride: nat) returns (r: Option<nat>)
    requires stride > 0
    ensures r == FirstBlank(region, stride, 0)
  {
    var i := 0;
    while i < |region| - ENTRY_SIZE + 1
      invariant i >= 0 && FirstBlank(region, stride, i) == FirstBlank(region, stride, 0)
    {
      if region[i..i + ENTRY_SIZE] == Blank(ENTRY_SIZE) {
        return Some(i);
      }
      i := i + stride;
    }
    return None;
  }

  function FirstBlank(region: Flash, stride: nat, i: nat): (r: Option<nat>)
    requires stride > 0
    ensures r.Some? ==> i <= r.value && r.value + ENTRY_SIZE <= |region|
    decreases |region| - i
  {
    if i + ENTRY_SIZE > |region| then None
    else if EntryAt(region, i) == Blank(ENTRY_SIZE) then Some(i)
    else FirstBlank(region, stride, i + stride)
  }

  lemma {:induction false} BlankFrom(region: Flash, stride: nat, i: nat, j: nat)
    requires stride > 0 && OnGrid(i, stride, j) && j + ENTRY_SIZE <= |region|
    ensures var r := FirstBlank(region, stride, i);
      && (r.None? ==> EntryAt(region, j) != Blank(ENTRY_SIZE))
      && (r.Some? ==> OnGrid(i, stride, r.value) && EntryAt(region, r.value) == Blank(ENTRY_SIZE))
      && (r.Some? && j < r.value ==> EntryAt(region, j) != Blank(ENTRY_SIZE))
    decreases j - i
  {
    hide Blank;
    if EntryAt(region, i) == Blank(ENTRY_SIZE) {
    } else if i < j {
      BlankFrom(region, stride, i + stride, j);
    } else {
      BlankOnGrid(region, stride, i);
    }
  }

  lemma {:induction false} BlankOnGrid(region: Flash, stride: nat, i: nat)
    requires stride > 0
    ensures var r := FirstBlank(region, stride, i);
      r.Some? ==> OnGrid(i, stride, r.value) && EntryAt(region, r.value) == Blank(ENTRY_SIZE)
    decreases |region| - i
  {
    hide Blank;
    if i + ENTRY_SIZE <= |region| {
      BlankOnGrid(region, stride, i + stride);
    }
  }

  predicate IsBlank(region: Flash, j: nat)
    requires j + ENTRY_SIZE <= |region|
  {
    EntryAt(region, j) == Blank(ENTRY_SIZE)
  }

  /** `AppendOffset` finds the first blank slot, and none exactly when every slot is written. */
  lemma FirstBlankMeaning(region: Flash, stride: nat, r: Option<nat>)
    requires stride > 0
    ensures r == FirstBlank(region, stride, 0) <==>
      if r.None? then forall j: nat | IsSlot(region, stride, j) :: !IsBlank(region, j)
      else IsSlot(region, stride, r.value) && IsBlank(region, r.value)
           && forall j: nat | IsSlot(region, stride, j) && j < r.value :: !IsBlank(region, j)
  {
    hide Blank, EntryAt, FirstBlank;
    var first := FirstBlank(region, stride, 0);
    BlankOnGrid(region, stride, 0);
    assert first.Some? ==> IsSlot(region, stride, first.value) && IsBlank(region, first.value);
    forall j: nat | IsSlot(region, stride, j)
      ensures first.None? || j < first.value ==> !IsBlank(region, j)
    {
      BlankFrom(region, stride, 0, j);
    }
  }

  lemma {:induction false} NoneAbove(region: Flash, stride: nat, i: nat, j: nat)
    requires stride > 0 && OnGrid(i, stride, j) && j + ENTRY_SIZE <= |region|
    ensures KeyAt(region, j) <= FloorFrom(region, stride, i)
    decreases j - i
  {
    hide KeyAt;
    if i < j {
      NoneAbove(region, stride, i + stride, j);
    }
  }

  /** The floor is a slot's key, or there is none. */
  lemma {:induction false} FloorAttained(region: Flash, stride: nat, i: nat) returns (j: nat)
    requires stride > 0
    ensures FloorFrom(region, stride, i) != 0 ==>
      OnGrid(i, stride, j) && j + ENTRY_SIZE <= |region| && KeyAt(region, j) == FloorFrom(region, stride, i)
    decreases |region| - i
  {
    hide KeyAt;
    j := i;
    if i + ENTRY_SIZE <= |region| && KeyAt(region, i) < FloorFrom(region, stride, i + stride) {
      j := FloorAttained(region, stride, i + stride);
    }
  }

  /** The floor is the highest key in any slot, and 0 when no slot holds one. */
  lemma FloorMeaning(region: Flash, stride: nat, floor: nat)
    requires stride > 0
    ensures floor == Floor(region, stride) <==>
      && (forall j: nat | IsSlot(region, stride, j) :: KeyAt(region, j) <= floor)
      && (floor == 0 || exists j: nat :: IsSlot(region, stride, j) && KeyAt(region, j) == floor)
  {
    hide KeyAt, FloorFrom;
    var top := FloorAttained(region, stride, 0);
    assert Floor(region, stride) != 0 ==> IsSlot(region, stride, top) && KeyAt(region, top) == Floor(region, stride);
    forall j: nat | IsSlot(region, stride, j)
      ensures KeyAt(region, j) <= Floor(region, stride)
    {
      NoneAbove(region, stride, 0, j);
    }
  }

  // ---- one append ----

  /** An append of `key` that a power loss may cut: `written` is what its sixteen bytes then read. */
  datatype Append = Append(key: int, written: Flash) {
    predicate Possible() {
      Torn(Blank(ENTRY_SIZE), EncodeEntry(key), written)
    }

    /** The key, if the append was completed. */
    function Landed(): nat {
      if written == EncodeEntry(key) then key % (MASK + 1) else 0
    }
  }

  function Overwrite(region: Flash, i: nat, bytes: Flash): (r: Flash)
    requires i + |bytes| <= |region|
    ensures |r| == |region|
  {
    region[..i] + bytes + region[i + |bytes|..]
  }

  /** The region after an append at the first blank slot; a full region is left as it is. */
  function After(region: Flash, stride: nat, a: Append): (r: Flash)
    requires stride > 0 && a.Possible()
    ensures |r| == |region|
  {
    match FirstBlank(region, stride, 0)
    case None => region
    case Some(i) => Overwrite(region, i, a.written)
  }

  function Accepted(region: Flash, stride: nat, a: Append): nat
    requires stride > 0
  {
    if FirstBlank(region, stride, 0).Some? then a.Landed() else 0
  }

  lemma OverwriteAway(region: Flash, i: nat, bytes: Flash, j: nat)
    requires i + |bytes| <= |region| && j + ENTRY_SIZE <= |region|
    requires |bytes| == ENTRY_SIZE && (j + ENTRY_SIZE <= i || i + ENTRY_SIZE <= j)
    ensures EntryAt(Overwrite(region, i, bytes), j) == EntryAt(region, j)
  {
  }

  lemma OverwriteThere(region: Flash, i: nat, bytes: Flash)
    requires i + |bytes| <= |region| && |bytes| == ENTRY_SIZE
    ensures EntryAt(Overwrite(region, i, bytes), i) == bytes
  {
  }

  /** Past the written slot, or off it, nothing changes. */
  lemma {:induction false} FloorPast(region: Flash, stride: nat, at: nat, bytes: Flash, i: nat)
    requires stride >= ENTRY_SIZE == |bytes| && at + ENTRY_SIZE <= i && at + |bytes| <= |region|
    ensures FloorFrom(Overwrite(region, at, bytes), stride, i) == FloorFrom(region, stride, i)
    decreases |region| - i
  {
    hide Overwrite, EntryAt, EntryKey;
    if i + ENTRY_SIZE <= |region| {
      OverwriteAway(region, at, bytes, i);
      FloorPast(region, stride, at, bytes, i + stride);
    }
  }

  lemma {:induction false} FloorAfter(region: Flash, stride: nat, at: nat, bytes: Flash, i: nat)
    requires stride >= ENTRY_SIZE == |bytes| && OnGrid(i, stride, at) && at + |bytes| <= |region|
    requires KeyAt(region, at) == 0
    ensures var key := match EntryKey(bytes) case None => 0 case Some(k) => k;
      FloorFrom(Overwrite(region, at, bytes), stride, i) == Max(FloorFrom(region, stride, i), key)
    decreases at - i
  {
    hide Overwrite, EntryKey;
    if i == at {
      OverwriteThere(region, at, bytes);
      FloorPast(region, stride, at, bytes, i + stride);
    } else {
      OverwriteAway(region, at, bytes, i);
      FloorAfter(region, stride, at, bytes, i + stride);
    }
  }

  /** One append, whole or cut anywhere, raises the floor to its key exactly if it was completed,
      and never lowers it. */
  lemma AppendFloor(region: Flash, stride: nat, a: Append)
    requires stride >= ENTRY_SIZE && a.Possible()
    ensures Floor(After(region, stride, a), stride) == Max(Floor(region, stride), Accepted(region, stride, a))
  {
    hide EncodeEntry, EntryKey, FloorFrom, Overwrite, Blank;
    var slot := FirstBlank(region, stride, 0);
    if slot.Some? {
      BlankOnGrid(region, stride, 0);
      BlankHasNoKey();
      TornEntryReads(a.key, a.written);
      FloorAfter(region, stride, slot.value, a.written, 0);
    }
  }

  // ---- whole runs ----

  ghost predicate Run(appends: seq<Append>) {
    forall a | a in appends :: a.Possible()
  }

  ghost function Final(region: Flash, stride: nat, appends: seq<Append>): Flash
    requires stride > 0 && Run(appends)
    decreases |appends|
  {
    if appends == [] then region else Final(After(region, stride, appends[0]), stride, appends[1..])
  }

  /** The highest key whose append was completed in the run. */
  ghost function HighestLanded(region: Flash, stride: nat, appends: seq<Append>): nat
    requires stride > 0 && Run(appends)
    decreases |appends|
  {
    if appends == [] then 0
    else Max(Accepted(region, stride, appends[0]),
             HighestLanded(After(region, stride, appends[0]), stride, appends[1..]))
  }

  /** Over any run of appends, each completed or cut anywhere, the floor is the maximum of the one
      it began with and the completed keys. */
  lemma {:induction false} RunFloor(region: Flash, stride: nat, appends: seq<Append>)
    requires stride >= ENTRY_SIZE && Run(appends)
    ensures Floor(Final(region, stride, appends), stride)
         == Max(Floor(region, stride), HighestLanded(region, stride, appends))
    decreases |appends|
  {
    hide After, Floor, Accepted;
    if appends != [] {
      AppendFloor(region, stride, appends[0]);
      RunFloor(After(region, stride, appends[0]), stride, appends[1..]);
    }
  }

  lemma {:induction false} BlankFloor(stride: nat, n: nat, i: nat)
    requires stride > 0
    ensures FloorFrom(Blank(n), stride, i) == 0
    decreases n - i
  {
    if i + ENTRY_SIZE <= n {
      BlankHasNoKey();
      assert EntryAt(Blank(n), i) == Blank(ENTRY_SIZE);
      BlankFloor(stride, n, i + stride);
    }
  }

  /** From an erased region the floor is exactly the highest completed key. */
  lemma ErasedRunFloor(stride: nat, n: nat, appends: seq<Append>)
    requires stride >= ENTRY_SIZE && Run(appends)
    ensures Floor(Final(Blank(n), stride, appends), stride) == HighestLanded(Blank(n), stride, appends)
  {
    hide FloorFrom, HighestLanded, Final;
    BlankFloor(stride, n, 0);
    RunFloor(Blank(n), stride, appends);
  }

  /** The floor never decreases along a run. */
  lemma FloorNeverDecreases(region: Flash, stride: nat, appends: seq<Append>, k: nat)
    requires stride >= ENTRY_SIZE && Run(appends) && k <= |appends|
    ensures Floor(Final(region, stride, appends[..k]), stride) <= Floor(Final(region, stride, appends), stride)
  {
    hide FloorFrom, HighestLanded, Final;
    FinalSplit(region, stride, appends, k);
    RunFloor(Final(region, stride, appends[..k]), stride, appends[k..]);
  }

  lemma {:induction false} FinalSplit(region: Flash, stride: nat, appends: seq<Append>, k: nat)
    requires stride > 0 && Run(appends) && k <= |appends|
    ensures Final(region, stride, appends) == Final(Final(region, stride, appends[..k]), stride, appends[k..])
    decreases k
  {
    hide After;
    if k > 0 {
      FinalSplit(After(region, stride, appends[0]), stride, appends[1..], k - 1);
      assert appends[..k][1..] == appends[1..][..k - 1];
    } else {
      assert appends[..0] == [] && appends[0..] == appends;
    }
  }

  // ---- when there is room ----

  /** The blank slots from offset `i` on. */
  ghost function BlankSlots(region: Flash, stride: nat, i: nat): nat
    requires stride > 0
    decreases |region| - i
  {
    if i + ENTRY_SIZE > |region| then 0
    else BlankSlots(region, stride, i + stride) + if IsBlank(region, i) then 1 else 0
  }

  /** The highest key of the completed appends, wherever they went. */
  function MaxLanded(appends: seq<Append>): nat {
    if appends == [] then 0 else Max(appends[0].Landed(), MaxLanded(appends[1..]))
  }

  lemma {:induction false} BlanksPast(region: Flash, stride: nat, at: nat, bytes: Flash, i: nat)
    requires stride >= ENTRY_SIZE == |bytes| && at + ENTRY_SIZE <= i && at + |bytes| <= |region|
    ensures BlankSlots(Overwrite(region, at, bytes), stride, i) == BlankSlots(region, stride, i)
    decreases |region| - i
  {
    hide Overwrite, EntryAt, Blank;
    if i + ENTRY_SIZE <= |region| {
      OverwriteAway(region, at, bytes, i);
      BlanksPast(region, stride, at, bytes, i + stride);
    }
  }

  /** Writing one slot uses up at most that one. */
  lemma {:induction false} BlanksAfter(region: Flash, stride: nat, at: nat, bytes: Flash, i: nat)
    requires stride >= ENTRY_SIZE == |bytes| && OnGrid(i, stride, at) && at + |bytes| <= |region|
    ensures BlankSlots(Overwrite(region, at, bytes), stride, i) + 1 >= BlankSlots(region, stride, i)
    decreases at - i
  {
    hide Overwrite, EntryAt, Blank;
    if i == at {
      BlanksPast(region, stride, at, bytes, i + stride);
    } else {
      OverwriteAway(region, at, bytes, i);
      BlanksAfter(region, stride, at, bytes, i + stride);
    }
  }

  lemma {:induction false} BlankFound(region: Flash, stride: nat, i: nat)
    requires stride > 0
    ensures FirstBlank(region, stride, i).Some? <==> BlankSlots(region, stride, i) > 0
    decreases |region| - i
  {
    hide EntryAt, Blank;
    if i + ENTRY_SIZE <= |region| {
      BlankFound(region, stride, i + stride);
    }
  }

  lemma {:induction false} LandsAll(region: Flash, stride: nat, appends: seq<Append>)
    requires stride >= ENTRY_SIZE && Run(appends) && |appends| <= BlankSlots(region, stride, 0)
    ensures HighestLanded(region, stride, appends) == MaxLanded(appends)
    decreases |appends|
  {
    hide EntryAt, Blank, Overwrite, BlankSlots, FirstBlank, EncodeEntry;
    if appends != [] {
      assert appends[0].Possible();
      BlankFound(region, stride, 0);
      BlankOnGrid(region, stride, 0);
      BlanksAfter(region, stride, FirstBlank(region, stride, 0).value, appends[0].written, 0);
      LandsAll(After(region, stride, appends[0]), stride, appends[1..]);
    }
  }

  /** With a blank slot for each append, the floor after a run depends on nothing else: it is the
      first floor or the highest key whose append was completed. */
  lemma RunFloorWithRoom(region: Flash, stride: nat, appends: seq<Append>)
    requires stride >= ENTRY_SIZE && Run(appends) && |appends| <= BlankSlots(region, stride, 0)
    ensures Floor(Final(region, stride, appends), stride) == Max(Floor(region, stride), MaxLanded(appends))
  {
    hide Final, Floor, HighestLanded, BlankSlots;
    LandsAll(region, stride, appends);
    RunFloor(region, stride, appends);
  }

  // ---- slots ----

  lemma {:induction false} GridOfUnits(i: nat, stride: nat, n: nat)
    requires stride > 0
    ensures OnGrid(i, stride, i + n * stride)
    decreases n
  {
    if n > 0 {
      assert n * stride == stride + (n - 1) * stride && (n - 1) * stride >= 0;
      GridOfUnits(i + stride, stride, n - 1);
    }
  }

  lemma {:induction false} UnitsOfGrid(i: nat, stride: nat, j: nat) returns (n: nat)
    requires stride > 0 && OnGrid(i, stride, j)
    ensures j == i + n * stride
    decreases j - i
  {
    n := 0;
    if i != j {
      n := UnitsOfGrid(i + stride, stride, j);
      assert (n + 1) * stride == n * stride + stride;
      n := n + 1;
    }
  }

  ghost predicate IsMultiple(j: nat, stride: nat, n: nat) {
    j == n * stride
  }

  /** The slots are the multiples of the stride with sixteen bytes after them. */
  lemma SlotIs(region: Flash, stride: nat, j: nat)
    requires stride > 0
    ensures IsSlot(region, stride, j) <==> (exists n: nat :: IsMultiple(j, stride, n)) && j + 16 <= |region|
  {
    if OnGrid(0, stride, j) {
      var n := UnitsOfGrid(0, stride, j);
      assert IsMultiple(j, stride, n);
    }
    if n: nat :| IsMultiple(j, stride, n) {
      GridOfUnits(0, stride, n);
    }
  }
}
