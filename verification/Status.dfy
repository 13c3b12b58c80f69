/**
  The slot status sector (src/openmv_ota/ota/status.py): where its records sit for a control stride,
  how a sector is built, and that each record can be programmed later without touching another.
 */
module Status {
  import opened Wrappers
  import Bytes
  import opened Rollback
  import opened FloorLog

  const MARKER_SIZE := 16
  const COUNTER_SIZE := 8
  const ATTEMPTS_MAX := 64
  const FLOOR_ENTRIES := 64
  const MIN_SECTOR := 4096

  /** 2^32 - 1. */
  const MASK32 := 0xFFFF_FFFF

  // ---- the layout ----

  function Unit(stride: nat): nat {
    if stride > 16 then stride else 16
  }

  function PendingOffset(stride: nat): nat { 0 }

  function TriedOffset(stride: nat): nat { stride }

  function ConfirmedOffset(stride: nat): nat { 2 * stride }

  function ReprOffset(stride: nat): nat { 3 * stride }

  function CounterOffset(stride: nat): nat { 4 * stride }

  function AttemptsOffset(stride: nat): nat { 5 * stride }

  function FloorOffset(stride: nat): nat {
    AttemptsOffset(stride) + ATTEMPTS_MAX * Unit(stride)
  }

  function FloorEntries(stride: nat): int {
    var fit := (MIN_SECTOR - FloorOffset(stride)) / (2 * Unit(stride));
    if FLOOR_ENTRIES < fit then FLOOR_ENTRIES else fit
  }

  function EpochOffset(stride: nat): int {
    FloorOffset(stride) + FloorEntries(stride) * Unit(stride)
  }

  /** The records of a sector. A floor record is one entry of its region. */
  datatype Field =
    | Pending | Tried | Confirmed | Repr | Counter
    | Attempt(k: nat) | FloorEntry(k: nat) | EpochEntry(k: nat)

  predicate Exists(f: Field, stride: nat) {
    match f
    case Attempt(k) => k < ATTEMPTS_MAX
    case FloorEntry(k) => k < FloorEntries(stride)
    case EpochEntry(k) => k < FloorEntries(stride)
    case _ => true
  }

  function Start(f: Field, stride: nat): int {
    match f
    case Pending => PendingOffset(stride)
    case Tried => TriedOffset(stride)
    case Confirmed => ConfirmedOffset(stride)
    case Repr => ReprOffset(stride)
    case Counter => CounterOffset(stride)
    case Attempt(k) => AttemptsOffset(stride) + k * Unit(stride)
    case FloorEntry(k) => FloorOffset(stride) + k * Unit(stride)
    case EpochEntry(k) => EpochOffset(stride) + k * Unit(stride)
  }

  function Size(f: Field): nat {
    if f.Counter? then COUNTER_SIZE else 16
  }

  predicate Apart(f: Field, g: Field, stride: nat) {
    Start(f, stride) + Size(f) <= Start(g, stride) || Start(g, stride) + Size(g) <= Start(f, stride)
  }

  /** All records are in the smallest sector, apart from each other, and each floor has an entry. */
  ghost predicate Sound(stride: nat) {
    && FloorEntries(stride) >= 1
    && (forall f | Exists(f, stride) :: 0 <= Start(f, stride) && Start(f, stride) + Size(f) <= MIN_SECTOR)
    && forall f, g | Exists(f, stride) && Exists(g, stride) && f != g :: Apart(f, g, stride)
  }

  predicate StrideOk(stride: nat) {
    16 <= stride <= 57
  }

  /** For a good stride, a record's place in units of it. */
  function Rank(f: Field, stride: nat): int {
    match f
    case Pending => 0
    case Tried => 1
    case Confirmed => 2
    case Repr => 3
    case Counter => 4
    case Attempt(k) => 5 + k
    case FloorEntry(k) => 69 + k
    case EpochEntry(k) => 69 + FloorEntries(stride) + k
  }

  lemma RegionsFit(stride: nat)
    requires StrideOk(stride)
    ensures 1 <= FloorEntries(stride) && FloorOffset(stride) == 69 * stride
    ensures EpochOffset(stride) == (69 + FloorEntries(stride)) * stride
    ensures (69 + 2 * FloorEntries(stride)) * stride <= MIN_SECTOR
  {
    var room, unit := MIN_SECTOR - 69 * stride, 2 * stride;
    Quotient(room, unit);
    RegionsShare(FloorEntries(stride), room / unit, stride);
  }

  lemma Quotient(room: nat, unit: nat)
    requires 0 < unit <= room
    ensures 1 <= room / unit && (room / unit) * unit <= room
  {
  }

  lemma RegionsShare(n: int, q: int, stride: nat)
    requires n <= q
    ensures (69 + 2 * n) * stride <= 69 * stride + q * (2 * stride)
  {
    var d := q - n;
    assert q * (2 * stride) == n * (2 * stride) + d * (2 * stride);
    assert (69 + 2 * n) * stride == 69 * stride + n * (2 * stride);
    assert d * (2 * stride) >= 0;
  }

  lemma StartIsRank(f: Field, stride: nat)
    requires StrideOk(stride) && Exists(f, stride)
    ensures Start(f, stride) == Rank(f, stride) * stride
    ensures 0 <= Rank(f, stride) < 69 + 2 * FloorEntries(stride)
  {
    hide FloorEntries;
    RegionsFit(stride);
  }

  lemma Times(a: int, b: int, stride: nat)
    ensures a < b ==> a * stride + stride <= b * stride
  {
    var d := b - a - 1;
    assert b * stride == a * stride + stride + d * stride;
    assert d >= 0 ==> d * stride >= 0;
  }

  lemma FieldsApart(f: Field, g: Field, stride: nat)
    requires StrideOk(stride) && Exists(f, stride) && Exists(g, stride) && f != g
    ensures Apart(f, g, stride)
  {
    hide FloorEntries, Start;
    StartIsRank(f, stride);
    StartIsRank(g, stride);
    Times(Rank(f, stride), Rank(g, stride), stride);
    Times(Rank(g, stride), Rank(f, stride), stride);
  }

  lemma FieldInside(f: Field, stride: nat)
    requires StrideOk(stride) && Exists(f, stride)
    ensures 0 <= Start(f, stride) && Start(f, stride) + Size(f) <= MIN_SECTOR
  {
    hide FloorEntries, Start;
    StartIsRank(f, stride);
    RegionsFit(stride);
    Times(Rank(f, stride), 69 + 2 * FloorEntries(stride), stride);
    Times(-1, Rank(f, stride), stride);
  }

  /** The strides for which the layout works are exactly 16 to 57. */
  lemma LayoutSound(stride: nat)
    ensures Sound(stride) <==> StrideOk(stride)
  {
    if StrideOk(stride) {
      RegionsFit(stride);
      hide FloorEntries, Start, Exists;
      forall f | Exists(f, stride)
        ensures 0 <= Start(f, stride) && Start(f, stride) + Size(f) <= MIN_SECTOR
      {
        FieldInside(f, stride);
      }
      forall f, g | Exists(f, stride) && Exists(g, stride) && f != g
        ensures Apart(f, g, stride)
      {
        FieldsApart(f, g, stride);
      }
    } else if stride < 16 {
      assert Exists(Pending, stride) && Exists(Tried, stride) && !Apart(Pending, Tried, stride);
    } else {
      assert MIN_SECTOR - 69 * stride < 2 * stride;
      NoRoom(MIN_SECTOR - 69 * stride, 2 * stride);
    }
  }

  lemma NoRoom(room: int, unit: nat)
    requires unit > 0 && room < unit
    ensures room / unit < 1
  {
    Times(0, room / unit, unit);
  }

  // ---- building a sector ----

  /** The marker values: sixteen bytes each, none of them what erased flash reads. */
  datatype Markers = Markers(pending: Flash, tried: Flash, confirmed: Flash) {
    predicate Ok() {
      && |pending| == |tried| == |confirmed| == MARKER_SIZE
      && Blank(MARKER_SIZE) != pending && Blank(MARKER_SIZE) != tried && Blank(MARKER_SIZE) != confirmed
    }
  }

  datatype Args = Args(pending: bool, tried: bool, confirmed: bool, counter: Option<int>, floorKey: Option<int>,
                       epoch: Option<int>)

  const NOTHING := Args(false, false, false, None, None, None)

  /** The u32 and its ones-complement. */
  function EncodeCounter(value: int): (r: Flash)
    ensures |r| == COUNTER_SIZE
  {
    Le(value % (MASK32 + 1), 4) + Le(MASK32 - value % (MASK32 + 1), 4)
  }

  /** The counter in its field; none when the halves disagree. */
  function CounterIn(bytes: Flash): Option<nat>
    requires |bytes| == COUNTER_SIZE
  {
    var value, check := Value(bytes[..4]), Value(bytes[4..]);
    if MASK32 - value == check then Some(value) else None
  }

  function Content(m: Markers, args: Args, f: Field): (r: Flash)
    requires m.Ok()
    ensures |r| == Size(f)
  {
    match f
    case Pending => if args.pending then m.pending else Blank(MARKER_SIZE)
    case Tried => if args.tried then m.tried else Blank(MARKER_SIZE)
    case Confirmed => if args.confirmed then m.confirmed else Blank(MARKER_SIZE)
    case Counter => if args.counter.Some? then EncodeCounter(args.counter.value) else Blank(COUNTER_SIZE)
    case FloorEntry(k) => if k == 0 && args.floorKey.Some? then EncodeEntry(args.floorKey.value) else Blank(16)
    case EpochEntry(k) => if k == 0 && args.epoch.Some? then EncodeEntry(args.epoch.value) else Blank(16)
    case _ => Blank(16)
  }

  predicate Written(args: Args, f: Field) {
    match f
    case Pending => args.pending
    case Tried => args.tried
    case Confirmed => args.confirmed
    case Counter => args.counter.Some?
    case FloorEntry(k) => k == 0 && args.floorKey.Some?
    case EpochEntry(k) => k == 0 && args.epoch.Some?
    case _ => false
  }

  function Record(sector: Flash, stride: nat, f: Field): Flash
    requires StrideOk(stride) && Exists(f, stride) && |sector| >= MIN_SECTOR
  {
    FieldInside(f, stride);
    sector[Start(f, stride)..Start(f, stride) + Size(f)]
  }

  predicate Covers(f: Field, stride: nat, i: int) {
    Start(f, stride) <= i < Start(f, stride) + Size(f)
  }

  /** The sector asked for: each record as it should read, and every other byte erased. */
  ghost predicate Image(sector: Flash, block: nat, stride: nat, m: Markers, args: Args)
    requires StrideOk(stride) && block >= MIN_SECTOR && m.Ok()
  {
    && |sector| == block
    && (forall f | Exists(f, stride) :: Record(sector, stride, f) == Content(m, args, f))
    && forall i | 0 <= i < block && (forall f | Written(args, f) :: !Covers(f, stride, i)) :: sector[i] == ERASED
  }

  lemma SmallestFits(sector: Flash)
    requires |sector| >= MIN_SECTOR
    ensures |sector| >= 4096 && MIN_SECTOR == 4096
  {
  }

  lemma RecordSlice(sector: Flash, stride: nat, f: Field)
    requires StrideOk(stride) && Exists(f, stride) && |sector| >= MIN_SECTOR
    ensures 0 <= Start(f, stride) && Start(f, stride) + Size(f) <= |sector|
    ensures Record(sector, stride, f) == sector[Start(f, stride)..Start(f, stride) + Size(f)]
  {
    hide Start, Size, Exists;
    FieldInside(f, stride);
  }

  lemma ApartMeans(f: Field, g: Field, stride: nat)
    requires Apart(f, g, stride)
    ensures Start(f, stride) + Size(f) <= Start(g, stride) || Start(g, stride) + Size(g) <= Start(f, stride)
  {
  }

  lemma RecordAfter(sector: Flash, stride: nat, f: Field, bytes: Flash, g: Field)
    requires StrideOk(stride) && Exists(f, stride) && Exists(g, stride)
    requires |sector| >= MIN_SECTOR && |bytes| == Size(f)
    ensures 0 <= Start(f, stride) && Start(f, stride) + |bytes| <= |sector|
    ensures Record(Overwrite(sector, Start(f, stride), bytes), stride, g)
         == if f == g then bytes else Record(sector, stride, g)
  {
    hide *;
    FieldInside(f, stride);
    FieldInside(g, stride);
    SmallestFits(sector);
    var sector', at := Overwrite(sector, Start(f, stride), bytes), Start(g, stride);
    RecordSlice(sector, stride, g);
    RecordSlice(sector', stride, g);
    if f != g {
      FieldsApart(f, g, stride);
      ApartMeans(f, g, stride);
      SliceAway(sector, Start(f, stride), bytes, at, at + Size(g));
    } else {
      SliceThere(sector, Start(f, stride), bytes);
    }
  }

  method Put(sector: array<bv8>, at: nat, bytes: Flash)
    requires at + |bytes| <= sector.Length
    modifies sector
    ensures sector[..] == Overwrite(old(sector[..]), at, bytes)
  {
    for i := 0 to |bytes|
      invariant forall j | 0 <= j < sector.Length ::
        sector[j] == if at <= j < at + i then bytes[j - at] else old(sector[j])
    {
      sector[at + i] := bytes[i];
    }
  }

  /** One record asked for: what it takes to go from one image to the next. */
  lemma ImageStep(sector: Flash, block: nat, stride: nat, m: Markers, args: Args, f: Field, args': Args)
    requires StrideOk(stride) && block >= MIN_SECTOR && m.Ok() && Exists(f, stride)
    requires Image(sector, block, stride, m, args) && Written(args', f)
    requires forall g | g != f ::
      Content(m, args', g) == Content(m, args, g) && (Written(args', g) <==> Written(args, g))
    ensures 0 <= Start(f, stride) && Start(f, stride) + Size(f) <= |sector|
    ensures Image(Overwrite(sector, Start(f, stride), Content(m, args', f)), block, stride, m, args')
  {
    hide Start, Exists, FloorEntries, Content, Written, Record, Overwrite;
    FieldInside(f, stride);
    var sector' := Overwrite(sector, Start(f, stride), Content(m, args', f));
    forall g | Exists(g, stride)
      ensures Record(sector', stride, g) == Content(m, args', g)
    {
      RecordAfter(sector, stride, f, Content(m, args', f), g);
    }
    forall i | 0 <= i < block && (forall g | Written(args', g) :: !Covers(g, stride, i))
      ensures sector'[i] == ERASED
    {
      OverwriteOutside(sector, Start(f, stride), Content(m, args', f), i);
      forall g | Written(args, g)
        ensures !Covers(g, stride, i)
      {
        assert g == f || Written(args', g);
      }
    }
  }

  lemma SliceAway(region: Flash, at: nat, bytes: Flash, from: nat, to: nat)
    requires at + |bytes| <= |region| && from <= to <= |region| && (to <= at || at + |bytes| <= from)
    ensures Overwrite(region, at, bytes)[from..to] == region[from..to]
  {
  }

  lemma SliceThere(region: Flash, at: nat, bytes: Flash)
    requires at + |bytes| <= |region|
    ensures Overwrite(region, at, bytes)[at..at + |bytes|] == bytes
  {
  }

  lemma OverwriteOutside(region: Flash, at: nat, bytes: Flash, i: nat)
    requires at + |bytes| <= |region| && i < |region| && !(at <= i < at + |bytes|)
    ensures Overwrite(region, at, bytes)[i] == region[i]
  {
  }

  method BuildStatusSector(m: Markers, block: nat, args: Args, stride: nat) returns (sector: array<bv8>)
    requires StrideOk(stride) && block >= MIN_SECTOR && m.Ok()
    ensures fresh(sector) && Image(sector[..], block, stride, m, args)
    ensures SectorIs(sector[..], block, stride, m, args)
  {
    hide SectorIs, Image, Content, Written, Record, Overwrite, Start, EncodeCounter, EncodeEntry, FloorOffset,
      EpochOffset;
    ghost var built := NOTHING;
    Places(m, args, stride);
    sector := new bv8[block](_ => ERASED);
    BlankImage(sector[..], block, stride, m);
    if args.pending {
      SetStep(sector[..], block, stride, m, built, Pending, built.(pending := true));
      SameContent(m, built.(pending := true), args, Pending);
      Put(sector, PendingOffset(stride), m.pending);
      built := built.(pending := true);
    }
    if args.tried {
      SetStep(sector[..], block, stride, m, built, Tried, built.(tried := true));
      SameContent(m, built.(tried := true), args, Tried);
      Put(sector, TriedOffset(stride), m.tried);
      built := built.(tried := true);
    }
    if args.confirmed {
      SetStep(sector[..], block, stride, m, built, Confirmed, built.(confirmed := true));
      SameContent(m, built.(confirmed := true), args, Confirmed);
      Put(sector, ConfirmedOffset(stride), m.confirmed);
      built := built.(confirmed := true);
    }
    if args.counter.Some? {
      SetStep(sector[..], block, stride, m, built, Counter, built.(counter := args.counter));
      SameContent(m, built.(counter := args.counter), args, Counter);
      Put(sector, CounterOffset(stride), EncodeCounter(args.counter.value));
      built := built.(counter := args.counter);
    }
    if args.floorKey.Some? {
      SetStep(sector[..], block, stride, m, built, FloorEntry(0), built.(floorKey := args.floorKey));
      SameContent(m, built.(floorKey := args.floorKey), args, FloorEntry(0));
      Put(sector, FloorOffset(stride), EncodeEntry(args.floorKey.value));
      built := built.(floorKey := args.floorKey);
    }
    if args.epoch.Some? {
      SetStep(sector[..], block, stride, m, built, EpochEntry(0), built.(epoch := args.epoch));
      SameContent(m, built.(epoch := args.epoch), args, EpochEntry(0));
      Put(sector, EpochOffset(stride), EncodeEntry(args.epoch.value));
      built := built.(epoch := args.epoch);
    }
    assert built == args;
    ImageIs(sector[..], block, stride, m, args);
  }

  // ---- the sector in numbers ----

  ghost predicate Holds(sector: Flash, at: nat, bytes: Flash) {
    at + |bytes| <= |sector| && sector[at..at + |bytes|] == bytes
  }

  ghost predicate Erased(sector: Flash, from: nat, to: nat) {
    from <= to <= |sector| && forall i | from <= i < to :: sector[i] == 0xFF
  }

  /** `n` bytes at `at`: those asked for, or erased flash. */
  ghost predicate HoldsIf(sector: Flash, at: nat, asked: bool, bytes: Flash) {
    if asked then Holds(sector, at, bytes) else Erased(sector, at, at + |bytes|)
  }

  /** How many entries each floor region has. */
  ghost function RegionEntries(stride: nat): int
    requires 16 <= stride
  {
    var fit := (4096 - 69 * stride) / (2 * stride);
    if fit > 64 then 64 else fit
  }

  /** Where the epoch's entry is. */
  ghost function EpochAt(stride: nat): int
    requires 16 <= stride
  {
    (69 + RegionEntries(stride)) * stride
  }

  function KeyOr0(key: Option<int>): int {
    if key.Some? then key.value else 0
  }

  /** What a sector holds, by offsets: three markers, the provenance record and the counter a stride
      apart, 64 attempts from the sixth stride on, the floor's entry after them, and the epoch's after
      the floor's region. All else is erased. */
  ghost predicate SectorIs(sector: Flash, block: nat, stride: nat, m: Markers, args: Args)
    requires 16 <= stride && m.Ok()
  {
    && |sector| == block && EpochAt(stride) >= 0
    && HoldsIf(sector, 0, args.pending, m.pending)
    && HoldsIf(sector, stride, args.tried, m.tried)
    && HoldsIf(sector, 2 * stride, args.confirmed, m.confirmed)
    && Erased(sector, 3 * stride, 4 * stride)
    && HoldsIf(sector, 4 * stride, args.counter.Some?, EncodeCounter(KeyOr0(args.counter)))
    && Erased(sector, 4 * stride + 8, 69 * stride)
    && HoldsIf(sector, 69 * stride, args.floorKey.Some?, EncodeEntry(KeyOr0(args.floorKey)))
    && Erased(sector, 69 * stride + 16, EpochAt(stride))
    && HoldsIf(sector, EpochAt(stride), args.epoch.Some?, EncodeEntry(KeyOr0(args.epoch)))
    && Erased(sector, EpochAt(stride) + 16, block)
  }

  /** Each record's place, in numbers. */
  lemma StartsAt(f: Field, stride: nat)
    requires StrideOk(stride) && Exists(f, stride)
    ensures FloorEntries(stride) == RegionEntries(stride)
    ensures Start(f, stride) ==
      match f
      case Pending => 0
      case Tried => stride
      case Confirmed => 2 * stride
      case Repr => 3 * stride
      case Counter => 4 * stride
      case Attempt(k) => (5 + k) * stride
      case FloorEntry(k) => (69 + k) * stride
      case EpochEntry(k) => EpochAt(stride) + k * stride
  {
  }

  lemma HoldsAt(sector: Flash, block: nat, stride: nat, m: Markers, args: Args, f: Field, at: nat,
                asked: bool, bytes: Flash)
    requires StrideOk(stride) && block >= MIN_SECTOR && m.Ok() && Image(sector, block, stride, m, args)
    requires Exists(f, stride) && Start(f, stride) == at && Size(f) == |bytes|
    requires Content(m, args, f) == if asked then bytes else Blank(|bytes|)
    ensures HoldsIf(sector, at, asked, bytes)
  {
    hide Image, Content, Start, Size, Exists, EncodeEntry, EncodeCounter;
    RecordIs(sector, block, stride, m, args, f);
    FieldInside(f, stride);
    var record := Record(sector, stride, f);
    assert forall i | at <= i < at + |bytes| :: sector[i] == record[i - at];
  }

  /** Where no record asked for reaches, the flash is erased. */
  lemma ErasedFrom(sector: Flash, block: nat, stride: nat, m: Markers, args: Args, from: nat, to: nat)
    requires StrideOk(stride) && block >= MIN_SECTOR && m.Ok() && Image(sector, block, stride, m, args)
    requires from <= to <= block
    requires forall f | Written(args, f) :: Start(f, stride) + Size(f) <= from || to <= Start(f, stride)
    ensures Erased(sector, from, to)
  {
    hide Record, Content, Exists, Start, Written, Size;
    forall i | from <= i < to
      ensures |sector| == block && sector[i] == 0xFF
    {
      assert forall f | Written(args, f) :: !Covers(f, stride, i);
    }
  }

  /** The range misses `size` bytes at `at`. */
  predicate Misses(from: nat, to: nat, at: int, size: nat) {
    at + size <= from || to <= at
  }

  lemma ErasedGap(sector: Flash, block: nat, stride: nat, m: Markers, args: Args, from: nat, to: nat)
    requires StrideOk(stride) && block >= MIN_SECTOR && m.Ok() && Image(sector, block, stride, m, args)
    requires from <= to <= block
    requires Misses(from, to, 0, 16) && Misses(from, to, stride, 16) && Misses(from, to, 2 * stride, 16)
    requires Misses(from, to, 4 * stride, 8) && Misses(from, to, 69 * stride, 16)
    requires Misses(from, to, EpochAt(stride), 16)
    ensures Erased(sector, from, to)
  {
    hide Image, Exists, Start, EpochAt, RegionEntries, FloorEntries;
    forall f | Written(args, f)
      ensures Start(f, stride) + Size(f) <= from || to <= Start(f, stride)
    {
      WrittenExists(args, f, stride);
      StartsAt(f, stride);
    }
    ErasedFrom(sector, block, stride, m, args, from, to);
  }

  lemma EpochAfter(stride: nat)
    requires StrideOk(stride)
    ensures 69 * stride + 16 <= EpochAt(stride) && EpochAt(stride) + 16 <= MIN_SECTOR
  {
    hide FloorOffset, EpochOffset, EpochEnd, FloorEntries, RegionEntries, EpochAt;
    RegionBounds(stride);
    RegionsFit(stride);
    hide Start;
    FirstPlaces(stride);
    FirstEntries(stride);
  }

  lemma FirstPlaces(stride: nat)
    requires StrideOk(stride)
    ensures Exists(FloorEntry(0), stride) && Exists(EpochEntry(0), stride)
    ensures Start(EpochEntry(0), stride) == EpochAt(stride)
  {
    hide Start, EpochAt, RegionEntries, FloorEntries;
    RegionsFit(stride);
    StartsAt(EpochEntry(0), stride);
  }

  lemma ImageIs(sector: Flash, block: nat, stride: nat, m: Markers, args: Args)
    requires StrideOk(stride) && block >= MIN_SECTOR && m.Ok() && Image(sector, block, stride, m, args)
    ensures SectorIs(sector, block, stride, m, args)
  {
    hide Image, Start, EpochAt, RegionEntries, FloorEntries, HoldsIf, Erased, EncodeEntry, EncodeCounter;
    EpochAfter(stride);
    FirstPlaces(stride);
    ImageSize(sector, block, stride, m, args);
    var e := EpochAt(stride);
    StartsAt(Pending, stride);
    StartsAt(Tried, stride);
    StartsAt(Confirmed, stride);
    StartsAt(Counter, stride);
    StartsAt(FloorEntry(0), stride);
    HoldsAt(sector, block, stride, m, args, Pending, 0, args.pending, m.pending);
    HoldsAt(sector, block, stride, m, args, Tried, stride, args.tried, m.tried);
    HoldsAt(sector, block, stride, m, args, Confirmed, 2 * stride, args.confirmed, m.confirmed);
    HoldsAt(sector, block, stride, m, args, Counter, 4 * stride, args.counter.Some?,
            EncodeCounter(KeyOr0(args.counter)));
    HoldsAt(sector, block, stride, m, args, FloorEntry(0), 69 * stride, args.floorKey.Some?,
            EncodeEntry(KeyOr0(args.floorKey)));
    HoldsAt(sector, block, stride, m, args, EpochEntry(0), e, args.epoch.Some?, EncodeEntry(KeyOr0(args.epoch)));
    ErasedGap(sector, block, stride, m, args, 3 * stride, 4 * stride);
    ErasedGap(sector, block, stride, m, args, 4 * stride + 8, 69 * stride);
    ErasedGap(sector, block, stride, m, args, 69 * stride + 16, e);
    ErasedGap(sector, block, stride, m, args, e + 16, block);
  }

  /** The two floor regions, by offsets. */
  lemma RegionsAt(sector: Flash, stride: nat)
    requires StrideOk(stride) && |sector| >= MIN_SECTOR
    ensures 0 <= EpochAt(stride) - 69 * stride == RegionEntries(stride) * stride
    ensures EpochAt(stride) + RegionEntries(stride) * stride <= |sector|
    ensures FloorRegion(sector, stride) == sector[69 * stride..EpochAt(stride)]
    ensures EpochRegion(sector, stride) == sector[EpochAt(stride)..EpochAt(stride) + RegionEntries(stride) * stride]
  {
    RegionBounds(stride);
    RegionsFit(stride);
    FirstPlaces(stride);
    StartsAt(Pending, stride);
    FirstEntries(stride);
    hide RegionEntries, FloorEntries, Start, FloorOffset, EpochOffset;
  }

  lemma Pow256At4()
    ensures Bytes.Pow256(4) == MASK32 + 1
  {
  }

  lemma CounterParts(value: int, i: nat)
    requires i < 4
    ensures EncodeCounter(value)[i] == Le(value % (MASK32 + 1), 4)[i]
    ensures EncodeCounter(value)[4 + i] == Le(MASK32 - value % (MASK32 + 1), 4)[i]
  {
    hide Le;
  }

  /** The counter's four bytes, the lowest first, and then each of them complemented. */
  lemma CounterBytes(value: int, i: nat)
    requires i < 4
    ensures EncodeCounter(value)[i] as int == Bytes.Word32(value % 0x1_0000_0000)[i]
    ensures EncodeCounter(value)[4 + i] as int == 255 - Bytes.Word32(value % 0x1_0000_0000)[i]
  {
    var v: nat := value % (MASK32 + 1);
    hide Bytes.Pow256, Le, Bytes.Word32, EncodeCounter;
    Pow256At4();
    CounterParts(value, i);
    LeByte(v, 4, i);
    Bytes.LeIsWord32(v);
    LeComplement(v, MASK32 - v, 4, i);
    NotIs(Le(v, 4)[i]);
  }

  lemma SameContent(m: Markers, args: Args, args': Args, f: Field)
    requires m.Ok()
    requires match f
      case Pending => args.pending == args'.pending
      case Tried => args.tried == args'.tried
      case Confirmed => args.confirmed == args'.confirmed
      case Counter => args.counter == args'.counter
      case FloorEntry(_) => args.floorKey == args'.floorKey
      case EpochEntry(_) => args.epoch == args'.epoch
      case _ => true
    ensures Content(m, args, f) == Content(m, args', f)
  {
  }

  /** `args'` asks for what `args` does, and for the record `f`. */
  predicate Adds(args: Args, f: Field, args': Args) {
    match f
    case Pending => args' == args.(pending := true)
    case Tried => args' == args.(tried := true)
    case Confirmed => args' == args.(confirmed := true)
    case Counter => args'.counter.Some? && args' == args.(counter := args'.counter)
    case FloorEntry(k) => k == 0 && args'.floorKey.Some? && args' == args.(floorKey := args'.floorKey)
    case EpochEntry(k) => k == 0 && args'.epoch.Some? && args' == args.(epoch := args'.epoch)
    case _ => false
  }

  /** Where a record that is asked for goes, and what it should read. */
  lemma Places(m: Markers, args: Args, stride: nat)
    requires m.Ok()
    ensures Start(Pending, stride) == PendingOffset(stride) && Start(Tried, stride) == TriedOffset(stride)
    ensures Start(Confirmed, stride) == ConfirmedOffset(stride) && Start(Counter, stride) == CounterOffset(stride)
    ensures Start(FloorEntry(0), stride) == FloorOffset(stride) && Start(EpochEntry(0), stride) == EpochOffset(stride)
    ensures args.pending ==> Content(m, args, Pending) == m.pending
    ensures args.tried ==> Content(m, args, Tried) == m.tried
    ensures args.confirmed ==> Content(m, args, Confirmed) == m.confirmed
    ensures args.counter.Some? ==> Content(m, args, Counter) == EncodeCounter(args.counter.value)
    ensures args.floorKey.Some? ==> Content(m, args, FloorEntry(0)) == EncodeEntry(args.floorKey.value)
    ensures args.epoch.Some? ==> Content(m, args, EpochEntry(0)) == EncodeEntry(args.epoch.value)
  {
    hide EncodeEntry, EncodeCounter, FloorOffset, EpochOffset;
  }

  lemma SetStep(sector: Flash, block: nat, stride: nat, m: Markers, args: Args, f: Field, args': Args)
    requires StrideOk(stride) && block >= MIN_SECTOR && m.Ok()
    requires Image(sector, block, stride, m, args) && Adds(args, f, args')
    ensures 0 <= Start(f, stride) && Start(f, stride) + Size(f) <= |sector|
    ensures Image(Overwrite(sector, Start(f, stride), Content(m, args', f)), block, stride, m, args')
  {
    AddsExists(args, f, args', stride);
    hide Image, Overwrite, Content, Written, Exists, Adds, Start;
    forall g | g != f
      ensures Content(m, args', g) == Content(m, args, g) && (Written(args', g) <==> Written(args, g))
    {
      AddsOnly(m, args, f, args', g);
    }
    ImageStep(sector, block, stride, m, args, f, args');
  }

  lemma AddsExists(args: Args, f: Field, args': Args, stride: nat)
    requires StrideOk(stride) && Adds(args, f, args')
    ensures Exists(f, stride) && Written(args', f)
  {
    RegionsFit(stride);
  }

  lemma AddsOnly(m: Markers, args: Args, f: Field, args': Args, g: Field)
    requires m.Ok() && Adds(args, f, args') && g != f
    ensures Content(m, args', g) == Content(m, args, g) && (Written(args', g) <==> Written(args, g))
  {
  }

  lemma BlankImage(sector: Flash, block: nat, stride: nat, m: Markers)
    requires StrideOk(stride) && block >= MIN_SECTOR && m.Ok()
    requires |sector| == block && forall i | 0 <= i < block :: sector[i] == ERASED
    ensures Image(sector, block, stride, m, NOTHING)
  {
    hide Start, Exists, FloorEntries;
    forall f | Exists(f, stride)
      ensures Record(sector, stride, f) == Content(m, NOTHING, f)
    {
      FieldInside(f, stride);
      assert Content(m, NOTHING, f) == Blank(Size(f));
    }
  }

  // ---- reading a sector ----

  function EpochEnd(stride: nat): int {
    EpochOffset(stride) + FloorEntries(stride) * Unit(stride)
  }

  lemma RegionBounds(stride: nat)
    requires StrideOk(stride)
    ensures 0 <= FloorOffset(stride) && FloorOffset(stride) + ENTRY_SIZE <= EpochOffset(stride)
    ensures EpochOffset(stride) + ENTRY_SIZE <= EpochEnd(stride) <= MIN_SECTOR
  {
    RegionsFit(stride);
    hide FloorEntries;
    Times(0, FloorEntries(stride), stride);
  }

  /** Every record is before the floors, in the first, or in the second. */
  lemma PlaceOf(f: Field, stride: nat)
    requires StrideOk(stride) && Exists(f, stride)
    ensures f.FloorEntry? ==> FloorOffset(stride) <= Start(f, stride) <= EpochOffset(stride) - ENTRY_SIZE
    ensures f.EpochEntry? ==> EpochOffset(stride) <= Start(f, stride) <= EpochEnd(stride) - ENTRY_SIZE
    ensures !f.FloorEntry? && !f.EpochEntry? ==> Start(f, stride) + Size(f) <= FloorOffset(stride)
  {
    RegionsFit(stride);
    StartIsRank(f, stride);
    hide FloorEntries;
    if f.FloorEntry? || f.EpochEntry? {
      Times(f.k, FloorEntries(stride), stride);
      Times(-1, f.k, stride);
    } else {
      Times(Rank(f, stride), 69, stride);
    }
  }

  function FloorRegion(sector: Flash, stride: nat): Flash
    requires StrideOk(stride) && |sector| >= MIN_SECTOR
  {
    RegionBounds(stride);
    sector[FloorOffset(stride)..EpochOffset(stride)]
  }

  function EpochRegion(sector: Flash, stride: nat): Flash
    requires StrideOk(stride) && |sector| >= MIN_SECTOR
  {
    RegionBounds(stride);
    sector[EpochOffset(stride)..EpochEnd(stride)]
  }

  function KeyAsked(key: Option<int>): nat {
    if key.Some? then key.value % (MASK + 1) else 0
  }

  /** A region erased but for the entry asked for at its start. */
  ghost predicate Seeded(region: Flash, key: Option<int>) {
    && |region| >= ENTRY_SIZE
    && region[..ENTRY_SIZE] == (if key.Some? then EncodeEntry(key.value) else Blank(ENTRY_SIZE))
    && forall i | ENTRY_SIZE <= i < |region| :: region[i] == ERASED
  }

  lemma SeededFloor(region: Flash, key: Option<int>, stride: nat)
    requires stride >= ENTRY_SIZE && Seeded(region, key)
    ensures Floor(region, stride) == KeyAsked(key)
  {
    hide EncodeEntry, EntryKey, FloorFrom;
    var n := |region|;
    var entry := region[..ENTRY_SIZE];
    assert region == Overwrite(Blank(n), 0, entry);
    assert EntryAt(Blank(n), 0) == Blank(ENTRY_SIZE);
    BlankHasNoKey();
    BlankFloor(stride, n, 0);
    if key.Some? {
      EncodedKey(key.value);
    }
    FloorAfter(Blank(n), stride, 0, entry, 0);
  }

  lemma WrittenExists(args: Args, f: Field, stride: nat)
    requires StrideOk(stride) && Written(args, f)
    ensures Exists(f, stride)
  {
    RegionsFit(stride);
  }

  /** Past its first entry, no record asked for reaches into a floor region. */
  lemma ErasedRest(sector: Flash, block: nat, stride: nat, m: Markers, args: Args, i: int)
    requires StrideOk(stride) && block >= MIN_SECTOR && m.Ok() && Image(sector, block, stride, m, args)
    requires FloorOffset(stride) + ENTRY_SIZE <= i < block
    requires i < EpochOffset(stride) || EpochOffset(stride) + ENTRY_SIZE <= i
    ensures |sector| == block && sector[i] == ERASED
  {
    hide FloorEntries, EncodeEntry, Content, Start, Exists, Record, Blank, FloorOffset, EpochOffset, EpochEnd;
    RegionBounds(stride);
    forall f | Written(args, f)
      ensures !Covers(f, stride, i)
    {
      WrittenExists(args, f, stride);
      PlaceOf(f, stride);
      FirstEntries(stride);
    }
  }

  lemma FirstEntries(stride: nat)
    ensures Start(FloorEntry(0), stride) == FloorOffset(stride)
    ensures Start(EpochEntry(0), stride) == EpochOffset(stride)
  {
  }

  lemma FloorSeeded(sector: Flash, block: nat, stride: nat, m: Markers, args: Args)
    requires StrideOk(stride) && block >= MIN_SECTOR && m.Ok() && Image(sector, block, stride, m, args)
    ensures Seeded(FloorRegion(sector, stride), args.floorKey)
    ensures Seeded(EpochRegion(sector, stride), args.epoch)
  {
    RegionBounds(stride);
    SeedOf(sector, block, stride, m, args);
    var lo, mid, hi := FloorOffset(stride), EpochOffset(stride), EpochEnd(stride);
    assert FloorRegion(sector, stride) == sector[lo..mid] && EpochRegion(sector, stride) == sector[mid..hi];
    hide *;
    forall i | lo + ENTRY_SIZE <= i < hi && (i < mid || mid + ENTRY_SIZE <= i)
      ensures i < |sector| && sector[i] == ERASED
    {
      ErasedRest(sector, block, stride, m, args, i);
    }
    SliceSeeded(sector, lo, mid, args.floorKey);
    SliceSeeded(sector, mid, hi, args.epoch);
  }

  lemma SliceSeeded(sector: Flash, from: nat, to: nat, key: Option<int>)
    requires from + ENTRY_SIZE <= to <= |sector|
    requires sector[from..to][..ENTRY_SIZE] == (if key.Some? then EncodeEntry(key.value) else Blank(ENTRY_SIZE))
    requires forall i | from + ENTRY_SIZE <= i < to :: sector[i] == ERASED
    ensures Seeded(sector[from..to], key)
  {
    hide EncodeEntry, Blank;
  }

  lemma RecordIs(sector: Flash, block: nat, stride: nat, m: Markers, args: Args, f: Field)
    requires StrideOk(stride) && block >= MIN_SECTOR && m.Ok() && Image(sector, block, stride, m, args)
    requires Exists(f, stride)
    ensures |sector| >= MIN_SECTOR && Record(sector, stride, f) == Content(m, args, f)
  {
    hide Record, Content, Exists, Covers;
  }

  lemma SeedOf(sector: Flash, block: nat, stride: nat, m: Markers, args: Args)
    requires StrideOk(stride) && block >= MIN_SECTOR && m.Ok() && Image(sector, block, stride, m, args)
    ensures |sector| >= MIN_SECTOR
    ensures |FloorRegion(sector, stride)| >= ENTRY_SIZE && |EpochRegion(sector, stride)| >= ENTRY_SIZE
    ensures FloorRegion(sector, stride)[..ENTRY_SIZE]
         == if args.floorKey.Some? then EncodeEntry(args.floorKey.value) else Blank(ENTRY_SIZE)
    ensures EpochRegion(sector, stride)[..ENTRY_SIZE]
         == if args.epoch.Some? then EncodeEntry(args.epoch.value) else Blank(ENTRY_SIZE)
  {
    hide FloorEntries, EncodeEntry, Start, FloorOffset, EpochOffset, EpochEnd, Image;
    RegionsFit(stride);
    RegionBounds(stride);
    FirstEntries(stride);
    RecordIs(sector, block, stride, m, args, FloorEntry(0));
    RecordIs(sector, block, stride, m, args, EpochEntry(0));
    assert FloorRegion(sector, stride)[..ENTRY_SIZE] == Record(sector, stride, FloorEntry(0));
    assert EpochRegion(sector, stride)[..ENTRY_SIZE] == Record(sector, stride, EpochEntry(0));
  }

  lemma {:induction false} CounterReads(value: int)
    ensures CounterIn(EncodeCounter(value)) == Some(value % (MASK32 + 1))
    ensures CounterIn(Blank(COUNTER_SIZE)) == None
  {
    var v := value % (MASK32 + 1);
    assert Bytes.Pow256(4) == MASK32 + 1;
    ValueOfLe(v, 4);
    ValueOfLe(MASK32 - v, 4);
    assert EncodeCounter(value)[..4] == Le(v, 4) && EncodeCounter(value)[4..] == Le(MASK32 - v, 4);
    var blank := Blank(COUNTER_SIZE);
    assert blank[..4] == Blank(4) && blank[4..] == Blank(4);
    BlankValue();
  }

  lemma BlankValue()
    ensures Value(Blank(4)) == MASK32
  {
    var bs: Bytes.bytes := [255, 255, 255, 255];
    assert FromFlash(Blank(4)) == bs;
    var last: Bytes.bytes := [255];
    assert last[1..] == [] && bs[2..][1..] == last && bs[1..][1..] == bs[2..];
    assert Bytes.LeValue(last) == 255;
    assert Bytes.LeValue(bs[2..]) == 255 + 256 * 255;
    assert Bytes.LeValue(bs[1..]) == 255 + 256 * Bytes.LeValue(bs[2..]);
  }

  /** A built sector reads back as exactly what was asked for: the flags, the counter, and both
      floors; no provenance, and no attempt used. */
  lemma ReadsBack(sector: Flash, block: nat, stride: nat, m: Markers, args: Args, k: nat)
    requires StrideOk(stride) && block >= MIN_SECTOR && m.Ok() && Image(sector, block, stride, m, args)
    requires k < ATTEMPTS_MAX
    ensures Record(sector, stride, Pending) == m.pending <==> args.pending
    ensures Record(sector, stride, Tried) == m.tried <==> args.tried
    ensures Record(sector, stride, Confirmed) == m.confirmed <==> args.confirmed
    ensures CounterIn(Record(sector, stride, Counter))
         == if args.counter.Some? then Some(args.counter.value % (MASK32 + 1)) else None
    ensures Record(sector, stride, Repr) == Record(sector, stride, Attempt(k)) == Blank(MARKER_SIZE)
    ensures Floor(FloorRegion(sector, stride), stride) == KeyAsked(args.floorKey)
    ensures Floor(EpochRegion(sector, stride), stride) == KeyAsked(args.epoch)
  {
    hide Seeded, EncodeEntry, EncodeCounter, CounterIn, Value, Floor, Blank, FloorEntries, EpochOffset, EpochEnd;
    FloorSeeded(sector, block, stride, m, args);
    SeededFloor(FloorRegion(sector, stride), args.floorKey, stride);
    SeededFloor(EpochRegion(sector, stride), args.epoch, stride);
    CounterReads(if args.counter.Some? then args.counter.value else 0);
  }

  // ---- programming a record later ----

  /** Whatever is programmed into one record, every other record and floor reads as before. */
  lemma OthersUnchanged(sector: Flash, stride: nat, f: Field, bytes: Flash, g: Field)
    requires StrideOk(stride) && Exists(f, stride) && Exists(g, stride) && f != g
    requires |sector| >= MIN_SECTOR && |bytes| == Size(f)
    ensures 0 <= Start(f, stride) && Start(f, stride) + |bytes| <= |sector|
    ensures var sector' := Overwrite(sector, Start(f, stride), bytes);
      && Record(sector', stride, g) == Record(sector, stride, g)
      && (!f.FloorEntry? ==> FloorRegion(sector', stride) == FloorRegion(sector, stride))
      && (!f.EpochEntry? ==> EpochRegion(sector', stride) == EpochRegion(sector, stride))
  {
    RecordAfter(sector, stride, f, bytes, g);
    RegionAway(sector, stride, f, bytes);
  }

  lemma RegionAway(sector: Flash, stride: nat, f: Field, bytes: Flash)
    requires StrideOk(stride) && Exists(f, stride) && |sector| >= MIN_SECTOR && |bytes| == Size(f)
    ensures 0 <= Start(f, stride) && Start(f, stride) + |bytes| <= |sector|
    ensures var sector' := Overwrite(sector, Start(f, stride), bytes);
      && (!f.FloorEntry? ==> FloorRegion(sector', stride) == FloorRegion(sector, stride))
      && (!f.EpochEntry? ==> EpochRegion(sector', stride) == EpochRegion(sector, stride))
  {
    hide Start, FloorEntries, Overwrite, FloorOffset, EpochOffset, EpochEnd;
    FieldInside(f, stride);
    PlaceOf(f, stride);
    RegionBounds(stride);
    if !f.FloorEntry? {
      SliceAway(sector, Start(f, stride), bytes, FloorOffset(stride), EpochOffset(stride));
    }
    if !f.EpochEntry? {
      SliceAway(sector, Start(f, stride), bytes, EpochOffset(stride), EpochEnd(stride));
    }
  }

  // ---- the open-ended slice ----

  lemma {:induction false} FloorOfRest(a: Flash, b: Flash, stride: nat, i: nat)
    requires stride > 0
    ensures FloorFrom(a + b, stride, |a| + i) == FloorFrom(b, stride, i)
    decreases |b| - i
  {
    hide KeyAt;
    if i + ENTRY_SIZE <= |b| {
      assert EntryAt(a + b, |a| + i) == EntryAt(b, i);
      KeyOfEntry(a + b, |a| + i, b, i);
      FloorOfRest(a, b, stride, i + stride);
    }
  }

  lemma KeyOfEntry(a: Flash, i: nat, b: Flash, j: nat)
    requires i + ENTRY_SIZE <= |a| && j + ENTRY_SIZE <= |b| && EntryAt(a, i) == EntryAt(b, j)
    ensures KeyAt(a, i) == KeyAt(b, j)
  {
  }

  lemma {:induction false} FloorOfBoth(a: Flash, b: Flash, stride: nat, i: nat)
    requires stride >= ENTRY_SIZE && OnGrid(i, stride, |a|)
    ensures FloorFrom(a + b, stride, i) == Max(FloorFrom(a, stride, i), Floor(b, stride))
    decreases |a| - i
  {
    hide KeyAt;
    if i == |a| {
      FloorOfRest(a, b, stride, 0);
    } else {
      GridEnd(i, stride, |a|);
      assert EntryAt(a + b, i) == EntryAt(a, i);
      KeyOfEntry(a + b, i, a, i);
      FloorOfBoth(a, b, stride, i + stride);
    }
  }

  lemma GridEnd(i: nat, stride: nat, j: nat)
    requires stride > 0 && OnGrid(i, stride, j) && i != j
    ensures i + stride <= j && OnGrid(i + stride, stride, j)
  {
  }

  /** A floor read from the whole tail, not up to the epoch region, reads the epochs too: it is the
      floor exactly when no epoch entry, nor anything after, is above it. */
  lemma OpenSliceFloor(sector: Flash, stride: nat)
    requires StrideOk(stride) && |sector| >= MIN_SECTOR
    ensures 0 <= FloorOffset(stride) <= EpochOffset(stride) <= |sector|
    ensures var open, floor := Floor(sector[FloorOffset(stride)..], stride), Floor(FloorRegion(sector, stride), stride);
      open == floor <==> Floor(sector[EpochOffset(stride)..], stride) <= floor
  {
    RegionsFit(stride);
    RegionBounds(stride);
    GridOfUnits(0, stride, FloorEntries(stride));
    var a, b := FloorRegion(sector, stride), sector[EpochOffset(stride)..];
    assert EpochOffset(stride) - FloorOffset(stride) == FloorEntries(stride) * stride;
    hide FloorOffset, EpochOffset, FloorEntries, FloorFrom, OnGrid;
    assert sector[FloorOffset(stride)..] == a + b;
    FloorOfBoth(a, b, stride, 0);
  }

  /** On a built sector everything from the epoch region on reads as the epoch asked for. */
  lemma TailFloor(sector: Flash, block: nat, stride: nat, m: Markers, args: Args)
    requires StrideOk(stride) && block >= MIN_SECTOR && m.Ok() && Image(sector, block, stride, m, args)
    ensures 0 <= EpochOffset(stride) <= |sector|
    ensures Floor(sector[EpochOffset(stride)..], stride) == KeyAsked(args.epoch)
  {
    hide FloorOffset, EpochOffset, EpochEnd, Floor, EncodeEntry, Image, Blank, KeyAsked, Seeded;
    RegionBounds(stride);
    SeedOf(sector, block, stride, m, args);
    var mid := EpochOffset(stride);
    forall i | mid + ENTRY_SIZE <= i < block
      ensures |sector| == block && sector[i] == ERASED
    {
      ErasedRest(sector, block, stride, m, args, i);
    }
    assert |sector| == block by { ImageSize(sector, block, stride, m, args); }
    assert sector[mid..] == sector[mid..block];
    assert sector[mid..block][..ENTRY_SIZE] == EpochRegion(sector, stride)[..ENTRY_SIZE];
    SliceSeeded(sector, mid, block, args.epoch);
    SeededFloor(sector[mid..], args.epoch, stride);
  }

  lemma ImageSize(sector: Flash, block: nat, stride: nat, m: Markers, args: Args)
    requires StrideOk(stride) && block >= MIN_SECTOR && m.Ok() && Image(sector, block, stride, m, args)
    ensures |sector| == block
  {
  }

  /** So on a built sector it gives the floor asked for exactly when the epoch is not above it. */
  lemma OpenSliceReadsEpoch(sector: Flash, block: nat, stride: nat, m: Markers, args: Args)
    requires StrideOk(stride) && block >= MIN_SECTOR && m.Ok() && Image(sector, block, stride, m, args)
    ensures 0 <= FloorOffset(stride) <= |sector|
    ensures Floor(sector[FloorOffset(stride)..], stride) == KeyAsked(args.floorKey)
       <==> KeyAsked(args.epoch) <= KeyAsked(args.floorKey)
  {
    hide FloorOffset, EpochOffset, Floor, Image, KeyAsked;
    ImageSize(sector, block, stride, m, args);
    ReadsBack(sector, block, stride, m, args, 0);
    OpenSliceFloor(sector, stride);
    TailFloor(sector, block, stride, m, args);
  }
}
