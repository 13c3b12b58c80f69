/** The boot stub's install record (src/openmv_ota/ota/install_record.py). */
module InstallRecord {
  import opened Wrappers
  import opened Bytes
  import opened Struct
  import Cert = Certificate
  import T = Trailer

  type Error = Cert.Error

  const MAGIC: bytes := [0x4F, 0x4D, 0x56, 0x49]  // "OMVI"
  const VERSION := 1
  const FIXED_SIZE := 32
  const ENTRY_SIZE := 40
  const CRC_SIZE := 4

  /** magic record_version stub_version slot comp_count reason reserved */
  const FIXED: seq<Fmt> := [S(4), U(4), U(4), U(4), U(4), U(4), U(8)]

  /** dest installed_size installed_sha256 */
  const ENTRY: seq<Fmt> := [U(4), U(4), S(32)]

  datatype Entry = Entry(dest: int, size: int, sha256: bytes)

  /** `reason`: 0 normal, 1 trial, 2 reverted, 3 reinstalled. `slot`: 0 is A, 1 is B. */
  datatype InstallRecord = InstallRecord(stubVersion: int, slot: int, reason: int, components: seq<Entry>,
                                         recordVersion: int)

  lemma Sizes()
    ensures CalcSize(FIXED) == FIXED_SIZE && CalcSize(ENTRY) == ENTRY_SIZE
  {
    assert FIXED == FIXED[..4] + FIXED[4..];
    SizeOfParts(FIXED[..4], FIXED[4..]);
    SizeOfFour(FIXED[..4]);
    SizeOfThree(FIXED[4..]);
    SizeOfThree(ENTRY);
  }

  lemma SizeOfThree(f: seq<Fmt>)
    requires |f| == 3
    ensures CalcSize(f) == f[0].n + f[1].n + f[2].n
  {
    SizeOfOne(f[2..]);
    assert f[1..][1..] == f[2..];
    assert CalcSize(f[1..]) == f[1].n + CalcSize(f[2..]);
  }

  function FixedVals(r: InstallRecord, reserved: int): (v: seq<Val>)
    ensures |v| == 7
  {
    [Raw(MAGIC), Num(r.recordVersion), Num(r.stubVersion), Num(r.slot), Num(|r.components|), Num(r.reason),
     Num(reserved)]
  }

  function EntryVals(e: Entry): seq<Val> {
    [Num(e.dest), Num(e.size), Raw(e.sha256)]
  }

  function PackEntries(es: seq<Entry>): (r: Result<bytes, Error>)
    ensures r.Success? ==> |r.value| == |es| * ENTRY_SIZE
  {
    Sizes();
    if es == [] then Success([])
    else if !FitAll(ENTRY, EntryVals(es[0])) then Failure(Cert.OutOfRange)
    else
      var rest :- PackEntries(es[1..]);
      Success(Pack(ENTRY, EntryVals(es[0])) + rest)
  }

  /** A record's bytes, with a number in the reserved field. */
  function PackWith(p: T.Codec, r: InstallRecord, reserved: int): Result<bytes, Error> {
    if r.slot != 0 && r.slot != 1 then Failure(Cert.BadSlot)
    else if !(0 <= r.reason <= 3) then Failure(Cert.BadReason)
    else if |r.components| > T.MAX_COMPONENTS then Failure(Cert.TooMany)
    else if exists i :: 0 <= i < |r.components| && |r.components[i].sha256| != 32 then Failure(Cert.BadHash)
    else if !FitAll(FIXED, FixedVals(r, reserved)) then Failure(Cert.OutOfRange)
    else
      var entries :- PackEntries(r.components);
      var body := Pack(FIXED, FixedVals(r, reserved)) + entries;
      Success(body + Le(p.crc32(body) % 0x1_0000_0000, 4))
  }

  /** The packer writes zero there. */
  function PackRecord(p: T.Codec, r: InstallRecord): Result<bytes, Error> {
    PackWith(p, r, 0)
  }

  // ---- parsing ----

  function FixedOf(data: bytes): (v: seq<Val>)
    requires FIXED_SIZE <= |data|
    ensures |v| == 7 && v[0].Raw? && forall i | 1 <= i < 7 :: v[i].Num?
    ensures v[4].v >= 0
  {
    Sizes();
    UnpackedFit(FIXED, data, 0);
    var v := Unpack(FIXED, data, 0);
    assert forall i | 0 <= i < 7 :: Fits(FIXED[i], v[i]);
    v
  }

  function ReadEntry(data: bytes, off: nat): Entry
    requires off + ENTRY_SIZE <= |data|
  {
    Sizes();
    UnpackedFit(ENTRY, data, off);
    var v := Unpack(ENTRY, data, off);
    Entry(v[0].v, v[1].v, v[2].b)
  }

  function ReadEntries(data: bytes, off: nat, n: nat): (es: seq<Entry>)
    requires off + n * ENTRY_SIZE <= |data|
    ensures |es| == n
    decreases n
  {
    if n == 0 then [] else [ReadEntry(data, off)] + ReadEntries(data, off + ENTRY_SIZE, n - 1)
  }

  /** What is returned for a record of a known version, once its fixed part is read. */
  function ParseRest(p: T.Codec, data: bytes, v: seq<Val>, n: nat): Result<InstallRecord, Error>
    requires |v| == 7 && forall i | 1 <= i < 7 :: v[i].Num?
  {
    if n > T.MAX_COMPONENTS then Failure(Cert.TooMany)
    else
      var end := FIXED_SIZE + n * ENTRY_SIZE;
      if end + CRC_SIZE > |data| then Failure(Cert.Truncated)
      else if p.crc32(data[..end]) % 0x1_0000_0000 != LeValue(data[end..end + CRC_SIZE]) then Failure(Cert.BadCrc)
      else if v[3].v != 0 && v[3].v != 1 then Failure(Cert.BadSlot)
      else if !(0 <= v[5].v <= 3) then Failure(Cert.BadReason)
      else Success(InstallRecord(v[2].v, v[3].v, v[5].v, ReadEntries(data, FIXED_SIZE, n), v[1].v))
  }

  function ParseRecord(p: T.Codec, data: bytes): Result<InstallRecord, Error> {
    if |data| < FIXED_SIZE then Failure(Cert.TooSmall) else
    var v := FixedOf(data);
    if v[0].b != MAGIC then Failure(Cert.BadMagic)
    else if v[1].v != VERSION then Failure(Cert.BadVersion)
    else ParseRest(p, data, v, v[4].v)
  }

  method Entries(data: bytes, compCount: nat) returns (components: seq<Entry>)
    requires FIXED_SIZE + compCount * ENTRY_SIZE <= |data|
    ensures components == ReadEntries(data, FIXED_SIZE, compCount)
  {
    hide ReadEntry;
    components := [];
    for i := 0 to compCount
      invariant ReadEntries(data, FIXED_SIZE, compCount)
             == components + ReadEntries(data, FIXED_SIZE + i * ENTRY_SIZE, compCount - i)
    {
      components := components + [ReadEntry(data, FIXED_SIZE + i * ENTRY_SIZE)];
    }
  }

  method Parse(p: T.Codec, data: bytes) returns (r: Result<InstallRecord, Error>)
    ensures r == ParseRecord(p, data)
  {
    hide FixedOf, ReadEntries, LeValue;
    if |data| < FIXED_SIZE {
      return Failure(Cert.TooSmall);
    }
    var v := FixedOf(data);
    if v[0].b != MAGIC {
      return Failure(Cert.BadMagic);
    }
    if v[1].v != VERSION {
      return Failure(Cert.BadVersion);
    }
    var compCount: nat := v[4].v;
    if compCount > T.MAX_COMPONENTS {
      return Failure(Cert.TooMany);
    }
    var end := FIXED_SIZE + compCount * ENTRY_SIZE;
    if end + CRC_SIZE > |data| {
      return Failure(Cert.Truncated);
    }
    if p.crc32(data[..end]) % 0x1_0000_0000 != LeValue(data[end..end + CRC_SIZE]) {
      return Failure(Cert.BadCrc);
    }
    if v[3].v != 0 && v[3].v != 1 {
      return Failure(Cert.BadSlot);
    }
    if !(0 <= v[5].v <= 3) {
      return Failure(Cert.BadReason);
    }
    var components := Entries(data, compCount);
    return Success(InstallRecord(v[2].v, v[3].v, v[5].v, components, v[1].v));
  }

  // ---- parse undoes pack ----

  lemma EntryAt(e: Entry, data: bytes, off: nat)
    requires FitAll(ENTRY, EntryVals(e)) && At(data, off, Pack(ENTRY, EntryVals(e)))
    ensures off + ENTRY_SIZE <= |data| && ReadEntry(data, off) == e
  {
    Sizes();
    UnpackPacked(ENTRY, EntryVals(e), data, off);
    hide Pack, CalcSize, Unpack, FitAll;
  }

  lemma {:induction false} EntriesAt(es: seq<Entry>, data: bytes, off: nat)
    requires PackEntries(es).Success? && At(data, off, PackEntries(es).value)
    ensures off + |es| * ENTRY_SIZE <= |data| && ReadEntries(data, off, |es|) == es
    decreases |es|
  {
    hide CalcSize, Pack, ReadEntry, FitAll;
    if es != [] {
      Sizes();
      AtParts(data, off, Pack(ENTRY, EntryVals(es[0])), PackEntries(es[1..]).value);
      EntryAt(es[0], data, off);
      EntriesAt(es[1..], data, off + ENTRY_SIZE);
      assert [es[0]] + es[1..] == es;
    }
  }

  lemma FixedAt(data: bytes, v: seq<Val>)
    requires FitAll(FIXED, v) && At(data, 0, Pack(FIXED, v))
    ensures FIXED_SIZE <= |data| && FixedOf(data) == v
  {
    Sizes();
    UnpackPacked(FIXED, v, data, 0);
  }

  /** Parsing gives back every record that was written, whatever is in its reserved field and whatever
      follows it, exactly when it is of the version the parser reads. */
  lemma WrittenRoundTrip(p: T.Codec, r: InstallRecord, reserved: int, trailing: bytes)
    requires PackWith(p, r, reserved).Success?
    ensures var data := PackWith(p, r, reserved).value + trailing;
      && ParseRecord(p, data) == (if r.recordVersion == 1 then Success(r) else Failure(Cert.BadVersion))
      && |data| >= FIXED_SIZE && FixedOf(data)[6] == Num(reserved)
  {
    hide FitAll, Pack, CalcSize, Le, LeValue, PackEntries, FixedOf, ReadEntries;
    Sizes();
    var data := PackWith(p, r, reserved).value + trailing;
    var fixed, entries := Pack(FIXED, FixedVals(r, reserved)), PackEntries(r.components).value;
    var body := fixed + entries;
    var crc := Le(p.crc32(body) % 0x1_0000_0000, 4);
    AtStart(body + crc, trailing);
    AtParts(data, 0, body, crc);
    AtParts(data, 0, fixed, entries);
    FixedAt(data, FixedVals(r, reserved));
    EntriesAt(r.components, data, FIXED_SIZE);
    CrcReads(p.crc32(body));
  }

  /** Parsing gives back every record that packs, whatever follows it, exactly when it is of the
      version the parser reads. */
  lemma RecordRoundTrip(p: T.Codec, r: InstallRecord, trailing: bytes)
    requires PackRecord(p, r).Success?
    ensures ParseRecord(p, PackRecord(p, r).value + trailing)
         == if r.recordVersion == 1 then Success(r) else Failure(Cert.BadVersion)
  {
    hide ParseRecord, PackWith;
    WrittenRoundTrip(p, r, 0, trailing);
  }

  // ---- only what was packed is accepted ----

  lemma EntryPacked(data: bytes, off: nat)
    requires off + ENTRY_SIZE <= |data|
    ensures var vals := EntryVals(ReadEntry(data, off));
      FitAll(ENTRY, vals) && Pack(ENTRY, vals) == data[off..off + ENTRY_SIZE]
  {
    Sizes();
    PackUnpacked(ENTRY, data, off);
    hide Unpack, Pack, CalcSize;
    var v := Unpack(ENTRY, data, off);
    assert forall i | 0 <= i < 3 :: Fits(ENTRY[i], v[i]);
    assert EntryVals(ReadEntry(data, off)) == v;
  }

  lemma {:induction false} EntriesPacked(data: bytes, off: nat, n: nat)
    requires off + n * ENTRY_SIZE <= |data|
    ensures PackEntries(ReadEntries(data, off, n)) == Success(data[off..off + n * ENTRY_SIZE])
    ensures forall i | 0 <= i < n :: |ReadEntries(data, off, n)[i].sha256| == 32
    decreases n
  {
    hide ReadEntry, FitAll, Pack;
    if n > 0 {
      EntryPacked(data, off);
      EntriesPacked(data, off + ENTRY_SIZE, n - 1);
      HashFits(ReadEntry(data, off));
      assert ReadEntries(data, off, n)[1..] == ReadEntries(data, off + ENTRY_SIZE, n - 1);
      Adjacent(data, off, off + ENTRY_SIZE, off + n * ENTRY_SIZE);
    } else {
      assert data[off..off] == [];
    }
  }

  lemma HashFits(e: Entry)
    requires FitAll(ENTRY, EntryVals(e))
    ensures |e.sha256| == 32
  {
    assert Fits(ENTRY[2], EntryVals(e)[2]);
  }

  const RESERVED: bytes := [0, 0, 0, 0, 0, 0, 0, 0]

  lemma ZeroBytes()
    ensures Le(0, 8) == RESERVED
  {
    assert Le(0, 4) == [0, 0, 0, 0];
    assert Le(0, 6) == [0, 0] + Le(0, 4);
    assert Le(0, 8) == [0, 0] + Le(0, 6);
  }

  /** The reserved field is zero exactly when its eight bytes are. */
  lemma ReservedReads(data: bytes)
    requires FIXED_SIZE <= |data|
    ensures FixedOf(data)[6] == Num(0) <==> data[24..32] == RESERVED
  {
    hide Unpack, CalcSize, Le, LeValue, Pow256;
    Sizes();
    UnpackAt(FIXED, data, 0, 6);
    assert FIXED == FIXED[..6] + [U(8)];
    SizeOfParts(FIXED[..6], [U(8)]);
    SizeOfOne([U(8)]);
    ZeroBytes();
    ValueOfLe(0, 8);
    LeOfValue(data[24..32]);
  }

  lemma FixedPacked(data: bytes, r: InstallRecord, reserved: int)
    requires FIXED_SIZE <= |data| && FixedVals(r, reserved) == FixedOf(data)
    ensures FitAll(FIXED, FixedVals(r, reserved)) && Pack(FIXED, FixedVals(r, reserved)) == data[..FIXED_SIZE]
  {
    hide Unpack, Pack, CalcSize, FixedVals;
    Sizes();
    PackUnpacked(FIXED, data, 0);
  }

  ghost predicate BeginsWith(p: T.Codec, data: bytes, r: InstallRecord, reserved: int) {
    PackWith(p, r, reserved).Success? && PackWith(p, r, reserved).value <= data
  }

  ghost predicate Written(p: T.Codec, data: bytes, r: InstallRecord) {
    exists reserved :: BeginsWith(p, data, r, reserved)
  }

  /** The parser accepts exactly the data that begin with a written record of its version, with
      anything in its reserved field; and it reads that record. */
  lemma AcceptsExactlyWritten(p: T.Codec, data: bytes, r: InstallRecord)
    ensures ParseRecord(p, data) == Success(r) <==> r.recordVersion == 1 && Written(p, data, r)
  {
    hide ParseRecord, PackWith, FixedOf;
    if ParseRecord(p, data) == Success(r) {
      AcceptedPacks(p, data, r);
    }
    if r.recordVersion == 1 && Written(p, data, r) {
      var reserved :| BeginsWith(p, data, r, reserved);
      var raw := PackWith(p, r, reserved).value;
      assert data == raw + data[|raw|..];
      WrittenRoundTrip(p, r, reserved, data[|raw|..]);
    }
  }

  /** What the parser accepts is what the packer packed exactly when the reserved bytes are zero. */
  lemma AcceptsExactlyPacked(p: T.Codec, data: bytes, r: InstallRecord)
    ensures ParseRecord(p, data) == Success(r) && |data| >= FIXED_SIZE && data[24..32] == RESERVED <==>
      r.recordVersion == 1 && PackRecord(p, r).Success? && PackRecord(p, r).value <= data
  {
    hide ParseRecord, PackWith, FixedOf;
    if |data| >= FIXED_SIZE {
      ReservedReads(data);
    }
    if ParseRecord(p, data) == Success(r) {
      AcceptedPacks(p, data, r);
    }
    if r.recordVersion == 1 && PackRecord(p, r).Success? && PackRecord(p, r).value <= data {
      var raw := PackRecord(p, r).value;
      assert data == raw + data[|raw|..];
      WrittenRoundTrip(p, r, 0, data[|raw|..]);
    }
  }

  /** Data no packer wrote that the parser accepts: a record with any other number reserved. */
  lemma AcceptsOtherReserved(p: T.Codec, r: InstallRecord, reserved: int, trailing: bytes)
    requires r.recordVersion == 1 && PackRecord(p, r).Success? && 0 < reserved < Pow256(8)
    ensures PackWith(p, r, reserved).Success?
    ensures var data := PackWith(p, r, reserved).value + trailing;
      ParseRecord(p, data) == Success(r) && !(PackRecord(p, r).value <= data)
  {
    AnyFits(r, reserved);
    hide ParseRecord, FixedOf, FitAll, PackEntries, Pow256, FixedVals;
    WrittenRoundTrip(p, r, reserved, trailing);
    var data := PackWith(p, r, reserved).value + trailing;
    ReservedReads(data);
    AcceptsExactlyPacked(p, data, r);
  }

  lemma AnyFits(r: InstallRecord, reserved: int)
    requires 0 <= reserved < Pow256(8)
    ensures FitAll(FIXED, FixedVals(r, 0)) ==> FitAll(FIXED, FixedVals(r, reserved))
  {
    hide Pow256;
    var v, w := FixedVals(r, 0), FixedVals(r, reserved);
    assert forall i | 0 <= i < 6 :: v[i] == w[i];
    if FitAll(FIXED, v) {
      assert forall i | 0 <= i < 7 :: Fits(FIXED[i], v[i]);
    }
  }

  lemma AcceptedPacks(p: T.Codec, data: bytes, r: InstallRecord)
    requires ParseRecord(p, data) == Success(r)
    ensures r.recordVersion == 1 && |data| >= FIXED_SIZE && FixedOf(data)[6].Num?
    ensures BeginsWith(p, data, r, FixedOf(data)[6].v)
  {
    hide FixedOf, ReadEntries, PackEntries, LeValue, Le, FitAll, Pack, CalcSize;
    var n := |r.components|;
    var end := FIXED_SIZE + n * ENTRY_SIZE;
    FixedPacked(data, r, FixedOf(data)[6].v);
    EntriesPacked(data, FIXED_SIZE, n);
    LeOfValue(data[end..end + CRC_SIZE]);
    assert data[..FIXED_SIZE] + data[FIXED_SIZE..end] == data[..end];
    assert data[..end] + data[end..end + CRC_SIZE] == data[..end + CRC_SIZE];
  }
}
