/**
  The statistics of a patch (src/openmv_ota/ota/delta.py:165-189). The loop reads the heads of the
  ops and skips their bytes: it checks less than the applier does.
 */
module DeltaSummary {
  import opened Wrappers
  import opened Bytes
  import opened Varint
  import opened Delta

  datatype Summary = Summary(targetSize: nat, ops: nat, extra: nat, diff: nat, nonzero: int)

  function CountZeros(s: seq<byte>): (n: nat)
    ensures n <= |s|
  {
    if s == [] then 0 else CountZeros(s[1..]) + if s[0] == 0 then 1 else 0
  }

  lemma {:induction false} CountsZeros(s: seq<byte>)
    ensures CountZeros(s) == multiset(s)[0]
  {
    if s != [] {
      CountsZeros(s[1..]);
      assert s == [s[0]] + s[1..];
    }
  }

  /** The bytes of `buf` in `[from, to)`, cut at its end: a Python slice. */
  function Slice(buf: seq<byte>, from: nat, to: nat): seq<byte>
    requires from <= to
  {
    buf[if from < |buf| then from else |buf|..if to < |buf| then to else |buf|]
  }

  // ---- the heads read, and their figures ----

  /** The heads from `pos` on, until they account for `need` bytes; their bytes are skipped. */
  function HeadsFrom(patch: seq<byte>, pos: nat, need: int): Result<seq<Head>, Error>
    decreases |patch| - pos
  {
    if need <= 0 then Success([])
    else if pos >= |patch| then Failure(Truncated) else
    var h :- ReadHead(patch, pos);
    var rest :- HeadsFrom(patch, h.body + h.Size(), need - h.Size());
    Success([h] + rest)
  }

  function Heads(patch: seq<byte>): Result<seq<Head>, Error> {
    var (size, pos) :- ReadHeader(patch);
    HeadsFrom(patch, pos, size)
  }

  function ExtraOf(heads: seq<Head>): nat {
    if heads == [] then 0 else heads[0].extraLen + ExtraOf(heads[1..])
  }

  function DiffOf(heads: seq<Head>): nat {
    if heads == [] then 0 else heads[0].diffLen + DiffOf(heads[1..])
  }

  function Changed(patch: seq<byte>, h: Head): int {
    var mid := h.body + h.extraLen;
    h.diffLen - CountZeros(Slice(patch, mid, mid + h.diffLen))
  }

  function ChangedOf(patch: seq<byte>, heads: seq<Head>): int {
    if heads == [] then 0 else Changed(patch, heads[0]) + ChangedOf(patch, heads[1..])
  }

  function Summarized(patch: seq<byte>): Result<Summary, Error> {
    var (size, _) :- ReadHeader(patch);
    var heads :- Heads(patch);
    Success(Summary(size, |heads|, ExtraOf(heads), DiffOf(heads), ChangedOf(patch, heads)))
  }

  /** The result, given the figures so far and the heads still to come. */
  ghost function Plus(patch: seq<byte>, s: Summary, rest: Result<seq<Head>, Error>): Result<Summary, Error> {
    if rest.Failure? then Failure(rest.error)
    else
      Success(Summary(s.targetSize, s.ops + |rest.value|, s.extra + ExtraOf(rest.value), s.diff + DiffOf(rest.value),
                      s.nonzero + ChangedOf(patch, rest.value)))
  }

  lemma PlusEnds(patch: seq<byte>, s: Summary, pos: nat, need: int)
    ensures need <= 0 ==> Plus(patch, s, HeadsFrom(patch, pos, need)) == Success(s)
    ensures need > 0 && pos >= |patch| ==> Plus(patch, s, HeadsFrom(patch, pos, need)) == Failure(Truncated)
  {
  }

  lemma PlusOne(patch: seq<byte>, s: Summary, pos: nat, need: int)
    requires need > 0 && pos < |patch|
    ensures var head := ReadHead(patch, pos);
      Plus(patch, s, HeadsFrom(patch, pos, need)) == if head.Failure? then Failure(head.error) else
        var h := head.value;
        var more := Summary(s.targetSize, s.ops + 1, s.extra + h.extraLen, s.diff + h.diffLen,
                            s.nonzero + Changed(patch, h));
        Plus(patch, more,
             HeadsFrom(patch, h.body + h.Size(), need - h.Size()))
  {
    hide ReadHead, Changed;
  }

  method Summarize(patch: seq<byte>) returns (r: Result<Summary, Error>)
    ensures r == Summarized(patch)
  {
    hide ReadFrom, Read, ReadHead, CountZeros, Slice, HeadsFrom, Plus;
    if |patch| < |MAGIC| || patch[..|MAGIC|] != MAGIC {
      return Failure(NotADelta);
    }
    var header :- ReadUvarint(patch, |MAGIC|);
    var (targetSize, pos) := header;
    var ops: nat, extra: nat, diff: nat, nonzero, produced := 0, 0, 0, 0, 0;
    var end := |patch|;
    PlusNothing(patch, targetSize, HeadsFrom(patch, pos, targetSize));
    while produced < targetSize
      invariant produced == extra + diff && pos >= 0
      invariant Summarized(patch)
             == Plus(patch, Summary(targetSize, ops, extra, diff, nonzero),
                     HeadsFrom(patch, pos, targetSize - produced))
      decreases end - pos
    {
      ghost var before := Summary(targetSize, ops, extra, diff, nonzero);
      PlusEnds(patch, before, pos, targetSize - produced);
      if pos >= end {
        return Failure(Truncated);
      }
      PlusOne(patch, before, pos, targetSize - produced);
      var head :- ReadOpHead(patch, pos);
      var Head(extraLen, diffLen, _, body) := head;
      pos := body + extraLen;
      nonzero := nonzero + diffLen - CountZeros(Slice(patch, pos, pos + diffLen));
      pos := pos + diffLen;
      ops := ops + 1;
      extra := extra + extraLen;
      diff := diff + diffLen;
      produced := produced + extraLen + diffLen;
    }
    PlusEnds(patch, Summary(targetSize, ops, extra, diff, nonzero), pos, targetSize - produced);
    return Success(Summary(targetSize, ops, extra, diff, nonzero));
  }

  lemma PlusNothing(patch: seq<byte>, size: nat, rest: Result<seq<Head>, Error>)
    ensures Plus(patch, Summary(size, 0, 0, 0, 0), rest) == if rest.Failure? then Failure(rest.error) else
      Success(Summary(size, |rest.value|, ExtraOf(rest.value), DiffOf(rest.value), ChangedOf(patch, rest.value)))
  {
  }

  // ---- what a summary says of the patch ----

  ghost function ExtraBytes(ops: seq<Op>): nat {
    if ops == [] then 0 else |ops[0].extra| + ExtraBytes(ops[1..])
  }

  ghost function DiffBytes(ops: seq<Op>): nat {
    if ops == [] then 0 else |ops[0].diff| + DiffBytes(ops[1..])
  }

  ghost function ChangedBytes(ops: seq<Op>): int {
    if ops == [] then 0 else |ops[0].diff| - CountZeros(ops[0].diff) + ChangedBytes(ops[1..])
  }

  ghost function Stats(ops: seq<Op>): Summary {
    Summary(Total(ops), |ops|, ExtraBytes(ops), DiffBytes(ops), ChangedBytes(ops))
  }

  predicate NoneEmpty(heads: seq<Head>) {
    forall h | h in heads :: h.Size() > 0
  }

  /** The last op's bytes end inside the patch; where the next one is read, those before it do. */
  predicate EndsInside(patch: seq<byte>, heads: seq<Head>) {
    heads != [] ==> heads[|heads| - 1].body + heads[|heads| - 1].Size() <= |patch|
  }

  /** What the loop leaves unchecked. */
  ghost predicate Sound(patch: seq<byte>, heads: seq<Head>, size: int) {
    NoneEmpty(heads) && ExtraOf(heads) + DiffOf(heads) == size && EndsInside(patch, heads)
  }

  lemma SoundStep(patch: seq<byte>, h: Head, rest: seq<Head>, need: int)
    ensures Sound(patch, [h] + rest, need) <==>
      h.Size() > 0 && Sound(patch, rest, need - h.Size()) && (rest == [] ==> h.body + h.Size() <= |patch|)
    ensures ExtraOf([h] + rest) == h.extraLen + ExtraOf(rest) && DiffOf([h] + rest) == h.diffLen + DiffOf(rest)
    ensures ChangedOf(patch, [h] + rest) == Changed(patch, h) + ChangedOf(patch, rest)
  {
    hide Changed;
    var heads := [h] + rest;
    assert heads[1..] == rest && heads[0] == h;
    assert forall x :: x in heads <==> x == h || x in rest;
  }

  lemma StatsStep(op: Op, rest: seq<Op>)
    ensures ExtraBytes([op] + rest) == |op.extra| + ExtraBytes(rest)
    ensures DiffBytes([op] + rest) == |op.diff| + DiffBytes(rest)
    ensures ChangedBytes([op] + rest) == |op.diff| - CountZeros(op.diff) + ChangedBytes(rest)
  {
    hide CountZeros;
    assert ([op] + rest)[1..] == rest;
  }

  /** Heads that are read lie inside the patch, and so do the bytes before them. */
  lemma NextInside(patch: seq<byte>, pos: nat, need: int)
    requires HeadsFrom(patch, pos, need).Success? && HeadsFrom(patch, pos, need).value != []
    ensures pos < |patch| && need > 0
  {
    hide ReadHead;
  }

  lemma OpOfHead(patch: seq<byte>, pos: nat, need: nat)
    requires pos < |patch| && ReadHead(patch, pos).Success?
    ensures var h, r := ReadHead(patch, pos).value, ReadOp(patch, pos, need);
      && (r.Success? <==> 0 < h.Size() <= need && h.body + h.Size() <= |patch|)
      && (r.Success? ==> r.value.1 == h.body + h.Size()
                         && |r.value.0.extra| == h.extraLen && |r.value.0.diff| == h.diffLen
                         && Changed(patch, h) == |r.value.0.diff| - CountZeros(r.value.0.diff))
  {
    hide ReadHead, CountZeros;
  }

  /** The patch parses exactly when the heads read are sound; the heads are then those of the ops. */
  lemma {:induction false} ParsesWhenSound(patch: seq<byte>, pos: nat, need: nat)
    ensures ParseOps(patch, pos, need).Success? <==>
      HeadsFrom(patch, pos, need).Success? && Sound(patch, HeadsFrom(patch, pos, need).value, need)
    ensures ParseOps(patch, pos, need).Success? ==>
      Alike(patch, ParseOps(patch, pos, need).value, HeadsFrom(patch, pos, need).value)
    decreases need
  {
    hide ReadHead, ReadOp, Sound, Changed, ExtraOf, DiffOf, ChangedOf, ExtraBytes, DiffBytes, ChangedBytes, CountZeros,
      Total;
    if need == 0 {
      assert Sound(patch, [], 0) by { EmptySound(patch); }
      NothingAlike(patch);
    } else if pos < |patch| && ReadHead(patch, pos).Success? {
      var h := ReadHead(patch, pos).value;
      var next := h.body + h.Size();
      OpOfHead(patch, pos, need);
      var rest := HeadsFrom(patch, next, need - h.Size());
      if rest.Success? {
        SoundStep(patch, h, rest.value, need);
        if rest.value != [] {
          NextInside(patch, next, need - h.Size());
        }
        SoundBounds(patch, rest.value, need - h.Size());
      }
      if 0 < h.Size() <= need {
        ParsesWhenSound(patch, next, need - h.Size());
        if ReadOp(patch, pos, need).Success? && ParseOps(patch, next, need - h.Size()).Success? {
          StatsStep(ReadOp(patch, pos, need).value.0, ParseOps(patch, next, need - h.Size()).value);
        }
      }
    } else {
      assert ReadOp(patch, pos, need).Failure? by { NoHeadNoOp(patch, pos, need); }
    }
  }

  ghost predicate Alike(patch: seq<byte>, ops: seq<Op>, heads: seq<Head>) {
    && |heads| == |ops| && ExtraOf(heads) == ExtraBytes(ops) && DiffOf(heads) == DiffBytes(ops)
    && ChangedOf(patch, heads) == ChangedBytes(ops)
  }

  lemma EmptySound(patch: seq<byte>)
    ensures Sound(patch, [], 0)
  {
  }

  lemma NothingAlike(patch: seq<byte>)
    ensures Alike(patch, [], [])
  {
  }

  lemma SoundBounds(patch: seq<byte>, heads: seq<Head>, size: int)
    ensures Sound(patch, heads, size) ==> size >= 0
  {
  }

  lemma NoHeadNoOp(patch: seq<byte>, pos: nat, need: nat)
    requires pos >= |patch| || ReadHead(patch, pos).Failure?
    ensures ReadOp(patch, pos, need).Failure?
  {
    hide ReadHead;
  }

  lemma {:induction false} StatsAddUp(ops: seq<Op>)
    ensures ExtraBytes(ops) + DiffBytes(ops) == Total(ops)
  {
    if ops != [] {
      StatsAddUp(ops[1..]);
    }
  }

  /** What a summary leaves open: a patch parses exactly when it summarizes, no op read is empty,
      extra and diff bytes add up to the declared size, and the last op's bytes end inside the
      patch. The figures are then those of the parsed ops. */
  lemma SummaryMeaning(patch: seq<byte>)
    ensures Summarized(patch).Success? <==> Heads(patch).Success?
    ensures var summary, heads := Summarized(patch), Heads(patch);
      ParsePatch(patch).Success?
      <==> summary.Success? && summary.value.extra + summary.value.diff == summary.value.targetSize
           && NoneEmpty(heads.value) && EndsInside(patch, heads.value)
    ensures ParsePatch(patch).Success? ==> Summarized(patch) == Success(Stats(ParsePatch(patch).value))
  {
    hide ReadHeader, HeadsFrom, ParseOps;
    var header := ReadHeader(patch);
    if header.Success? {
      ParsesWhenSound(patch, header.value.1, header.value.0);
    }
  }

  /** A patch that summarizes, which the applier refuses on every base: one op of two literal bytes,
      neither of them there, for a declared size of one. */
  lemma SummarizedButRefused(base: seq<byte>)
    ensures var patch := MAGIC + [1, 2, 0, 0];
      Summarized(patch) == Success(Summary(1, 1, 2, 0, 0)) && Apply(base, patch) == Failure(Overrun)
  {
    var patch := MAGIC + [1, 2, 0, 0];
    assert patch[..|MAGIC|] == MAGIC && patch[4..] == [1, 2, 0, 0];
    assert Read(patch, 4) == Success((1, 5)) && Read(patch, 5) == Success((2, 6));
    assert Read(patch, 6) == Success((0, 7)) && Read(patch, 7) == Success((0, 8));
    assert ReadHead(patch, 5) == Success(Head(2, 0, 0, 8));
    assert HeadsFrom(patch, 10, -1) == Success([]);
    var h := Head(2, 0, 0, 8);
    assert h.body + h.Size() == 10 && [h] + [] == [h];
    assert HeadsFrom(patch, 5, 1) == Success([h]);
    SoundStep(patch, h, [], 2);
    assert Slice(patch, 10, 10) == [];
  }

  /** For every patch the applier accepts, the summary's extra and diff bytes are the output's. */
  lemma SummaryOfAccepted(base: seq<byte>, patch: seq<byte>)
    requires Apply(base, patch).Success?
    ensures Summarized(patch).Success?
    ensures var s := Summarized(patch).value;
      s.targetSize == s.extra + s.diff == |Apply(base, patch).value|
  {
    hide ParsePatch, Summarized, Apply;
    SummaryMeaning(patch);
    ApplyMeaning(base, patch, Apply(base, patch).value);
    StatsAddUp(ParsePatch(patch).value);
  }
}
