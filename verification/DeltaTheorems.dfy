/** What the patch builder and the applier promise together. */
module DeltaTheorems {
  import opened Wrappers
  import opened Bytes
  import opened Varint
  import opened Delta
  import opened MakeDelta

  // ---- replay of what the builder emits ----

  function FinalCursor(ops: seq<Op>, cursor: int): int {
    if ops == [] then cursor else FinalCursor(ops[1..], cursor + ops[0].seek + |ops[0].diff|)
  }

  lemma {:induction false} ReplaySnoc(base: seq<byte>, ops: seq<Op>, op: Op, cursor: int)
    requires Replay(base, ops, cursor).Some?
    requires InBase(base, FinalCursor(ops, cursor) + op.seek, |op.diff|)
    ensures Replay(base, ops + [op], cursor)
         == Some(Replay(base, ops, cursor).value + Emit(base, op, FinalCursor(ops, cursor)))
    ensures FinalCursor(ops + [op], cursor) == FinalCursor(ops, cursor) + op.seek + |op.diff|
    decreases |ops|
  {
    hide Emit;
    if ops == [] {
      var last := Emit(base, op, cursor);
      assert [op][1..] == [] && last + [] == [] + last;
    } else {
      var next := cursor + ops[0].seek + |ops[0].diff|;
      ReplaySnoc(base, ops[1..], op, next);
      assert (ops + [op])[1..] == ops[1..] + [op];
      var first, rest := Emit(base, ops[0], cursor), Replay(base, ops[1..], next).value;
      var last := Emit(base, op, FinalCursor(ops, cursor));
      Assoc(first, rest, last);
    }
  }

  lemma CopyEmits(base: seq<byte>, target: seq<byte>, lit: nat, cursor: nat, r: Region)
    requires Inside(base, target, lit, r)
    ensures Emit(base, CopyOp(base, target, lit, cursor, r), cursor) == target[lit..r.End()]
  {
    var src, diff := base[r.From()..r.Cursor()], Diff(base, target, r);
    assert AddDiff(src, diff) == target[r.Start()..r.End()] by {
      forall i | 0 <= i < r.len
        ensures AddDiff(src, diff)[i] == target[r.Start()..r.End()][i]
      {
        ModCancels(target[r.Start() + i], base[r.From() + i]);
      }
    }
  }

  lemma ModCancels(t: byte, s: byte)
    ensures AddByte(s, SubByte(t, s)) == t
  {
  }

  /** The ops for the regions replay to the target, up to where the last region ends. */
  lemma {:induction false} CopiesReplay(base: seq<byte>, target: seq<byte>, rs: seq<Region>)
    requires Chosen(base, target, rs)
    ensures var ops := CopyOps(base, target, rs);
      Replay(base, ops, 0) == Some(target[..Done(rs)]) && FinalCursor(ops, 0) == Cursor(rs)
    decreases |rs|
  {
    hide Emit, IsRegion, BackExtent, ForwardExtent;
    if rs != [] {
      var before, r := rs[..|rs| - 1], rs[|rs| - 1];
      CopiesReplay(base, target, before);
      RegionInside(base, target, Done(before), r);
      ReplaySnoc(base, CopyOps(base, target, before), CopyOp(base, target, Done(before), Cursor(before), r), 0);
      CopyEmits(base, target, Done(before), Cursor(before), r);
      assert target[..Done(before)] + target[Done(before)..r.End()] == target[..r.End()];
    }
  }

  lemma RegionInside(base: seq<byte>, target: seq<byte>, lit: nat, r: Region)
    requires IsRegion(base, target, lit, r)
    ensures Inside(base, target, lit, r)
  {
  }

  lemma AllReplay(base: seq<byte>, target: seq<byte>, rs: seq<Region>)
    requires Chosen(base, target, rs)
    ensures Replay(base, AllOps(base, target, rs), 0) == Some(target)
  {
    hide Chosen, CopyOps, Replay;
    CopiesReplay(base, target, rs);
    var ops, lit := CopyOps(base, target, rs), Done(rs);
    if lit < |target| {
      var op := Op(target[lit..], [], 0);
      ReplaySnoc(base, ops, op, 0);
      assert Emit(base, op, Cursor(rs)) == target[lit..];
      assert target[..lit] + target[lit..] == target;
    } else {
      assert ops + [] == ops && target[..lit] == target;
    }
  }

  /** Every op the builder emits makes progress, with lengths its varints carry; its seek fits too
      when the base's length leaves room for a sign. */
  lemma {:induction false} CopiesFit(base: seq<byte>, target: seq<byte>, rs: seq<Region>)
    requires Chosen(base, target, rs) && |target| < CAP
    ensures forall op | op in CopyOps(base, target, rs) :: Sized(op)
    ensures 2 * |base| <= CAP ==> forall op | op in CopyOps(base, target, rs) :: Fits(op)
    decreases |rs|
  {
    hide IsRegion;
    if rs != [] {
      CopiesFit(base, target, rs[..|rs| - 1]);
      RegionInside(base, target, Done(rs[..|rs| - 1]), rs[|rs| - 1]);
    }
  }

  /** For every base and target, whatever follows the patch: the applier gives the target back when
      its length and every seek fit their varints, and refuses the patch otherwise. A base of at
      most half the cap always leaves the seeks room. */
  lemma RoundTrip(base: seq<byte>, target: seq<byte>, rs: seq<Region>, trailing: seq<byte>)
    requires Chosen(base, target, rs)
    ensures var ops := AllOps(base, target, rs);
      Apply(base, EncodePatch(|target|, ops) + trailing)
      == if |target| < CAP && forall op | op in ops :: SeekFits(op) then Success(target) else Failure(VarintTooLong)
    ensures |target| < CAP && 2 * |base| <= CAP ==> forall op | op in AllOps(base, target, rs) :: SeekFits(op)
  {
    hide Chosen, CopyOps, Replay, ParsePatch, EncodePatch, Sized, SeekFits, ReadHeader, EncodeOps, Uvarint, Run;
    var ops := AllOps(base, target, rs);
    var patch := EncodePatch(|target|, ops) + trailing;
    AllReplay(base, target, rs);
    PrintedHeader(ops, trailing);
    if |target| < CAP {
      CopiesFit(base, target, rs);
      LiteralFits(target[Done(rs)..]);
      if forall op | op in ops :: SeekFits(op) {
        ParsePrinted(ops, trailing);
        ApplyMeaning(base, patch, target);
      } else {
        LongSeekStops(base, patch, |MAGIC| + |Uvarint(|target|)|, ops, 0);
      }
    }
  }

  lemma LiteralFits(literal: seq<byte>)
    ensures 0 < |literal| < CAP ==> Fits(Op(literal, [], 0))
  {
  }

  // ---- the shape and the size of what is emitted ----

  ghost predicate ZeroWithin(d: seq<byte>, k: int) {
    exists j :: 0 <= k <= j <= k + 64 && j < |d| && d[j] == 0
  }

  /** A copied region is at least an anchor long, ends on a zero difference, and never holds more
      than 64 nonzero differences in a row. */
  lemma CopyShape(base: seq<byte>, target: seq<byte>, lit: nat, r: Region)
    requires IsRegion(base, target, lit, r)
    ensures var d := Diff(base, target, r);
      && |d| == r.len >= 32 && d[|d| - 1] == 0
      && forall k :: 0 <= k && k + 64 < |d| ==> ZeroWithin(d, k)
  {
    var d := Diff(base, target, r);
    SameIsZero(base, target, r, r.len - 1);
    forall k | 0 <= k && k + MAX_GAP < |d|
      ensures ZeroWithin(d, k)
    {
      if k < r.back {
        assert Same(base, target, r.off, r.hit, k - r.back);
        SameIsZero(base, target, r, k);
        assert k <= k <= k + MAX_GAP;
      } else if k < r.back + ANCHOR {
        assert Block(base, r.off)[k - r.back] == Block(target, r.hit)[k - r.back];
        SameIsZero(base, target, r, k);
      } else {
        assert GapEnds(base, target, r.off, r.hit, k - r.back);
        var j :| k - r.back <= j <= k - r.back + MAX_GAP && Same(base, target, r.off, r.hit, j);
        SameIsZero(base, target, r, j + r.back);
      }
    }
  }

  lemma SameIsZero(base: seq<byte>, target: seq<byte>, r: Region, i: nat)
    requires Inside(base, target, 0, r) && i < r.len
    requires Same(base, target, r.off, r.hit, i - r.back)
    ensures Diff(base, target, r)[i] == 0
  {
    assert target[r.Start() + i] == base[r.From() + i];
  }

  lemma VarintSize(v: nat)
    requires v < CAP
    ensures |Uvarint(v)| <= VARINT_MAX
  {
    UvarintRoundTrip(Uvarint(v), 0, v);
  }

  lemma OpSize(op: Op)
    requires Fits(op)
    ensures |EncodeOp(op)| <= 3 * VARINT_MAX + op.Size()
  {
    VarintSize(|op.extra|);
    VarintSize(|op.diff|);
    VarintSize(Zigzag(op.seek));
  }

  lemma {:induction false} CopiesSize(base: seq<byte>, target: seq<byte>, rs: seq<Region>)
    requires Chosen(base, target, rs) && |target| < CAP && 2 * |base| <= CAP
    ensures |EncodeOps(CopyOps(base, target, rs))| <= 30 * |rs| + Done(rs)
    ensures ANCHOR * |rs| <= Done(rs)
    decreases |rs|
  {
    hide IsRegion, EncodeOp, Uvarint;
    if rs != [] {
      var before, r := rs[..|rs| - 1], rs[|rs| - 1];
      CopiesSize(base, target, before);
      RegionInside(base, target, Done(before), r);
      var op := CopyOp(base, target, Done(before), Cursor(before), r);
      EncodeOpsMore(CopyOps(base, target, before), [op]);
      EncodeOne(op);
      OpSize(op);
    }
  }

  /** The patch for an n-byte target is at most 44 + n + 30 * (n / 32) bytes. */
  lemma PatchSize(base: seq<byte>, target: seq<byte>, rs: seq<Region>)
    requires Chosen(base, target, rs) && |target| < CAP && 2 * |base| <= CAP
    ensures |EncodePatch(|target|, AllOps(base, target, rs))| <= 44 + |target| + 30 * (|target| / 32)
  {
    hide Chosen, CopyOps, EncodeOps, EncodeOp, Uvarint;
    var ops, lit := CopyOps(base, target, rs), Done(rs);
    CopiesSize(base, target, rs);
    VarintSize(|target|);
    assert |rs| <= |target| / ANCHOR;
    EncodeOpsMore(ops, TrailingOps(target, lit));
    if lit < |target| {
      EncodeOne(Op(target[lit..], [], 0));
      OpSize(Op(target[lit..], [], 0));
    } else {
      assert EncodeOps([]) == [] by { EmptyOps(); }
    }
  }

  lemma EmptyOps()
    ensures EncodeOps([]) == []
  {
  }

  // ---- the specification determines the patch ----

  lemma RegionUnique(base: seq<byte>, target: seq<byte>, lit: nat, r: Region, r': Region)
    requires IsRegion(base, target, lit, r) && IsRegion(base, target, lit, r')
    ensures r == r'
  {
    SameHit(base, target, lit, r, r');
    assert Block(base, r.off) == Block(base, r'.off);
    assert r.off == r'.off;
    SameBack(base, target, lit, r.off, r.hit, r.back, r'.back);
    SameForward(base, target, r.off, r.hit, r.Forward(), r'.Forward());
  }

  lemma SameHit(base: seq<byte>, target: seq<byte>, lit: nat, r: Region, r': Region)
    requires IsRegion(base, target, lit, r) && IsRegion(base, target, lit, r')
    ensures r.hit == r'.hit
  {
    hide BackExtent, ForwardExtent;
    RegionHits(base, target, lit, r);
    RegionHits(base, target, lit, r');
  }

  lemma SameBack(base: seq<byte>, target: seq<byte>, lit: nat, off: nat, hit: nat, b: nat, b': nat)
    requires BackExtent(base, target, lit, off, hit, b) && BackExtent(base, target, lit, off, hit, b')
    ensures b == b'
  {
    assert b < b' ==> Same(base, target, off, hit, -1 - b);
    assert b' < b ==> Same(base, target, off, hit, -1 - b');
  }

  /** Past any point of a region from the anchor on, a match follows within MAX_GAP bytes. */
  lemma MatchFollows(base: seq<byte>, target: seq<byte>, off: nat, hit: nat, e: int, e': int)
    requires ForwardExtent(base, target, off, hit, e') && ANCHOR <= e < e'
    ensures GapEnds(base, target, off, hit, e)
  {
  }

  lemma NotShorter(base: seq<byte>, target: seq<byte>, off: nat, hit: nat, e: int, e': int)
    requires ForwardExtent(base, target, off, hit, e) && ForwardExtent(base, target, off, hit, e')
    ensures e >= e'
  {
    if e < e' {
      MatchFollows(base, target, off, hit, e, e');
    }
  }

  lemma SameForward(base: seq<byte>, target: seq<byte>, off: nat, hit: nat, e: int, e': int)
    requires ForwardExtent(base, target, off, hit, e) && ForwardExtent(base, target, off, hit, e')
    ensures e == e'
  {
    NotShorter(base, target, off, hit, e, e');
    NotShorter(base, target, off, hit, e', e);
  }

  lemma {:induction false} ChosenAt(base: seq<byte>, target: seq<byte>, rs: seq<Region>, i: nat)
    requires Chosen(base, target, rs) && i < |rs|
    ensures Chosen(base, target, rs[..i]) && IsRegion(base, target, Done(rs[..i]), rs[i])
    decreases |rs|
  {
    hide IsRegion;
    if i < |rs| - 1 {
      ChosenAt(base, target, rs[..|rs| - 1], i);
      assert rs[..|rs| - 1][..i] == rs[..i];
    }
  }

  lemma {:induction false} SamePrefix(base: seq<byte>, target: seq<byte>, rs: seq<Region>, rs': seq<Region>, i: nat)
    requires Chosen(base, target, rs) && Chosen(base, target, rs') && i <= |rs| && i <= |rs'|
    ensures rs[..i] == rs'[..i]
    decreases i
  {
    hide IsRegion, Chosen;
    if i > 0 {
      SamePrefix(base, target, rs, rs', i - 1);
      ChosenAt(base, target, rs, i - 1);
      ChosenAt(base, target, rs', i - 1);
      RegionUnique(base, target, Done(rs[..i - 1]), rs[i - 1], rs'[i - 1]);
      assert rs[..i] == rs[..i - 1] + [rs[i - 1]] && rs'[..i] == rs'[..i - 1] + [rs'[i - 1]];
    }
  }

  lemma NoMore(base: seq<byte>, target: seq<byte>, rs: seq<Region>, rs': seq<Region>)
    requires Greedy(base, target, rs) && Chosen(base, target, rs') && rs <= rs'
    ensures rs == rs'
  {
    hide Chosen, BackExtent, ForwardExtent;
    if |rs| < |rs'| {
      assert rs'[..|rs|] == rs;
      ChosenAt(base, target, rs', |rs|);
      RegionHits(base, target, Done(rs), rs'[|rs|]);
    }
  }

  lemma RegionHits(base: seq<byte>, target: seq<byte>, lit: nat, r: Region)
    requires IsRegion(base, target, lit, r)
    ensures lit <= r.hit < |target| && Hit(base, target, r.hit)
  {
  }

  /** The greedy rule leaves no choice: one base and one target have one list of regions, so the
      builder's contract fixes every byte of its patch. */
  lemma GreedyUnique(base: seq<byte>, target: seq<byte>, rs: seq<Region>, rs': seq<Region>)
    requires Greedy(base, target, rs) && Greedy(base, target, rs')
    ensures rs == rs'
  {
    hide Chosen, NoHit;
    if |rs| < |rs'| {
      SamePrefix(base, target, rs, rs', |rs|);
      NoMore(base, target, rs, rs');
    } else if |rs'| < |rs| {
      SamePrefix(base, target, rs, rs', |rs'|);
      NoMore(base, target, rs', rs);
    } else {
      SamePrefix(base, target, rs, rs', |rs|);
      assert rs[..|rs|] == rs && rs'[..|rs|] == rs';
    }
  }

  /** What a caller of the builder is promised: the one patch there is, of bounded size, which gives
      the target back whatever follows it. */
  lemma BuiltPatch(base: seq<byte>, target: seq<byte>, patch: seq<byte>, trailing: seq<byte>)
    requires IsDelta(base, target, patch)
    ensures forall other :: IsDelta(base, target, other) ==> other == patch
    ensures |target| < CAP && 2 * |base| <= CAP ==>
      Apply(base, patch + trailing) == Success(target) && |patch| <= 44 + |target| + 30 * (|target| / 32)
  {
    hide Chosen, NoHit, Apply, EncodePatch, AllOps, SeekFits;
    var rs :| Greedy(base, target, rs) && patch == EncodePatch(|target|, AllOps(base, target, rs));
    forall other | IsDelta(base, target, other)
      ensures other == patch
    {
      var rs' :| Greedy(base, target, rs') && other == EncodePatch(|target|, AllOps(base, target, rs'));
      GreedyUnique(base, target, rs, rs');
    }
    if |target| < CAP && 2 * |base| <= CAP {
      RoundTrip(base, target, rs, trailing);
      PatchSize(base, target, rs);
    }
  }
}
