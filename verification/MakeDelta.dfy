/**
  The patch builder (src/openmv_ota/ota/delta.py:97-153): which regions of the base it copies, and
  the patch it emits for them.
 */
module MakeDelta {
  import opened Bytes
  import opened Varint
  import opened Delta

  const ANCHOR := 32
  const MAX_GAP := 64

  // ---- anchors: the aligned 32-byte blocks of the base ----

  predicate IsAnchor(base: seq<byte>, i: nat) {
    i % 32 == 0 && i + 32 <= |base|
  }

  function Block(s: seq<byte>, i: nat): seq<byte>
    requires i + 32 <= |s|
  {
    s[i..i + 32]
  }

  /** `i` is the first anchor whose block is `key`. */
  ghost predicate FirstAnchor(base: seq<byte>, key: seq<byte>, i: nat) {
    && IsAnchor(base, i) && Block(base, i) == key
    && forall j: nat | j < i && IsAnchor(base, j) :: Block(base, j) != key
  }

  /** Some anchor of the base is the 32 bytes of the target at `p`. */
  ghost predicate Hit(base: seq<byte>, target: seq<byte>, p: nat) {
    p + 32 <= |target| && exists i: nat :: IsAnchor(base, i) && Block(base, i) == Block(target, p)
  }

  ghost predicate NoHit(base: seq<byte>, target: seq<byte>, from: nat, to: nat) {
    forall p: nat | from <= p < to :: !Hit(base, target, p)
  }

  // ---- regions ----

  /** A copied region: the anchor found (`hit` in the target, `off` in the base), how far it was
      extended backward, and its whole length. */
  datatype Region = Region(hit: nat, off: nat, back: nat, len: nat) {
    function Start(): int {
      hit - back
    }

    function From(): int {
      off - back
    }

    function End(): int {
      hit - back + len
    }

    function Cursor(): int {
      off - back + len
    }

    /** How far past the anchor's first byte the region goes. */
    function Forward(): int {
      len - back
    }
  }

  predicate Inside(base: seq<byte>, target: seq<byte>, lit: nat, r: Region) {
    && lit <= r.Start() && 0 <= r.From() && 32 <= r.Forward()
    && r.End() <= |target| && r.Cursor() <= |base|
  }

  /** Base and target agree `j` bytes past `off` and `hit`; they differ there. */
  predicate Same(base: seq<byte>, target: seq<byte>, off: nat, hit: nat, j: int) {
    0 <= off + j < |base| && 0 <= hit + j < |target| && base[off + j] == target[hit + j]
  }

  predicate Differs(base: seq<byte>, target: seq<byte>, off: nat, hit: nat, j: int) {
    0 <= off + j < |base| && 0 <= hit + j < |target| && base[off + j] != target[hit + j]
  }

  /** Of the 65 positions from `k` on, one agrees. */
  ghost predicate GapEnds(base: seq<byte>, target: seq<byte>, off: nat, hit: nat, k: int) {
    exists j :: k <= j <= k + 64 && Same(base, target, off, hit, j)
  }

  /** Backward extension is exact, and stops only at the base's start, the last region's end or a
      mismatch. */
  ghost predicate BackExtent(base: seq<byte>, target: seq<byte>, lit: nat, off: nat, hit: nat, back: nat) {
    && back <= off && lit + back <= hit
    && (forall j | -1 - back < j < 0 :: Same(base, target, off, hit, j))
    && (off == back || hit == lit + back || Differs(base, target, off, hit, -1 - back))
  }

  /** Forward extension ends on a match, tolerates at most 64 mismatches in a row, and stops
      only at an end of the inputs or before more than 64 mismatches. */
  ghost predicate ForwardExtent(base: seq<byte>, target: seq<byte>, off: nat, hit: nat, e: int) {
    && 32 <= e && Same(base, target, off, hit, e - 1)
    && (forall k :: 32 <= k && k + 64 < e ==> GapEnds(base, target, off, hit, k))
    && forall j | e <= j <= e + 64 :: !Same(base, target, off, hit, j)
  }

  /** What is copied next when everything before `lit` is done: the first hit, grown both ways. */
  ghost predicate IsRegion(base: seq<byte>, target: seq<byte>, lit: nat, r: Region) {
    && Inside(base, target, lit, r)
    && NoHit(base, target, lit, r.hit)
    && FirstAnchor(base, Block(target, r.hit), r.off)
    && BackExtent(base, target, lit, r.off, r.hit, r.back)
    && ForwardExtent(base, target, r.off, r.hit, r.Forward())
  }

  /** Where the target is done, and where the base cursor stands, after the regions `rs`. */
  function Done(rs: seq<Region>): int {
    if rs == [] then 0 else rs[|rs| - 1].End()
  }

  function Cursor(rs: seq<Region>): int {
    if rs == [] then 0 else rs[|rs| - 1].Cursor()
  }

  ghost predicate Chosen(base: seq<byte>, target: seq<byte>, rs: seq<Region>)
    ensures Chosen(base, target, rs) ==> 0 <= Done(rs) <= |target| && 0 <= Cursor(rs) <= |base|
  {
    rs != [] ==>
      var before := rs[..|rs| - 1];
      Chosen(base, target, before) && IsRegion(base, target, Done(before), rs[|rs| - 1])
  }

  /** The greedy choice of regions, through to the end of the target. */
  ghost predicate Greedy(base: seq<byte>, target: seq<byte>, rs: seq<Region>) {
    Chosen(base, target, rs) && NoHit(base, target, Done(rs), |target|)
  }

  // ---- the patch for a choice of regions ----

  function SubByte(t: byte, s: byte): byte {
    var d: int := t;
    (d - s) % 256
  }

  function Diff(base: seq<byte>, target: seq<byte>, r: Region): (d: seq<byte>)
    requires 0 <= r.From() && 0 <= r.Start() && r.Cursor() <= |base| && r.End() <= |target|
    ensures |d| == r.len
  {
    seq<byte>(r.len, i requires 0 <= i < r.len => SubByte(target[r.Start() + i], base[r.From() + i]))
  }

  function CopyOp(base: seq<byte>, target: seq<byte>, lit: nat, cursor: nat, r: Region): Op
    requires Inside(base, target, lit, r)
  {
    Op(target[lit..r.Start()], Diff(base, target, r), r.From() - cursor)
  }

  ghost function CopyOps(base: seq<byte>, target: seq<byte>, rs: seq<Region>): (ops: seq<Op>)
    requires Chosen(base, target, rs)
    ensures |ops| == |rs|
  {
    if rs == [] then []
    else
      var before, r := rs[..|rs| - 1], rs[|rs| - 1];
      CopyOps(base, target, before) + [CopyOp(base, target, Done(before), Cursor(before), r)]
  }

  /** The rest of the target, as a literal. */
  function TrailingOps(target: seq<byte>, lit: nat): (ops: seq<Op>)
    requires lit <= |target|
    ensures |ops| <= 1
  {
    if lit < |target| then [Op(target[lit..], [], 0)] else []
  }

  ghost function AllOps(base: seq<byte>, target: seq<byte>, rs: seq<Region>): seq<Op>
    requires Chosen(base, target, rs)
  {
    CopyOps(base, target, rs) + TrailingOps(target, Done(rs))
  }

  /** The patch for the greedy choice. */
  ghost predicate IsDelta(base: seq<byte>, target: seq<byte>, patch: seq<byte>) {
    exists rs :: Greedy(base, target, rs) && patch == EncodePatch(|target|, AllOps(base, target, rs))
  }

  // ---- the builder ----

  lemma NextAnchor(i: nat)
    requires i % ANCHOR == 0
    ensures (i + ANCHOR) % ANCHOR == 0 && forall j: nat | j % ANCHOR == 0 && j < i + ANCHOR :: j <= i
  {
  }

  method BuildIndex(base: seq<byte>) returns (index: map<seq<byte>, nat>)
    ensures forall key | key in index :: FirstAnchor(base, key, index[key])
    ensures forall i: nat | IsAnchor(base, i) :: Block(base, i) in index
  {
    index := map[];
    var i := 0;
    while i < |base| - ANCHOR + 1
      invariant i % ANCHOR == 0
      invariant forall key | key in index :: FirstAnchor(base, key, index[key])
      invariant forall j: nat | j < i && IsAnchor(base, j) :: Block(base, j) in index
    {
      if base[i..i + ANCHOR] !in index {
        index := index[base[i..i + ANCHOR] := i];
      }
      NextAnchor(i);
      i := i + ANCHOR;
    }
  }

  method ExtendBack(base: seq<byte>, target: seq<byte>, lit: nat, pos: nat, off: nat) returns (sb: nat, st: nat)
    requires lit <= pos <= |target| && off <= |base|
    ensures sb <= off && lit <= st && off - sb == pos - st && BackExtent(base, target, lit, off, pos, off - sb)
  {
    sb, st := off, pos;
    while sb > 0 && st > lit && base[sb - 1] == target[st - 1]
      invariant sb <= off && lit <= st <= pos && off - sb == pos - st
      invariant forall j | -1 - (off - sb) < j < 0 :: Same(base, target, off, pos, j)
    {
      sb := sb - 1;
      st := st - 1;
    }
  }

  method ExtendForward(base: seq<byte>, target: seq<byte>, pos: nat, off: nat) returns (lastEb: nat)
    requires off + ANCHOR <= |base| && pos + ANCHOR <= |target| && Same(base, target, off, pos, ANCHOR - 1)
    ensures off + ANCHOR <= lastEb <= |base| && pos + (lastEb - off) <= |target|
    ensures ForwardExtent(base, target, off, pos, lastEb - off)
  {
    var eb, et := off + ANCHOR, pos + ANCHOR;
    lastEb := eb;
    var gap := 0;
    while eb < |base| && et < |target|
      invariant off + ANCHOR <= lastEb <= eb <= |base| && et <= |target| && eb - off == et - pos
      invariant gap == eb - lastEb <= MAX_GAP
      invariant Same(base, target, off, pos, lastEb - off - 1)
      invariant forall j | lastEb - off <= j < eb - off :: !Same(base, target, off, pos, j)
      invariant forall k :: ANCHOR <= k && k + MAX_GAP < lastEb - off ==> GapEnds(base, target, off, pos, k)
    {
      if base[eb] == target[et] {
        GapClosed(base, target, off, pos, lastEb - off, eb - off);
        eb := eb + 1;
        et := et + 1;
        lastEb := eb;
        gap := 0;
      } else {
        gap := gap + 1;
        if gap > MAX_GAP {
          break;
        }
        eb := eb + 1;
        et := et + 1;
      }
    }
  }

  /** A match at `e'`, at most MAX_GAP past the last region end, moves that end past it. */
  lemma GapClosed(base: seq<byte>, target: seq<byte>, off: nat, hit: nat, e: int, e': int)
    requires e <= e' <= e + MAX_GAP && Same(base, target, off, hit, e - 1) && Same(base, target, off, hit, e')
    requires forall k :: ANCHOR <= k && k + MAX_GAP < e ==> GapEnds(base, target, off, hit, k)
    ensures forall k :: ANCHOR <= k && k + MAX_GAP < e' + 1 ==> GapEnds(base, target, off, hit, k)
  {
    forall k | ANCHOR <= k && k + MAX_GAP < e' + 1
      ensures GapEnds(base, target, off, hit, k)
    {
      assert k + MAX_GAP < e || k <= e - 1 <= k + MAX_GAP || k <= e' <= k + MAX_GAP;
    }
  }

  lemma {:induction false} EncodeOpsMore(ops: seq<Op>, more: seq<Op>)
    ensures EncodeOps(ops + more) == EncodeOps(ops) + EncodeOps(more)
  {
    hide EncodeOp;
    if ops == [] {
      assert ops + more == more;
    } else {
      EncodeOpsMore(ops[1..], more);
      assert (ops + more)[1..] == ops[1..] + more;
      Assoc(EncodeOp(ops[0]), EncodeOps(ops[1..]), EncodeOps(more));
    }
  }

  lemma EncodePatchMore(size: nat, ops: seq<Op>, more: seq<Op>)
    ensures EncodePatch(size, ops + more) == EncodePatch(size, ops) + EncodeOps(more)
  {
    hide EncodeOps, Uvarint;
    EncodeOpsMore(ops, more);
  }

  lemma EncodeOne(op: Op)
    ensures EncodeOps([op]) == EncodeOp(op)
  {
    hide EncodeOp;
    assert EncodeOps([op][1..]) == [];
  }

  lemma ChosenSnoc(base: seq<byte>, target: seq<byte>, rs: seq<Region>, r: Region)
    requires Chosen(base, target, rs) && IsRegion(base, target, Done(rs), r)
    ensures Chosen(base, target, rs + [r]) && Done(rs + [r]) == r.End() && Cursor(rs + [r]) == r.Cursor()
    ensures CopyOps(base, target, rs + [r])
         == CopyOps(base, target, rs) + [CopyOp(base, target, Done(rs), Cursor(rs), r)]
  {
    hide IsRegion, CopyOp;
    assert (rs + [r])[..|rs|] == rs;
  }

  method EmitCopy(out: ByteArray, base: seq<byte>, target: seq<byte>, lit: nat, cursor: nat, r: Region)
    requires Inside(base, target, lit, r)
    modifies out
    ensures out.data == old(out.data) + EncodeOp(CopyOp(base, target, lit, cursor, r))
  {
    hide Uvarint, Zigzag, Diff;
    var sb, st, diffLen := r.From(), r.Start(), r.len;
    var extra := target[lit..st];
    ghost var e, d, s := Uvarint(|extra|), Uvarint(diffLen), Svarint(sb - cursor);
    WriteUvarint(out, |extra|);
    WriteUvarint(out, diffLen);
    WriteSvarint(out, sb - cursor);
    out.Extend(extra);
    assert out.data == old(out.data) + (e + d + s + extra);
    EmitDiff(out, base, target, r);
    Assoc(old(out.data), e + d + s + extra, Diff(base, target, r));
  }

  lemma DiffMore(base: seq<byte>, target: seq<byte>, r: Region, i: nat)
    requires 0 <= r.From() && 0 <= r.Start() && r.Cursor() <= |base| && r.End() <= |target| && i < r.len
    ensures Diff(base, target, r)[..i + 1]
         == Diff(base, target, r)[..i] + [SubByte(target[r.Start() + i], base[r.From() + i])]
  {
    hide SubByte;
  }

  method EmitDiff(out: ByteArray, base: seq<byte>, target: seq<byte>, r: Region)
    requires 0 <= r.From() && 0 <= r.Start() && r.Cursor() <= |base| && r.End() <= |target|
    modifies out
    ensures out.data == old(out.data) + Diff(base, target, r)
  {
    hide Diff, SubByte;
    var sb, st := r.From(), r.Start();
    ghost var diff := Diff(base, target, r);
    var i := 0;
    while i < r.len
      invariant 0 <= i <= r.len
      invariant out.data == old(out.data) + diff[..i]
    {
      var b := SubByte(target[st + i], base[sb + i]);
      out.Append(b);
      DiffMore(base, target, r, i);
      Assoc(old(out.data), diff[..i], [b]);
      i := i + 1;
    }
    assert diff[..i] == diff;
  }

  lemma NoHitSoFar(base: seq<byte>, target: seq<byte>, pos: nat)
    ensures NoHit(base, target, pos, pos)
  {
  }

  /** A block of the target that is not in the index is no hit. */
  lemma NotHit(base: seq<byte>, target: seq<byte>, index: map<seq<byte>, nat>, lit: nat, pos: nat)
    requires forall i: nat | IsAnchor(base, i) :: Block(base, i) in index
    requires pos + ANCHOR <= |target| && Block(target, pos) !in index && NoHit(base, target, lit, pos)
    ensures NoHit(base, target, lit, pos + 1)
  {
  }

  lemma NoHitLeft(base: seq<byte>, target: seq<byte>, lit: nat, pos: nat)
    requires NoHit(base, target, lit, pos) && pos + ANCHOR > |target|
    ensures NoHit(base, target, lit, |target|)
  {
  }

  lemma AnchorSame(base: seq<byte>, target: seq<byte>, pos: nat, off: nat)
    requires pos + ANCHOR <= |target| && FirstAnchor(base, Block(target, pos), off)
    ensures off + ANCHOR <= |base| && Same(base, target, off, pos, ANCHOR - 1)
  {
    assert Block(base, off)[ANCHOR - 1] == Block(target, pos)[ANCHOR - 1];
  }

  lemma FoundRegion(base: seq<byte>, target: seq<byte>, lit: nat, r: Region)
    requires Inside(base, target, lit, r) && NoHit(base, target, lit, r.hit)
    requires FirstAnchor(base, Block(target, r.hit), r.off)
    requires BackExtent(base, target, lit, r.off, r.hit, r.back)
    requires ForwardExtent(base, target, r.off, r.hit, r.Forward())
    ensures IsRegion(base, target, lit, r)
  {
  }

  method MakeDelta(base: seq<byte>, target: seq<byte>) returns (patch: seq<byte>)
    ensures IsDelta(base, target, patch)
  {
    hide Uvarint, EncodeOp, EncodeOps, EncodePatch, CopyOps, CopyOp, Chosen, BackExtent, ForwardExtent, TrailingOps,
      IsRegion, FirstAnchor, NoHit, Hit;
    var index := BuildIndex(base);
    var out := new ByteArray();
    out.Extend(MAGIC);
    WriteUvarint(out, |target|);
    var n := |target|;
    var pos, litStart, cursor := 0, 0, 0;
    ghost var rs: seq<Region> := [];
    ghost var ops: seq<Op> := [];
    NoRegions(base, target, n);
    NoHitSoFar(base, target, 0);
    while pos + ANCHOR <= n
      invariant fresh(out)
      invariant Chosen(base, target, rs) && litStart == Done(rs) && cursor == Cursor(rs)
      invariant 0 <= cursor && litStart <= pos && NoHit(base, target, litStart, pos)
      invariant ops == CopyOps(base, target, rs) && out.data == EncodePatch(n, ops)
      decreases n - pos
    {
      if target[pos..pos + ANCHOR] !in index {
        NotHit(base, target, index, litStart, pos);
        pos := pos + 1;
        continue;
      }
      var off := index[target[pos..pos + ANCHOR]];
      AnchorSame(base, target, pos, off);
      var sb, st := ExtendBack(base, target, litStart, pos, off);
      var lastEb := ExtendForward(base, target, pos, off);
      var r := Region(pos, off, off - sb, lastEb - sb);
      FoundRegion(base, target, litStart, r);
      EmitCopy(out, base, target, litStart, cursor, r);
      ghost var op := CopyOp(base, target, litStart, cursor, r);
      ChosenSnoc(base, target, rs, r);
      EncodeOne(op);
      EncodePatchMore(n, ops, [op]);
      rs, ops := rs + [r], ops + [op];
      cursor := r.Cursor();
      pos := r.End();
      litStart := pos;
      NoHitSoFar(base, target, pos);
    }
    NoHitLeft(base, target, litStart, pos);
    EmitTrailing(out, target, litStart);
    EncodePatchMore(n, ops, TrailingOps(target, litStart));
    assert Greedy(base, target, rs);
    patch := out.data;
  }

  method EmitTrailing(out: ByteArray, target: seq<byte>, lit: nat)
    requires lit <= |target|
    modifies out
    ensures out.data == old(out.data) + EncodeOps(TrailingOps(target, lit))
  {
    hide Uvarint;
    if lit < |target| {
      WriteUvarint(out, |target| - lit);
      WriteUvarint(out, 0);
      WriteSvarint(out, 0);
      out.Extend(target[lit..]);
      EncodeOne(Op(target[lit..], [], 0));
    }
  }

  lemma NoRegions(base: seq<byte>, target: seq<byte>, size: nat)
    ensures Chosen(base, target, []) && CopyOps(base, target, []) == []
    ensures EncodePatch(size, []) == MAGIC + Uvarint(size)
  {
  }
}
