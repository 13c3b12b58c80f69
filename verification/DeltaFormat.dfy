/**
  The OCDL patch format, and what a patch says, in bytes and positions: a grammar and a reading of
  it that share no code with the parser, the printer or the applier (src/openmv_ota/ota/delta.py:1-33).
 */
module DeltaFormat {
  import opened Wrappers
  import opened Bytes
  import opened Varint
  import opened Delta

  // ---- the grammar ----

  /** The lengths of the three varints that open an op. */
  datatype Lens = Lens(extra: nat, diff: nat, seek: nat) {
    predicate Ok() {
      0 < extra <= 10 && 0 < diff <= 10 && 0 < seek <= 10
    }

    function Size(): nat {
      extra + diff + seek
    }
  }

  /** From `pos` to `next`: how many literal bytes, how many copied, the seek, and the bytes of each. */
  ghost predicate OpIn(patch: bytes, pos: nat, op: Op, next: nat, n: Lens) {
    var body := pos + n.Size();
    && n.Ok() && 0 < |op.extra| + |op.diff|
    && VarintAt(patch, pos, n.extra, |op.extra|)
    && VarintAt(patch, pos + n.extra, n.diff, |op.diff|)
    && VarintAt(patch, pos + n.extra + n.diff, n.seek, Zigzag(op.seek))
    && next == body + |op.extra| + |op.diff| <= |patch|
    && patch[body..body + |op.extra|] == op.extra
    && patch[body + |op.extra|..next] == op.diff
  }

  ghost predicate OpAt(patch: bytes, pos: nat, op: Op, next: nat) {
    exists n :: OpIn(patch, pos, op, next, n)
  }

  /** The ops follow one another from `pos` to `end`. */
  ghost predicate OpsAt(patch: bytes, pos: nat, ops: seq<Op>, end: nat)
    decreases |ops|
  {
    if ops == [] then pos == end
    else exists next :: OpAt(patch, pos, ops[0], next) && OpsAt(patch, next, ops[1..], end)
  }

  /** "OCDL", the size of the target, and ops that add up to it; anything may follow. */
  ghost predicate PatchIs(patch: bytes, ops: seq<Op>, len: nat, end: nat) {
    && |patch| >= 4 && patch[0] == 0x4F && patch[1] == 0x43 && patch[2] == 0x44 && patch[3] == 0x4C
    && 0 < len <= 10 && VarintAt(patch, 4, len, Total(ops))
    && OpsAt(patch, 4 + len, ops, end)
  }

  // ---- the parser reads it ----

  lemma HeadIs(patch: bytes, pos: nat, op: Op, n: Lens)
    requires n.Ok()
    ensures ReadHead(patch, pos) == Success(Head(|op.extra|, |op.diff|, op.seek, pos + n.Size()))
      <== VarintAt(patch, pos, n.extra, |op.extra|) && VarintAt(patch, pos + n.extra, n.diff, |op.diff|)
          && VarintAt(patch, pos + n.extra + n.diff, n.seek, Zigzag(op.seek))
  {
    hide VarintAt, Read, Zigzag, Unzigzag;
    ReadIs(patch, pos, |op.extra|, n.extra);
    ReadIs(patch, pos + n.extra, |op.diff|, n.diff);
    ReadIs(patch, pos + n.extra + n.diff, Zigzag(op.seek), n.seek);
    ZigzagBack(op.seek);
  }

  lemma HeadLens(patch: bytes, pos: nat) returns (n: Lens)
    requires ReadHead(patch, pos).Success?
    ensures var h := ReadHead(patch, pos).value;
      && n.Ok() && h.body == pos + n.Size()
      && VarintAt(patch, pos, n.extra, h.extraLen) && VarintAt(patch, pos + n.extra, n.diff, h.diffLen)
      && VarintAt(patch, pos + n.extra + n.diff, n.seek, Zigzag(h.seek))
  {
    hide VarintAt, Read, Zigzag, Unzigzag;
    var r1 := Read(patch, pos).value;
    var r2 := Read(patch, r1.1).value;
    var r3 := Read(patch, r2.1).value;
    n := Lens(r1.1 - pos, r2.1 - r1.1, r3.1 - r2.1);
    ReadIs(patch, pos, r1.0, n.extra);
    ReadIs(patch, r1.1, r2.0, n.diff);
    ReadIs(patch, r2.1, r3.0, n.seek);
    ZigzagOnto(r3.0);
  }

  lemma OpIs(patch: bytes, pos: nat, need: nat, op: Op, next: nat)
    ensures ReadOp(patch, pos, need) == Success((op, next)) <==> OpAt(patch, pos, op, next) && op.Size() <= need
  {
    hide VarintAt, Zigzag, ReadHead;
    if ReadOp(patch, pos, need) == Success((op, next)) {
      var n := HeadLens(patch, pos);
      assert OpIn(patch, pos, op, next, n);
    }
    if OpAt(patch, pos, op, next) && op.Size() <= need {
      var n :| OpIn(patch, pos, op, next, n);
      HeadIs(patch, pos, op, n);
      VarintInside(patch, pos, n.extra, |op.extra|);
    }
  }

  lemma {:induction false} OpsAre(patch: bytes, pos: nat, ops: seq<Op>, end: nat)
    requires OpsAt(patch, pos, ops, end)
    ensures ParseOps(patch, pos, Total(ops)) == Success(ops)
    decreases |ops|
  {
    hide OpAt, ReadOp;
    if ops != [] {
      var next :| OpAt(patch, pos, ops[0], next) && OpsAt(patch, next, ops[1..], end);
      OpIs(patch, pos, Total(ops), ops[0], next);
      OpsAre(patch, next, ops[1..], end);
      assert [ops[0]] + ops[1..] == ops;
    }
  }

  lemma {:induction false} ParsedOpsAt(patch: bytes, pos: nat, need: nat) returns (end: nat)
    requires ParseOps(patch, pos, need).Success?
    ensures OpsAt(patch, pos, ParseOps(patch, pos, need).value, end)
    decreases need
  {
    hide OpAt, ReadOp;
    end := pos;
    if need > 0 {
      var (op, next) := ReadOp(patch, pos, need).value;
      OpIs(patch, pos, need, op, next);
      end := ParsedOpsAt(patch, next, need - op.Size());
      var ops := ParseOps(patch, pos, need).value;
      assert ops[1..] == ParseOps(patch, next, need - op.Size()).value;
    }
  }

  lemma HeaderIs(patch: bytes, size: nat, len: nat)
    requires 0 < len
    ensures ReadHeader(patch) == Success((size, 4 + len))
       <==> |patch| >= 4 && patch[0] == 0x4F && patch[1] == 0x43 && patch[2] == 0x44 && patch[3] == 0x4C
            && len <= 10 && VarintAt(patch, 4, len, size)
  {
    hide Read, VarintAt;
    if |patch| >= 4 {
      assert patch[..4] == [patch[0], patch[1], patch[2], patch[3]];
      ReadIs(patch, 4, size, len);
    }
  }

  /** A patch parses exactly when the grammar reads it, as the same ops. */
  lemma ParsesByGrammar(patch: bytes, ops: seq<Op>)
    ensures ParsePatch(patch) == Success(ops) <==> exists len: nat, end: nat :: PatchIs(patch, ops, len, end)
  {
    hide ReadHeader, VarintAt, OpsAt, ParseOps;
    if ParsePatch(patch) == Success(ops) {
      var (size, pos) := ReadHeader(patch).value;
      HeaderStarts(patch);
      HeaderIs(patch, size, pos - 4);
      var end := ParsedOpsAt(patch, pos, size);
      assert PatchIs(patch, ops, pos - 4, end);
    }
    if len: nat, end: nat :| PatchIs(patch, ops, len, end) {
      HeaderIs(patch, Total(ops), len);
      OpsAre(patch, 4 + len, ops, end);
    }
  }

  lemma HeaderStarts(patch: bytes)
    ensures ReadHeader(patch).Success? ==> ReadHeader(patch).value.1 > 4
  {
  }

  // ---- what the printer writes is all in the grammar ----

  lemma {:induction false} PrintedOpsAt(patch: bytes, pos: nat, ops: seq<Op>)
    requires At(patch, pos, EncodeOps(ops)) && forall op | op in ops :: Fits(op)
    ensures OpsAt(patch, pos, ops, pos + |EncodeOps(ops)|)
    decreases |ops|
  {
    hide EncodeOp, ReadOp, Fits, At, OpAt;
    if ops != [] {
      AtParts(patch, pos, EncodeOp(ops[0]), EncodeOps(ops[1..]));
      ReadPrintedOp(patch, pos, ops[0], ops[0].Size());
      OpIs(patch, pos, ops[0].Size(), ops[0], pos + |EncodeOp(ops[0])|);
      PrintedOpsAt(patch, pos + |EncodeOp(ops[0])|, ops[1..]);
    }
  }

  /** A printed patch is in the grammar from its first byte to its last. */
  lemma PrintedIs(ops: seq<Op>)
    requires Total(ops) < CAP && forall op | op in ops :: Fits(op)
    ensures var patch := EncodePatch(Total(ops), ops);
      PatchIs(patch, ops, |Uvarint(Total(ops))|, |patch|)
  {
    hide Uvarint, ReadHeader, Fits, EncodeOps, OpsAt, VarintAt, EncodePatch, Total;
    var patch, len := EncodePatch(Total(ops), ops), |Uvarint(Total(ops))|;
    PrintedHeader(ops, []);
    assert patch + [] == patch;
    HeaderIs(patch, Total(ops), len);
    PrintedOpsAt(patch, 4 + len, ops);
    PatchEnds(ops);
  }

  lemma PatchEnds(ops: seq<Op>)
    ensures |EncodePatch(Total(ops), ops)| == 4 + |Uvarint(Total(ops))| + |EncodeOps(ops)|
  {
    hide Uvarint, EncodeOps, Total;
  }

  // ---- what a patch says ----

  /** `out`, from `at` on, is the op's literals and then the base from `from` on, with the op's
      differences added modulo 256. */
  predicate PieceIs(base: bytes, op: Op, from: int, out: bytes) {
    && |out| >= |op.extra| + |op.diff| && 0 <= from && from + |op.diff| <= |base|
    && (forall k | 0 <= k < |op.extra| :: out[k] == op.extra[k])
    && forall k | 0 <= k < |op.diff| :: out[|op.extra| + k] == (base[from + k] as int + op.diff[k] as int) % 256
  }

  /** The output is the ops' pieces, in order; each copy starts where the one before it ended, plus
      its seek. */
  ghost predicate OutputIs(base: bytes, ops: seq<Op>, cursor: int, out: bytes)
    decreases |ops|
  {
    if ops == [] then out == []
    else
      && PieceIs(base, ops[0], cursor + ops[0].seek, out)
      && OutputIs(base, ops[1..], cursor + ops[0].seek + |ops[0].diff|, out[|ops[0].extra| + |ops[0].diff|..])
  }

  lemma EmitAt(base: bytes, op: Op, cursor: int, k: nat)
    requires InBase(base, cursor + op.seek, |op.diff|)
    ensures k < |op.extra| ==> Emit(base, op, cursor)[k] == op.extra[k]
    ensures k < |op.diff| ==>
      Emit(base, op, cursor)[|op.extra| + k] == (base[cursor + op.seek + k] as int + op.diff[k] as int) % 256
  {
  }

  lemma EmitIs(base: bytes, op: Op, cursor: int, out: bytes)
    requires InBase(base, cursor + op.seek, |op.diff|) && |out| >= op.Size()
    ensures PieceIs(base, op, cursor + op.seek, out) <==> out[..op.Size()] == Emit(base, op, cursor)
  {
    hide Emit;
    var e, n := Emit(base, op, cursor), |op.extra|;
    if PieceIs(base, op, cursor + op.seek, out) {
      forall i: nat | i < op.Size()
        ensures out[i] == e[i]
      {
        EmitAt(base, op, cursor, if i < n then i else i - n);
        assert i >= n ==> out[n + (i - n)] == e[n + (i - n)];
      }
    }
    if out[..op.Size()] == e {
      forall k: nat
        ensures k < n ==> out[k] == op.extra[k]
        ensures k < |op.diff| ==> out[n + k] == (base[cursor + op.seek + k] as int + op.diff[k] as int) % 256
      {
        EmitAt(base, op, cursor, k);
        assert k < n ==> out[k] == e[k];
        assert k < |op.diff| ==> out[n + k] == e[n + k];
      }
    }
  }

  lemma {:induction false} ReplayIs(base: bytes, ops: seq<Op>, cursor: int, out: bytes)
    ensures Replay(base, ops, cursor) == Some(out) <==> OutputIs(base, ops, cursor, out)
    decreases |ops|
  {
    hide Emit, PieceIs;
    if ops != [] {
      var size := ops[0].Size();
      if InBase(base, cursor + ops[0].seek, |ops[0].diff|) && |out| >= size {
        EmitIs(base, ops[0], cursor, out);
        ReplayIs(base, ops[1..], cursor + ops[0].seek + |ops[0].diff|, out[size..]);
        assert out == out[..size] + out[size..];
      } else {
        PieceFits(base, ops[0], cursor + ops[0].seek, out);
      }
    }
  }

  lemma PieceFits(base: bytes, op: Op, from: int, out: bytes)
    ensures PieceIs(base, op, from, out) ==> |out| >= op.Size() && InBase(base, from, |op.diff|)
  {
  }

  /** What the applier accepts and returns, with none of its own terms: the patch is in the grammar,
      and the output is what its ops say. */
  lemma AppliesByGrammar(base: bytes, patch: bytes, out: bytes)
    ensures Apply(base, patch) == Success(out) <==>
      exists ops, len: nat, end: nat :: PatchIs(patch, ops, len, end) && OutputIs(base, ops, 0, out)
  {
    hide Apply, ParsePatch, Replay, PatchIs, OutputIs;
    ApplyMeaning(base, patch, out);
    if Apply(base, patch) == Success(out) {
      var ops := ParsePatch(patch).value;
      ParsesByGrammar(patch, ops);
      ReplayIs(base, ops, 0, out);
    }
    if ops, len: nat, end: nat :| PatchIs(patch, ops, len, end) && OutputIs(base, ops, 0, out) {
      ParsesByGrammar(patch, ops);
      ReplayIs(base, ops, 0, out);
    }
  }
}
