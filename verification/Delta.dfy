/**
  The OCDL patch format: how a patch is read and replayed (src/openmv_ota/ota/delta.py:156-231).
  The reference is in two phases, parse then replay; the applier's loop interleaves them.
 */
module Delta {
  import opened Wrappers
  import opened Bytes
  import opened Varint

  const MAGIC: seq<byte> := [0x4F, 0x43, 0x44, 0x4C]  // "OCDL"

  /** Literal bytes, then a run of the base with a per-byte difference, after a signed seek. */
  datatype Op = Op(extra: seq<byte>, diff: seq<byte>, seek: int) {
    function Size(): nat {
      |extra| + |diff|
    }
  }

  function Total(ops: seq<Op>): nat {
    if ops == [] then 0 else ops[0].Size() + Total(ops[1..])
  }

  // ---- the printer ----

  function EncodeOp(op: Op): seq<byte> {
    Uvarint(|op.extra|) + Uvarint(|op.diff|) + Svarint(op.seek) + op.extra + op.diff
  }

  function EncodeOps(ops: seq<Op>): seq<byte> {
    if ops == [] then [] else EncodeOp(ops[0]) + EncodeOps(ops[1..])
  }

  function EncodePatch(size: nat, ops: seq<Op>): seq<byte> {
    MAGIC + Uvarint(size) + EncodeOps(ops)
  }

  // ---- the parser: independent of any base ----

  function ReadHeader(patch: seq<byte>): (r: Result<(nat, nat), Error>)
    ensures r.Success? ==> r.value.1 <= |patch|
  {
    if |patch| < |MAGIC| || patch[..|MAGIC|] != MAGIC then Failure(NotADelta)
    else Read(patch, |MAGIC|)
  }

  function TargetSize(patch: seq<byte>): Result<nat, Error> {
    var (size, _) :- ReadHeader(patch);
    Success(size)
  }

  /** The lengths and the seek that open an op, and where its bytes start. */
  datatype Head = Head(extraLen: nat, diffLen: nat, seek: int, body: nat) {
    function Size(): nat {
      extraLen + diffLen
    }
  }

  function ReadHead(patch: seq<byte>, pos: nat): (r: Result<Head, Error>)
    ensures r.Success? ==> pos < r.value.body <= |patch|
  {
    var (extraLen, p1) :- Read(patch, pos);
    var (diffLen, p2) :- Read(patch, p1);
    var (seek, p3) :- ReadSigned(patch, p2);
    Success(Head(extraLen, diffLen, seek, p3))
  }

  /** The op at `pos`, when `need` bytes of the target are still missing, and what follows it. */
  function ReadOp(patch: seq<byte>, pos: nat, need: nat): (r: Result<(Op, nat), Error>)
    ensures r.Success? ==> pos < r.value.1 <= |patch| && 0 < r.value.0.Size() <= need
  {
    if pos >= |patch| then Failure(Truncated) else
    var h :- ReadHead(patch, pos);
    if h.Size() == 0 then Failure(NoProgress)
    else if h.Size() > need then Failure(Overrun)
    else if h.body + h.Size() > |patch| then Failure(Truncated)
    else
      var mid := h.body + h.extraLen;
      Success((Op(patch[h.body..mid], patch[mid..mid + h.diffLen], h.seek), mid + h.diffLen))
  }

  function ParseOps(patch: seq<byte>, pos: nat, need: nat): (r: Result<seq<Op>, Error>)
    ensures r.Success? ==> Total(r.value) == need
    decreases need
  {
    if need == 0 then Success([]) else
    var (op, next) :- ReadOp(patch, pos, need);
    var ops :- ParseOps(patch, next, need - op.Size());
    Success([op] + ops)
  }

  function ParsePatch(patch: seq<byte>): (r: Result<seq<Op>, Error>)
    ensures r.Success? ==> TargetSize(patch) == Success(Total(r.value))
  {
    var (size, pos) :- ReadHeader(patch);
    ParseOps(patch, pos, size)
  }

  // ---- replaying parsed ops on a base ----

  function AddByte(s: int, d: int): byte {
    (s + d) % 256
  }

  function AddDiff(src: seq<byte>, diff: seq<byte>): (r: seq<byte>)
    requires |src| == |diff|
    ensures |r| == |diff|
  {
    seq(|diff|, i requires 0 <= i < |diff| => AddByte(src[i], diff[i]))
  }

  predicate InBase(base: seq<byte>, cursor: int, len: nat) {
    0 <= cursor && cursor + len <= |base|
  }

  function Emit(base: seq<byte>, op: Op, cursor: int): (r: seq<byte>)
    requires InBase(base, cursor + op.seek, |op.diff|)
    ensures |r| == op.Size()
  {
    op.extra + AddDiff(base[cursor + op.seek..cursor + op.seek + |op.diff|], op.diff)
  }

  function Replay(base: seq<byte>, ops: seq<Op>, cursor: int): (r: Option<seq<byte>>)
    ensures r.Some? ==> |r.value| == Total(ops)
  {
    if ops == [] then Some([])
    else if !InBase(base, cursor + ops[0].seek, |ops[0].diff|) then None
    else match Replay(base, ops[1..], cursor + ops[0].seek + |ops[0].diff|)
      case None => None
      case Some(rest) => Some(Emit(base, ops[0], cursor) + rest)
  }

  // ---- the applier: one pass, each op checked and replayed before the next is read ----

  function Run(base: seq<byte>, patch: seq<byte>, pos: nat, cursor: int, need: nat): (r: Result<seq<byte>, Error>)
    ensures r.Success? ==> |r.value| == need
    decreases need
  {
    if need == 0 then Success([]) else
    var (op, next) :- ReadOp(patch, pos, need);
    if !InBase(base, cursor + op.seek, |op.diff|) then Failure(OutOfBase) else
    var rest :- Run(base, patch, next, cursor + op.seek + |op.diff|, need - op.Size());
    Success(Emit(base, op, cursor) + rest)
  }

  function Apply(base: seq<byte>, patch: seq<byte>): (r: Result<seq<byte>, Error>)
    ensures r.Success? ==> TargetSize(patch) == Success(|r.value|)
  {
    var (size, pos) :- ReadHeader(patch);
    Run(base, patch, pos, 0, size)
  }

  /** The three varints that open an op, as both loops below read them. */
  method ReadOpHead(patch: seq<byte>, pos: nat) returns (r: Result<Head, Error>)
    ensures r == ReadHead(patch, pos)
  {
    var read :- ReadUvarint(patch, pos);
    var extraLen := read.0;
    read :- ReadUvarint(patch, read.1);
    var diffLen := read.0;
    read :- ReadUvarint(patch, read.1);
    return Success(Head(extraLen, diffLen, Unzigzag(read.0), read.1));
  }

  /** One turn of the applier, by what its op's head says. */
  ghost function Turn(base: seq<byte>, patch: seq<byte>, h: Head, cursor: int, need: nat): Result<seq<byte>, Error> {
    if h.Size() == 0 then Failure(NoProgress)
    else if h.Size() > need then Failure(Overrun)
    else if h.body + h.Size() > |patch| then Failure(Truncated)
    else
      var mid, at := h.body + h.extraLen, cursor + h.seek;
      if !InBase(base, at, h.diffLen) then Failure(OutOfBase)
      else Prepend(patch[h.body..mid] + AddDiff(base[at..at + h.diffLen], patch[mid..mid + h.diffLen]),
                   Run(base, patch, mid + h.diffLen, at + h.diffLen, need - h.Size()))
  }

  lemma RunIsTurn(base: seq<byte>, patch: seq<byte>, pos: nat, cursor: int, need: nat)
    requires 0 < need && pos < |patch|
    ensures var head, run := ReadHead(patch, pos), Run(base, patch, pos, cursor, need);
      if head.Failure? then run == Failure(head.error) else run == Turn(base, patch, head.value, cursor, need)
  {
    hide ReadHead, AddDiff;
  }

  method ApplyDelta(base: seq<byte>, patch: seq<byte>) returns (r: Result<seq<byte>, Error>)
    ensures r == Apply(base, patch)
    ensures r.Success? ==> TargetSize(patch) == Success(|r.value|)
  {
    hide ReadFrom, Read, ReadHead, Run, TargetSize, AddDiff, Zeros;
    if |patch| < |MAGIC| || patch[..|MAGIC|] != MAGIC {
      return Failure(NotADelta);
    }
    var header :- ReadUvarint(patch, |MAGIC|);
    var (targetSize, pos) := header;
    var out: seq<byte>, cursor, end := [], 0, |patch|;
    PrependNothing(Run(base, patch, pos, cursor, targetSize));
    while |out| < targetSize
      invariant 0 <= |out| <= targetSize && 0 <= pos <= end
      invariant Apply(base, patch) == Prepend(out, Run(base, patch, pos, cursor, targetSize - |out|))
      decreases targetSize - |out|
    {
      RunBlank(base, patch, pos, cursor, targetSize - |out|);
      if pos >= end {
        return Failure(Truncated);
      }
      RunIsTurn(base, patch, pos, cursor, targetSize - |out|);
      var head :- ReadOpHead(patch, pos);
      var Head(extraLen, diffLen, seek, body) := head;
      pos := body;
      if extraLen == 0 && diffLen == 0 {
        return Failure(NoProgress);
      }
      if |out| + extraLen + diffLen > targetSize {
        return Failure(Overrun);
      }
      if pos + extraLen + diffLen > end {
        return Failure(Truncated);
      }
      ghost var before := out;
      var extra := patch[pos..pos + extraLen];
      out := out + extra;
      pos := pos + extraLen;
      cursor := cursor + seek;
      if cursor < 0 || cursor + diffLen > |base| {
        return Failure(OutOfBase);
      }
      var src := base[cursor..cursor + diffLen];
      var diff := patch[pos..pos + diffLen];
      ghost var copy := AddDiff(src, diff);
      if diff == Zeros(diffLen) {
        AddZeros(src);
        out := out + src;
      } else {
        out := out + AddDiff(src, diff);
      }
      pos := pos + diffLen;
      cursor := cursor + diffLen;
      assert out == before + (extra + copy);
      PrependMore(before, extra + copy, Run(base, patch, pos, cursor, targetSize - |out|));
    }
    RunBlank(base, patch, pos, cursor, 0);
    assert out + [] == out;
    return Success(out);
  }

  lemma RunBlank(base: seq<byte>, patch: seq<byte>, pos: nat, cursor: int, need: nat)
    ensures need == 0 ==> Run(base, patch, pos, cursor, need) == Success([])
    ensures need > 0 && pos >= |patch| ==> Run(base, patch, pos, cursor, need) == Failure(Truncated)
  {
  }

  lemma AddZeros(src: seq<byte>)
    ensures AddDiff(src, Zeros(|src|)) == src
  {
  }

  lemma PrependNothing(rest: Result<seq<byte>, Error>)
    ensures Prepend([], rest) == rest
  {
    if rest.Success? {
      assert [] + rest.value == rest.value;
    }
  }

  function Zeros(n: nat): seq<byte> {
    seq(n, _ => 0)
  }

  ghost function Prepend(out: seq<byte>, rest: Result<seq<byte>, Error>): Result<seq<byte>, Error> {
    match rest
    case Failure(e) => Failure(e)
    case Success(more) => Success(out + more)
  }

  lemma PrependMore(out: seq<byte>, chunk: seq<byte>, rest: Result<seq<byte>, Error>)
    ensures Prepend(out, Prepend(chunk, rest)) == Prepend(out + chunk, rest)
  {
    if rest.Success? {
      assert out + (chunk + rest.value) == out + chunk + rest.value;
    }
  }

  // ---- the applier refines parse-then-replay ----

  lemma {:induction false} RunIsReplay(base: seq<byte>, patch: seq<byte>, pos: nat, cursor: int, need: nat)
    ensures var parsed, run := ParseOps(patch, pos, need), Run(base, patch, pos, cursor, need);
      if parsed.Failure? then run.Failure?
      else match Replay(base, parsed.value, cursor) {
        case None => run.Failure?
        case Some(out) => run == Success(out)
      }
    decreases need
  {
    hide ReadOp, Emit, Total;
    if need > 0 {
      var first := ReadOp(patch, pos, need);
      if first.Success? {
        var (op, next) := first.value;
        RunIsReplay(base, patch, next, cursor + op.seek + |op.diff|, need - op.Size());
      }
    }
  }

  /** A patch is accepted exactly when it parses and every copy is inside the base; the output is
      then the replay of the parsed ops, of exactly the declared size. */
  lemma ApplyMeaning(base: seq<byte>, patch: seq<byte>, out: seq<byte>)
    ensures Apply(base, patch) == Success(out) <==>
      ParsePatch(patch).Success? && Replay(base, ParsePatch(patch).value, 0) == Some(out)
    ensures Apply(base, patch) == Success(out) ==> TargetSize(patch) == Success(|out|)
  {
    var header := ReadHeader(patch);
    if header.Success? {
      RunIsReplay(base, patch, header.value.1, 0, header.value.0);
    }
  }

  // ---- parse undoes print ----

  predicate SeekFits(op: Op) {
    Zigzag(op.seek) < CAP
  }

  /** What the applier asks of an op, and what the varints of its lengths can carry. */
  predicate Sized(op: Op) {
    0 < op.Size() && |op.extra| < CAP && |op.diff| < CAP
  }

  predicate Fits(op: Op) {
    Sized(op) && SeekFits(op)
  }

  lemma OpParts(patch: seq<byte>, pos: nat, op: Op)
    requires At(patch, pos, EncodeOp(op))
    ensures var i := pos + |Uvarint(|op.extra|)|; var j := i + |Uvarint(|op.diff|)|; var k := j + |Svarint(op.seek)|;
      && At(patch, pos, Uvarint(|op.extra|)) && At(patch, i, Uvarint(|op.diff|)) && At(patch, j, Svarint(op.seek))
      && At(patch, k, op.extra) && At(patch, k + |op.extra|, op.diff)
  {
    hide Uvarint, Zigzag;
    var e, d, s := Uvarint(|op.extra|), Uvarint(|op.diff|), Svarint(op.seek);
    AtParts(patch, pos, e + d + s + op.extra, op.diff);
    AtParts(patch, pos, e + d + s, op.extra);
    AtParts(patch, pos, e + d, s);
    AtParts(patch, pos, e, d);
  }

  lemma ReadPrintedOp(patch: seq<byte>, pos: nat, op: Op, need: nat)
    requires At(patch, pos, EncodeOp(op)) && Fits(op) && op.Size() <= need
    ensures ReadOp(patch, pos, need) == Success((op, pos + |EncodeOp(op)|))
  {
    hide Uvarint, Zigzag, ReadFrom, Read, Unzigzag, ReadSigned;
    OpParts(patch, pos, op);
    var e, d := Uvarint(|op.extra|), Uvarint(|op.diff|);
    UvarintRoundTrip(patch, pos, |op.extra|);
    UvarintRoundTrip(patch, pos + |e|, |op.diff|);
    SvarintRoundTrip(patch, pos + |e| + |d|, op.seek);
  }

  /** A seek past the cap is refused, whatever the op. */
  lemma LongSeekRefused(patch: seq<byte>, pos: nat, op: Op, need: nat)
    requires At(patch, pos, EncodeOp(op)) && Sized(op) && !SeekFits(op)
    ensures ReadOp(patch, pos, need) == Failure(VarintTooLong)
  {
    hide Uvarint, Zigzag, ReadFrom, Read, Unzigzag;
    OpParts(patch, pos, op);
    var e, d := Uvarint(|op.extra|), Uvarint(|op.diff|);
    UvarintRoundTrip(patch, pos, |op.extra|);
    UvarintRoundTrip(patch, pos + |e|, |op.diff|);
    UvarintRoundTrip(patch, pos + |e| + |d|, Zigzag(op.seek));
  }

  /** Of printed ops that would replay, the first with a seek past the cap stops the applier. */
  lemma {:induction false} LongSeekStops(base: seq<byte>, patch: seq<byte>, pos: nat, ops: seq<Op>, cursor: int)
    requires At(patch, pos, EncodeOps(ops)) && Replay(base, ops, cursor).Some?
    requires forall op | op in ops :: Sized(op)
    requires exists op :: op in ops && !SeekFits(op)
    ensures Run(base, patch, pos, cursor, Total(ops)) == Failure(VarintTooLong)
    decreases |ops|
  {
    hide EncodeOp, ReadOp, SeekFits, At, Emit;
    AtParts(patch, pos, EncodeOp(ops[0]), EncodeOps(ops[1..]));
    if SeekFits(ops[0]) {
      var op, next := ops[0], pos + |EncodeOp(ops[0])|;
      ReadPrintedOp(patch, pos, op, Total(ops));
      LongSeekStops(base, patch, next, ops[1..], cursor + op.seek + |op.diff|);
    } else {
      LongSeekRefused(patch, pos, ops[0], Total(ops));
    }
  }

  lemma {:induction false} ParsePrintedOps(patch: seq<byte>, pos: nat, ops: seq<Op>)
    requires At(patch, pos, EncodeOps(ops)) && forall op | op in ops :: Fits(op)
    ensures ParseOps(patch, pos, Total(ops)) == Success(ops)
    decreases |ops|
  {
    hide EncodeOp, ReadOp, Fits, At;
    if ops != [] {
      AtParts(patch, pos, EncodeOp(ops[0]), EncodeOps(ops[1..]));
      ReadPrintedOp(patch, pos, ops[0], Total(ops));
      ParsePrintedOps(patch, pos + |EncodeOp(ops[0])|, ops[1..]);
      assert [ops[0]] + ops[1..] == ops;
    }
  }

  /** The header of a printed patch, and where its ops are. */
  lemma PrintedHeader(ops: seq<Op>, trailing: seq<byte>)
    ensures var patch, pos := EncodePatch(Total(ops), ops) + trailing, |MAGIC| + |Uvarint(Total(ops))|;
      && At(patch, pos, EncodeOps(ops))
      && ReadHeader(patch) == if Total(ops) < CAP then Success((Total(ops), pos)) else Failure(VarintTooLong)
  {
    hide Uvarint, ReadFrom, Read, EncodeOps, Total;
    var patch := EncodePatch(Total(ops), ops) + trailing;
    var size := Uvarint(Total(ops));
    assert patch == MAGIC + (size + (EncodeOps(ops) + trailing));
    assert At(patch, 0, MAGIC + (size + (EncodeOps(ops) + trailing)));
    AtParts(patch, 0, MAGIC, size + (EncodeOps(ops) + trailing));
    AtParts(patch, |MAGIC|, size, EncodeOps(ops) + trailing);
    AtParts(patch, |MAGIC + size|, EncodeOps(ops), trailing);
    UvarintRoundTrip(patch, |MAGIC|, Total(ops));
  }

  /** Parsing undoes printing, whatever follows the patch; a declared size past the cap is refused. */
  lemma ParsePrinted(ops: seq<Op>, trailing: seq<byte>)
    requires Total(ops) < CAP ==> forall op | op in ops :: Fits(op)
    ensures var patch := EncodePatch(Total(ops), ops) + trailing;
      if Total(ops) < CAP then ParsePatch(patch) == Success(ops)
      else ReadHeader(patch) == Failure(VarintTooLong)
  {
    hide Uvarint, ReadHeader, Fits, ParseOps, EncodeOps, EncodePatch;
    PrintedHeader(ops, trailing);
    if Total(ops) < CAP {
      ParsePrintedOps(EncodePatch(Total(ops), ops) + trailing, |MAGIC| + |Uvarint(Total(ops))|, ops);
    }
  }
}
