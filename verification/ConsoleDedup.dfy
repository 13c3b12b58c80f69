/**
  Printing each console line once (src/openmv_ota/client/watch.py:51-73). Sessions are of any type;
  a batch is given as its lines, ends kept, so its text is their concatenation.
 */
module ConsoleDedup {
  import opened Wrappers
  import opened Bytes

  const SIDS_KEPT := 8

  /** A batch from session `sid`: its lines, numbered from `seqNo` on if it is numbered. */
  datatype Batch<K> = Batch(sid: K, seqNo: Option<int>, lines: seq<string>) {
    /** Whether it is remembered: numbered, and not empty. */
    predicate Counts() {
      seqNo.Some? && lines != []
    }
  }

  /** A session and the highest line seen of it. */
  datatype Seen<K> = Seen(sid: K, top: int)

  function Concat(lines: seq<string>): string {
    if lines == [] then "" else lines[0] + Concat(lines[1..])
  }

  // ---- the dictionary, in insertion order ----

  function Get<K(==)>(tops: seq<Seen<K>>, sid: K): Option<int> {
    if tops == [] then None else if tops[0].sid == sid then Some(tops[0].top) else Get(tops[1..], sid)
  }

  function Pop<K(==)>(tops: seq<Seen<K>>, sid: K): (r: seq<Seen<K>>)
    ensures |r| <= |tops|
  {
    if tops == [] then []
    else if tops[0].sid == sid then Pop(tops[1..], sid)
    else [tops[0]] + Pop(tops[1..], sid)
  }

  function TopOf<K(==)>(tops: seq<Seen<K>>, sid: K): int {
    match Get(tops, sid)
    case None => -1
    case Some(top) => top
  }

  /** The lines numbered above `top`, `n` being the first line's number. */
  function Above(lines: seq<string>, n: int, top: int): seq<string> {
    if lines == [] then [] else (if n > top then [lines[0]] else []) + Above(lines[1..], n + 1, top)
  }

  function Last8<T>(s: seq<T>): (r: seq<T>)
    ensures |r| <= SIDS_KEPT
  {
    if |s| > SIDS_KEPT then s[|s| - SIDS_KEPT..] else s
  }

  // ---- what a batch prints, and what is remembered after it ----

  function Printed<K(==)>(tops: seq<Seen<K>>, b: Batch<K>): string {
    if b.seqNo.None? then Concat(b.lines) else Concat(Above(b.lines, b.seqNo.value, TopOf(tops, b.sid)))
  }

  function Highest<K(==)>(tops: seq<Seen<K>>, b: Batch<K>): int
    requires b.Counts()
  {
    var end := b.seqNo.value + |b.lines| - 1;
    if TopOf(tops, b.sid) > end then TopOf(tops, b.sid) else end
  }

  function After<K(==)>(tops: seq<Seen<K>>, b: Batch<K>): seq<Seen<K>> {
    if b.Counts() then Last8(Pop(tops, b.sid) + [Seen(b.sid, Highest(tops, b))]) else tops
  }

  class ConsoleDedup<K(==)> {
    var tops: seq<Seen<K>>

    constructor ()
      ensures tops == []
    {
      tops := [];
    }

    method Fresh(b: Batch<K>) returns (out: string)
      modifies this
      ensures out == Printed(old(tops), b) && tops == After(old(tops), b)
    {
      hide Above, Concat;
      if b.seqNo.None? {
        return Concat(b.lines);
      }
      var top := TopOf(tops, b.sid);
      out := Concat(Above(b.lines, b.seqNo.value, top));
      if b.lines != [] {
        var end := b.seqNo.value + |b.lines| - 1;
        tops := Pop(tops, b.sid);
        tops := tops + [Seen(b.sid, if top > end then top else end)];
        ghost var all := tops;
        while |tops| > SIDS_KEPT
          invariant |tops| <= |all| && tops == all[|all| - |tops|..]
          invariant |tops| >= SIDS_KEPT || tops == all
        {
          tops := tops[1..];
        }
      }
    }
  }

  // ---- which sessions are remembered ----

  function Sids<K>(tops: seq<Seen<K>>): (r: seq<K>)
    ensures |r| == |tops|
  {
    seq(|tops|, i requires 0 <= i < |tops| => tops[i].sid)
  }

  function Without<K(==)>(sids: seq<K>, sid: K): seq<K> {
    if sids == [] then []
    else if sids[0] == sid then Without(sids[1..], sid)
    else [sids[0]] + Without(sids[1..], sid)
  }

  function State<K(==)>(history: seq<Batch<K>>): seq<Seen<K>> {
    if history == [] then [] else After(State(history[..|history| - 1]), history[|history| - 1])
  }

  /** Every session ever seen, the most recently seen last. */
  function ByRecency<K(==)>(history: seq<Batch<K>>): seq<K> {
    if history == [] then []
    else
      var before, b := ByRecency(history[..|history| - 1]), history[|history| - 1];
      if b.Counts() then Without(before, b.sid) + [b.sid] else before
  }

  /** When a session was last seen: the number of batches up to then; 0 if never. */
  function LastSeen<K(==)>(history: seq<Batch<K>>, sid: K): nat {
    if history == [] then 0
    else if history[|history| - 1].Counts() && history[|history| - 1].sid == sid then |history|
    else LastSeen(history[..|history| - 1], sid)
  }

  ghost predicate Distinct<K>(s: seq<K>) {
    forall i, j | 0 <= i < j < |s| :: s[i] != s[j]
  }

  lemma {:induction false} SidsPop<K>(tops: seq<Seen<K>>, sid: K)
    ensures Sids(Pop(tops, sid)) == Without(Sids(tops), sid)
  {
    if tops != [] {
      SidsPop(tops[1..], sid);
      assert Sids(tops)[1..] == Sids(tops[1..]);
      if tops[0].sid != sid {
        assert Sids([tops[0]] + Pop(tops[1..], sid)) == [tops[0].sid] + Sids(Pop(tops[1..], sid));
      }
    }
  }

  lemma {:induction false} WithoutMore<K>(a: seq<K>, b: seq<K>, sid: K)
    ensures Without(a + b, sid) == Without(a, sid) + Without(b, sid)
  {
    if a == [] {
      assert a + b == b;
    } else {
      WithoutMore(a[1..], b, sid);
      assert (a + b)[1..] == a[1..] + b;
      Assoc([a[0]], Without(a[1..], sid), Without(b, sid));
    }
  }

  lemma {:induction false} WithoutOne<K>(s: seq<K>, sid: K)
    requires Distinct(s)
    ensures sid !in Without(s, sid) && Distinct(Without(s, sid))
    ensures forall x :: x in Without(s, sid) <==> x in s && x != sid
    ensures |Without(s, sid)| == if sid in s then |s| - 1 else |s|
    ensures sid !in s ==> Without(s, sid) == s
  {
    if s != [] {
      assert s == [s[0]] + s[1..];
      WithoutOne(s[1..], sid);
      assert s[0] !in s[1..];
      DistinctCons(s[0], Without(s[1..], sid));
    }
  }

  lemma DistinctCons<K>(x: K, s: seq<K>)
    requires Distinct(s) && x !in s
    ensures Distinct([x] + s)
  {
  }

  lemma Last8Suffix<T>(a: seq<T>, b: seq<T>)
    requires |b| >= SIDS_KEPT
    ensures Last8(a + b) == Last8(b)
  {
    assert (a + b)[|a| + |b| - SIDS_KEPT..] == b[|b| - SIDS_KEPT..];
  }

  lemma DistinctParts<K>(a: seq<K>, b: seq<K>)
    requires Distinct(a + b)
    ensures Distinct(a) && Distinct(b) && forall x | x in a :: x !in b
  {
    assert forall i | 0 <= i < |a| :: (a + b)[i] == a[i];
    assert forall i | 0 <= i < |b| :: (a + b)[|a| + i] == b[i];
  }

  /** Dropping from the front to eight commutes with moving a session to the back. */
  lemma MoveToBack<K>(all: seq<K>, sid: K)
    requires Distinct(all)
    ensures Last8(Without(Last8(all), sid) + [sid]) == Last8(Without(all, sid) + [sid])
  {
    if |all| > SIDS_KEPT {
      hide Distinct, Without, Last8;
      var k := |all| - SIDS_KEPT;
      var dropped, kept := all[..k], all[k..];
      assert all == dropped + kept;
      DistinctParts(dropped, kept);
      WithoutMore(dropped, kept, sid);
      WithoutOne(dropped, sid);
      WithoutOne(kept, sid);
      var tail := Without(kept, sid) + [sid];
      assert Without(all, sid) + [sid] == Without(dropped, sid) + tail;
      Last8Suffix(Without(dropped, sid), tail);
      KeptIs(all);
    } else {
      KeptIs(all);
    }
  }

  lemma KeptIs<T>(all: seq<T>)
    ensures Last8(all) == if |all| > SIDS_KEPT then all[|all| - SIDS_KEPT..] else all
  {
  }

  lemma SidsLast8<K>(tops: seq<Seen<K>>)
    ensures Sids(Last8(tops)) == Last8(Sids(tops))
  {
  }

  /** Over any history: at most eight sessions are remembered, and they are the eight seen last. */
  lemma {:induction false} RemembersTheLastSeen<K>(history: seq<Batch<K>>)
    ensures var all := ByRecency(history);
      Sids(State(history)) == (if |all| > 8 then all[|all| - 8..] else all) && |State(history)| <= 8
    ensures Distinct(ByRecency(history))
    decreases |history|
  {
    if history != [] {
      hide Distinct, Without, Last8, Pop, Highest;
      var before, b := history[..|history| - 1], history[|history| - 1];
      RemembersTheLastSeen(before);
      if b.Counts() {
        var tops, all := State(before), ByRecency(before);
        var seen := Seen(b.sid, Highest(tops, b));
        SidsPop(tops, b.sid);
        SidsLast8(Pop(tops, b.sid) + [seen]);
        assert Sids(Pop(tops, b.sid) + [seen]) == Sids(Pop(tops, b.sid)) + [b.sid];
        MoveToBack(all, b.sid);
        WithoutOne(all, b.sid);
        DistinctSnoc(Without(all, b.sid), b.sid);
      }
    } else {
      KeptIs<K>([]);
    }
  }

  lemma DistinctSnoc<K>(s: seq<K>, x: K)
    requires Distinct(s) && x !in s
    ensures Distinct(s + [x])
  {
  }

  ghost predicate Ordered<K>(s: seq<K>, rank: K -> int) {
    forall i, j | 0 <= i < j < |s| :: rank(s[i]) < rank(s[j])
  }

  lemma {:induction false} WithoutOrder<K>(s: seq<K>, sid: K, rank: K -> int)
    requires Ordered(s, rank)
    ensures Ordered(Without(s, sid), rank)
    ensures forall x :: x in Without(s, sid) ==> x in s && x != sid
  {
    if s != [] {
      WithoutOrder(s[1..], sid, rank);
      var rest := Without(s[1..], sid);
      forall x | x in rest
        ensures rank(s[0]) < rank(x)
      {
        var k :| 0 <= k < |s[1..]| && s[1..][k] == x;
        assert s[k + 1] == x;
      }
    }
  }

  lemma SnocRank<K>(s: seq<K>, x: K, rank: K -> int, rank': K -> int)
    requires Ordered(s, rank)
    requires forall y | y in s :: rank'(y) == rank(y) && rank'(y) < rank'(x)
    ensures Ordered(s + [x], rank')
  {
    forall i, j | 0 <= i < j < |s + [x]|
      ensures rank'((s + [x])[i]) < rank'((s + [x])[j])
    {
      assert s[i] in s;
      assert j < |s| ==> s[j] in s;
    }
  }

  lemma SameRank<K>(s: seq<K>, rank: K -> int, rank': K -> int)
    requires Ordered(s, rank) && forall y :: rank'(y) == rank(y)
    ensures Ordered(s, rank')
  {
  }

  lemma LastSeenMore<K>(before: seq<Batch<K>>, b: Batch<K>, sid: K)
    ensures LastSeen(before + [b], sid) == if b.Counts() && b.sid == sid then |before| + 1 else LastSeen(before, sid)
  {
    assert (before + [b])[..|before|] == before;
  }

  lemma RecencyMore<K>(before: seq<Batch<K>>, b: Batch<K>)
    ensures ByRecency(before + [b]) ==
      if b.Counts() then Without(ByRecency(before), b.sid) + [b.sid] else ByRecency(before)
  {
    assert (before + [b])[..|before|] == before;
  }

  lemma {:induction false} SeenBound<K>(history: seq<Batch<K>>, sid: K)
    ensures LastSeen(history, sid) <= |history|
  {
    if history != [] {
      SeenBound(history[..|history| - 1], sid);
    }
  }

  lemma {:induction false} SeenIsListed<K>(history: seq<Batch<K>>, sid: K)
    ensures sid in ByRecency(history) <==> LastSeen(history, sid) > 0
    decreases |history|
  {
    if history != [] {
      var before, b := history[..|history| - 1], history[|history| - 1];
      assert history == before + [b];
      SeenIsListed(before, sid);
      RemembersTheLastSeen(before);
      hide ByRecency, LastSeen, State, Distinct;
      RecencyMore(before, b);
      LastSeenMore(before, b, sid);
      WithoutOne(ByRecency(before), b.sid);
    }
  }

  lemma {:induction false} RecencyOrder<K>(history: seq<Batch<K>>)
    ensures Ordered(ByRecency(history), sid => LastSeen(history, sid))
    decreases |history|
  {
    if history != [] {
      var before, b := history[..|history| - 1], history[|history| - 1];
      assert history == before + [b];
      var old_ := ByRecency(before);
      RecencyOrder(before);
      RemembersTheLastSeen(before);
      hide ByRecency, LastSeen, State, Distinct, Without, Ordered;
      RecencyMore(before, b);
      if b.Counts() {
        var rest := Without(old_, b.sid);
        WithoutOrder(old_, b.sid, sid => LastSeen(before, sid));
        WithoutOne(old_, b.sid);
        LastSeenMore(before, b, b.sid);
        forall y | y in rest
          ensures LastSeen(history, y) == LastSeen(before, y) && LastSeen(before, y) < |history|
        {
          LastSeenMore(before, b, y);
          SeenBound(before, y);
        }
        SnocRank(rest, b.sid, sid => LastSeen(before, sid), sid => LastSeen(history, sid));
      } else {
        forall y: K
          ensures LastSeen(history, y) == LastSeen(before, y)
        {
          LastSeenMore(before, b, y);
        }
        SameRank(old_, sid => LastSeen(before, sid), sid => LastSeen(history, sid));
      }
    }
  }

  /** The order of recency is the order of last sighting, so the session dropped is the one least
      recently seen. */
  lemma RecencyIsLastSeen<K>(history: seq<Batch<K>>)
    ensures forall i, j | 0 <= i < j < |ByRecency(history)| ::
      LastSeen(history, ByRecency(history)[i]) < LastSeen(history, ByRecency(history)[j])
    ensures forall sid :: sid in ByRecency(history) <==> LastSeen(history, sid) > 0
    ensures forall sid :: LastSeen(history, sid) <= |history|
  {
    hide ByRecency, LastSeen;
    RecencyOrder(history);
    forall sid: K
      ensures sid in ByRecency(history) <==> LastSeen(history, sid) > 0
      ensures LastSeen(history, sid) <= |history|
    {
      SeenIsListed(history, sid);
      SeenBound(history, sid);
    }
  }

  // ---- what is printed of one session ----

  ghost function PrintedFor<K>(tops: seq<Seen<K>>, batches: seq<Batch<K>>, sid: K): string
    decreases |batches|
  {
    if batches == [] then ""
    else (if batches[0].sid == sid then Printed(tops, batches[0]) else "")
         + PrintedFor(After(tops, batches[0]), batches[1..], sid)
  }

  ghost function Final<K>(tops: seq<Seen<K>>, batches: seq<Batch<K>>): seq<Seen<K>>
    decreases |batches|
  {
    if batches == [] then tops else Final(After(tops, batches[0]), batches[1..])
  }

  /** `b` is lines of the log, numbered by their place in it. */
  predicate IsWindow<K>(b: Batch<K>, log: seq<string>) {
    && b.seqNo.Some? && 0 <= b.seqNo.value && b.seqNo.value + |b.lines| <= |log|
    && b.lines == log[b.seqNo.value..b.seqNo.value + |b.lines|]
  }

  /** While the batches go by, the session, once seen, stays remembered; and each of its batches is
      a window of its log that starts no later than one past the highest line seen. */
  ghost predicate Followed<K>(tops: seq<Seen<K>>, batches: seq<Batch<K>>, sid: K, log: seq<string>)
    decreases |batches|
  {
    batches != [] ==>
      && Get(tops, sid).Some?
      && (batches[0].sid == sid ==> IsWindow(batches[0], log) && batches[0].seqNo.value <= TopOf(tops, sid) + 1)
      && Get(After(tops, batches[0]), sid).Some?
      && Followed(After(tops, batches[0]), batches[1..], sid, log)
  }

  lemma {:induction false} ConcatMore(a: seq<string>, b: seq<string>)
    ensures Concat(a + b) == Concat(a) + Concat(b)
  {
    if a == [] {
      assert a + b == b;
    } else {
      ConcatMore(a[1..], b);
      assert (a + b)[1..] == a[1..] + b;
      Assoc(a[0], Concat(a[1..]), Concat(b));
    }
  }

  lemma SlicesJoin(log: seq<string>, a: nat, b: nat, c: nat)
    requires a <= b <= c <= |log|
    ensures Concat(log[a..b]) + Concat(log[b..c]) == Concat(log[a..c])
    ensures Concat(log[a..a]) == ""
  {
    ConcatMore(log[a..b], log[b..c]);
    assert log[a..b] + log[b..c] == log[a..c];
  }

  /** The lines above `top` are a tail of the batch. */
  lemma {:induction false} AboveIsTail(lines: seq<string>, n: int, top: int)
    ensures Above(lines, n, top)
         == if top < n then lines else if top - n + 1 >= |lines| then [] else lines[top - n + 1..]
  {
    if lines != [] {
      AboveIsTail(lines[1..], n + 1, top);
    }
  }

  lemma {:induction false} GetParts<K>(a: seq<Seen<K>>, b: seq<Seen<K>>, sid: K)
    ensures Get(a + b, sid) == if Get(a, sid).Some? then Get(a, sid) else Get(b, sid)
  {
    if a == [] {
      assert a + b == b;
    } else {
      GetParts(a[1..], b, sid);
      assert (a + b)[1..] == a[1..] + b;
    }
  }

  lemma {:induction false} GetPop<K>(tops: seq<Seen<K>>, sid: K, other: K)
    ensures Get(Pop(tops, sid), other) == if other == sid then None else Get(tops, other)
  {
    if tops != [] {
      GetPop(tops[1..], sid, other);
    }
  }

  lemma {:induction false} GetFound<K>(tops: seq<Seen<K>>, sid: K)
    ensures Get(tops, sid).Some? <==> sid in Sids(tops)
  {
    if tops != [] {
      GetFound(tops[1..], sid);
      assert Sids(tops) == [tops[0].sid] + Sids(tops[1..]);
    }
  }

  /** A session still there after the oldest are dropped has the number it had. */
  lemma GetLast8<K>(tops: seq<Seen<K>>, sid: K)
    requires Distinct(Sids(tops)) && Get(Last8(tops), sid).Some?
    ensures Get(Last8(tops), sid) == Get(tops, sid)
  {
    if |tops| > SIDS_KEPT {
      var k := |tops| - SIDS_KEPT;
      assert tops == tops[..k] + tops[k..];
      GetParts(tops[..k], tops[k..], sid);
      GetFound(tops[..k], sid);
      GetFound(tops[k..], sid);
      assert Sids(tops) == Sids(tops[..k]) + Sids(tops[k..]);
      DistinctParts(Sids(tops[..k]), Sids(tops[k..]));
    }
  }

  /** What a batch does to the number remembered for a session. */
  lemma GetAfter<K>(tops: seq<Seen<K>>, b: Batch<K>, sid: K)
    requires Distinct(Sids(tops)) && Get(After(tops, b), sid).Some?
    ensures Distinct(Sids(After(tops, b)))
    ensures Get(After(tops, b), sid)
         == if b.Counts() && b.sid == sid then Some(Highest(tops, b)) else Get(tops, sid)
  {
    hide Distinct, Last8, Highest, Pop, Without;
    if b.Counts() {
      var popped, seen := Pop(tops, b.sid), Seen(b.sid, Highest(tops, b));
      SidsPop(tops, b.sid);
      WithoutOne(Sids(tops), b.sid);
      assert Sids(popped + [seen]) == Sids(popped) + [b.sid];
      DistinctSnoc(Sids(popped), b.sid);
      SidsLast8(popped + [seen]);
      Last8Distinct(Sids(popped + [seen]));
      GetLast8(popped + [seen], sid);
      GetParts(popped, [seen], sid);
      GetPop(tops, b.sid, sid);
      assert Get([seen], sid) == if sid == b.sid then Some(seen.top) else None;
    }
  }

  lemma Last8Distinct<T>(s: seq<T>)
    requires Distinct(s)
    ensures Distinct(Last8(s))
  {
  }

  /** A batch just counted is remembered. */
  lemma CountedIsKept<K>(tops: seq<Seen<K>>, b: Batch<K>)
    requires b.Counts()
    ensures Get(After(tops, b), b.sid).Some?
  {
    var all := Pop(tops, b.sid) + [Seen(b.sid, Highest(tops, b))];
    GetFound(Last8(all), b.sid);
    hide Pop, Highest;
    var kept := Last8(all);
    assert kept[|kept| - 1].sid == b.sid;
    assert Sids(kept)[|kept| - 1] == b.sid;
  }

  /** The lines of a window past `h`, when it starts no later than `h + 1`: the log's next lines. */
  lemma WindowPrints<K>(tops: seq<Seen<K>>, b: Batch<K>, log: seq<string>, h: int)
    requires IsWindow(b, log) && b.seqNo.value <= h + 1 && TopOf(tops, b.sid) == h && -1 <= h < |log|
    ensures var h' := if b.Counts() then Highest(tops, b) else h;
      h <= h' < |log| && Printed(tops, b) == Concat(log[h + 1..h' + 1])
  {
    hide Concat, Above, TopOf;
    var n := b.seqNo.value;
    AboveIsTail(b.lines, n, h);
    var h' := if b.Counts() then Highest(tops, b) else h;
    if h < n {
      assert log[h + 1..h' + 1] == b.lines;
    } else if h - n + 1 < |b.lines| {
      assert b.lines[h - n + 1..] == log[h + 1..h' + 1];
    } else {
      assert log[h + 1..h' + 1] == [];
    }
  }

  lemma {:induction false} FollowedPrints<K>(tops: seq<Seen<K>>, batches: seq<Batch<K>>, sid: K, log: seq<string>,
                                             h: int)
    returns (last: int)
    requires Distinct(Sids(tops)) && Followed(tops, batches, sid, log) && Get(tops, sid) == Some(h) && -1 <= h < |log|
    ensures h <= last < |log| && Get(Final(tops, batches), sid) == Some(last)
    ensures PrintedFor(tops, batches, sid) == Concat(log[h + 1..last + 1])
    decreases |batches|
  {
    hide Concat, Distinct, After, Printed, IsWindow, Highest;
    last := h;
    if batches == [] {
      SlicesJoin(log, h + 1, h + 1, h + 1);
    } else {
      var b := batches[0];
      GetAfter(tops, b, sid);
      var h' := h;
      if b.sid == sid {
        WindowPrints(tops, b, log, h);
        h' := if b.Counts() then Highest(tops, b) else h;
      }
      last := FollowedPrints(After(tops, b), batches[1..], sid, log, h');
      SlicesJoin(log, h + 1, h' + 1, last + 1);
    }
  }

  /** The text printed for a session, from the first batch of it seen on and while it stays
      remembered, is its log from the first line seen to the highest, each line once. */
  lemma PrintsTheLogOnce<K>(past: seq<Batch<K>>, first: Batch<K>, later: seq<Batch<K>>, log: seq<string>)
    returns (last: int)
    requires Get(State(past), first.sid).None? && first.Counts() && IsWindow(first, log)
    requires Followed(After(State(past), first), later, first.sid, log)
    ensures first.seqNo.value <= last < |log|
    ensures Get(Final(State(past), [first] + later), first.sid) == Some(last)
    ensures PrintedFor(State(past), [first] + later, first.sid) == Concat(log[first.seqNo.value..last + 1])
  {
    hide Distinct, State, Concat, Above, After;
    var tops, n := State(past), first.seqNo.value;
    RemembersTheLastSeen(past);
    Last8Distinct(ByRecency(past));
    CountedIsKept(tops, first);
    GetAfter(tops, first, first.sid);
    AboveIsTail(first.lines, n, -1);
    var h := n + |first.lines| - 1;
    last := FollowedPrints(After(tops, first), later, first.sid, log, h);
    assert ([first] + later)[1..] == later;
    SlicesJoin(log, n, h + 1, last + 1);
  }

  // ---- one batch ----

  /** An unnumbered batch prints all its text, and an empty one nothing; neither is remembered. */
  lemma Unremembered<K>(tops: seq<Seen<K>>, b: Batch<K>)
    ensures b.seqNo.None? ==> Printed(tops, b) == Concat(b.lines) && After(tops, b) == tops
    ensures b.lines == [] ==> Printed(tops, b) == "" && After(tops, b) == tops
  {
  }

  /** A numbered batch prints its lines above the highest one seen of its session, -1 if none was. */
  lemma PrintsNewLines<K>(tops: seq<Seen<K>>, b: Batch<K>)
    requires b.seqNo.Some?
    ensures var n, top := b.seqNo.value, if Get(tops, b.sid).Some? then Get(tops, b.sid).value else -1;
      Printed(tops, b) == Concat(if top < n then b.lines else b.lines[Min(top - n + 1, |b.lines|)..])
  {
    hide Concat, Get, Above;
    var n, top := b.seqNo.value, TopOf(tops, b.sid);
    AboveIsTail(b.lines, n, top);
    assert b.lines[|b.lines|..] == [];
    assert Above(b.lines, n, top) == if top < n then b.lines else b.lines[Min(top - n + 1, |b.lines|)..];
  }

  /** A numbered batch with lines makes its session the last of at most eight, with the highest of the
      line seen before and the batch's own last. */
  lemma Remembers<K>(tops: seq<Seen<K>>, b: Batch<K>)
    requires b.seqNo.Some? && b.lines != []
    ensures var end := b.seqNo.value + |b.lines| - 1;
      var top := if Get(tops, b.sid).Some? then Get(tops, b.sid).value else -1;
      && After(tops, b) != [] && |After(tops, b)| <= 8
      && After(tops, b)[|After(tops, b)| - 1] == Seen(b.sid, if top > end then top else end)
  {
    hide Get, Pop;
  }

  function Min(a: nat, b: nat): nat {
    if a < b then a else b
  }
}
