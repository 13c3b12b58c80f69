/**
  Iterative dominators and the lines a fired log print proves (ci/hil/static_coverage.py:52-137).
  The control-flow arcs, the statements and the owning functions are inputs.
 */
module Dominators {

  /** A node of the arc graph: a source line, or a sentinel numbered zero or below. */
  datatype Node = Node(line: int)

  // ---- paths ----

  /** The graph's edges. */
  ghost predicate Leads(preds: map<Node, set<Node>>, p: Node, n: Node) {
    n in preds && p in preds[n]
  }

  function Get(preds: map<Node, set<Node>>, n: Node): set<Node> {
    if n in preds then preds[n] else {}
  }

  /** The predecessors of `n` that are nodes, as the loop collects them. */
  function In(preds: map<Node, set<Node>>, nodes: set<Node>, n: Node): set<Node> {
    Get(preds, n) * nodes
  }

  lemma InIs(preds: map<Node, set<Node>>, nodes: set<Node>, n: Node)
    ensures forall p :: p in In(preds, nodes, n) <==> p in nodes && Leads(preds, p, n)
  {
  }

  /** Where a path may begin: the root, and any node nothing leads to. */
  ghost predicate IsEntry(preds: map<Node, set<Node>>, nodes: set<Node>, root: Node, n: Node) {
    n in nodes && (n == root || forall p | p in nodes :: !Leads(preds, p, n))
  }

  ghost predicate IsPath(preds: map<Node, set<Node>>, nodes: set<Node>, root: Node, path: seq<Node>) {
    && path != []
    && IsEntry(preds, nodes, root, path[0])
    && forall i | 0 < i < |path| :: path[i] in nodes && Leads(preds, path[i - 1], path[i])
  }

  ghost predicate PathTo(preds: map<Node, set<Node>>, nodes: set<Node>, root: Node, n: Node, path: seq<Node>) {
    IsPath(preds, nodes, root, path) && path[|path| - 1] == n
  }

  /** The textbook definition: `d` is on every path to `n`. */
  ghost predicate Dominates(preds: map<Node, set<Node>>, nodes: set<Node>, root: Node, d: Node, n: Node) {
    forall path :: PathTo(preds, nodes, root, n, path) ==> d in path
  }

  // ---- the data-flow equation ----

  type Dom = map<Node, set<Node>>

  /** `n` itself, and whatever dominates all its predecessors. */
  ghost function Flow(preds: map<Node, set<Node>>, nodes: set<Node>, dom: Dom, n: Node): set<Node>
    requires dom.Keys == nodes
  {
    var ps := In(preds, nodes, n);
    {n} + if ps == {} then {} else set d | d in nodes && forall p | p in ps :: d in dom[p]
  }

  ghost predicate Fixed(preds: map<Node, set<Node>>, nodes: set<Node>, root: Node, dom: Dom)
    requires dom.Keys == nodes
  {
    && (root in nodes ==> dom[root] == {root})
    && forall n | n in nodes && n != root :: dom[n] == Flow(preds, nodes, dom, n)
  }

  /** Nothing that dominates `n` is ever dropped from its set. */
  ghost predicate Keeps(preds: map<Node, set<Node>>, nodes: set<Node>, root: Node, dom: Dom)
    requires dom.Keys == nodes
  {
    forall n, d | n in nodes && d in nodes && Dominates(preds, nodes, root, d, n) :: d in dom[n]
  }

  /** Another pass can only shrink the sets. */
  ghost predicate Shrinking(preds: map<Node, set<Node>>, nodes: set<Node>, root: Node, dom: Dom)
    requires dom.Keys == nodes
  {
    && (root in nodes ==> dom[root] == {root})
    && forall n | n in nodes :: dom[n] <= nodes && (n != root ==> Flow(preds, nodes, dom, n) <= dom[n])
  }

  lemma FlowKeeps(preds: map<Node, set<Node>>, nodes: set<Node>, root: Node, dom: Dom, n: Node, d: Node)
    requires dom.Keys == nodes && Keeps(preds, nodes, root, dom) && n in nodes && n != root && d in nodes
    requires Dominates(preds, nodes, root, d, n)
    ensures d in Flow(preds, nodes, dom, n)
  {
    var ps := In(preds, nodes, n);
    InIs(preds, nodes, n);
    if d == n {
    } else if ps == {} {
      assert PathTo(preds, nodes, root, n, [n]);
    } else {
      forall p | p in ps
        ensures d in dom[p]
      {
        forall path | PathTo(preds, nodes, root, p, path)
          ensures d in path
        {
          assert PathTo(preds, nodes, root, n, path + [n]);
        }
      }
    }
  }

  /** At a fixpoint, everything left in `n`'s set is on every path to `n`. */
  lemma {:induction false} FixedDominates(preds: map<Node, set<Node>>, nodes: set<Node>, root: Node, dom: Dom,
                                          n: Node, d: Node, path: seq<Node>)
    requires dom.Keys == nodes && Fixed(preds, nodes, root, dom)
    requires PathTo(preds, nodes, root, n, path) && n in nodes && d in dom[n]
    ensures d in path
    decreases |path|
  {
    if n != root && d != n {
      if |path| > 1 {
        var before := path[..|path| - 1];
        assert PathTo(preds, nodes, root, path[|path| - 2], before);
        FixedDominates(preds, nodes, root, dom, path[|path| - 2], d, before);
      }
    }
  }

  function Nodes(s: seq<Node>): set<Node> {
    set n | n in s
  }

  lemma PathsGiveDom(preds: map<Node, set<Node>>, nodes: set<Node>, root: Node, dom: Dom)
    requires dom.Keys == nodes && Fixed(preds, nodes, root, dom) && Keeps(preds, nodes, root, dom)
    requires Shrinking(preds, nodes, root, dom)
    ensures forall n, d | n in dom ::
      d in dom[n] <==> d in nodes && Dominates(preds, nodes, root, d, n)
  {
    forall n, d | n in dom && d in dom[n]
      ensures Dominates(preds, nodes, root, d, n)
    {
      forall path | PathTo(preds, nodes, root, n, path)
        ensures d in path
      {
        FixedDominates(preds, nodes, root, dom, n, d, path);
      }
    }
  }

  // ---- the loop ----

  ghost function Weight(dom: Dom, order: seq<Node>): nat
    requires forall n | n in order :: n in dom
  {
    if order == [] then 0 else |dom[order[0]]| + Weight(dom, order[1..])
  }

  lemma SubsetSize(a: set<Node>, b: set<Node>)
    requires a <= b
    ensures |a| <= |b| && (a != b ==> |a| < |b|)
  {
    assert |b| == |a| + |b - a|;
  }

  lemma {:induction false} SmallerWeight(dom: Dom, dom': Dom, order: seq<Node>, n: Node)
    requires forall m | m in order :: m in dom && m in dom' && dom'[m] <= dom[m]
    ensures Weight(dom', order) <= Weight(dom, order)
    ensures n in order && dom'[n] != dom[n] ==> Weight(dom', order) < Weight(dom, order)
  {
    if order != [] {
      SubsetSize(dom'[order[0]], dom[order[0]]);
      SmallerWeight(dom, dom', order[1..], n);
    }
  }

  lemma StepKeeps(preds: map<Node, set<Node>>, nodes: set<Node>, root: Node, dom: Dom, n: Node)
    requires dom.Keys == nodes && n in nodes && n != root && Keeps(preds, nodes, root, dom)
    ensures Keeps(preds, nodes, root, dom[n := Flow(preds, nodes, dom, n)])
  {
    hide Dominates;
    forall d | d in nodes && Dominates(preds, nodes, root, d, n)
      ensures d in Flow(preds, nodes, dom, n)
    {
      FlowKeeps(preds, nodes, root, dom, n, d);
    }
  }

  lemma FlowShrinks(preds: map<Node, set<Node>>, nodes: set<Node>, dom: Dom, dom': Dom, n: Node)
    requires dom.Keys == dom'.Keys == nodes && forall m | m in nodes :: dom'[m] <= dom[m]
    ensures Flow(preds, nodes, dom', n) <= Flow(preds, nodes, dom, n)
  {
  }

  lemma StepShrinks(preds: map<Node, set<Node>>, nodes: set<Node>, root: Node, dom: Dom, n: Node)
    requires dom.Keys == nodes && n in nodes && n != root && Shrinking(preds, nodes, root, dom)
    ensures Flow(preds, nodes, dom, n) <= dom[n]
    ensures Shrinking(preds, nodes, root, dom[n := Flow(preds, nodes, dom, n)])
  {
    hide Flow;
    var dom' := dom[n := Flow(preds, nodes, dom, n)];
    forall m | m in nodes
      ensures Flow(preds, nodes, dom', m) <= Flow(preds, nodes, dom, m)
    {
      FlowShrinks(preds, nodes, dom, dom', m);
    }
  }

  lemma StartsKept(preds: map<Node, set<Node>>, nodes: set<Node>, root: Node, dom: Dom)
    requires dom == map n | n in nodes :: if n == root then {root} else nodes
    ensures Keeps(preds, nodes, root, dom) && Shrinking(preds, nodes, root, dom)
  {
    if root in nodes {
      assert PathTo(preds, nodes, root, root, [root]);
    }
  }

  method Meet(dom: Dom, alln: set<Node>, ps: set<Node>) returns (meet: set<Node>)
    requires ps <= dom.Keys
    ensures meet == set d | d in alln && forall p | p in ps :: d in dom[p]
  {
    meet := alln;
    var left := ps;
    while left != {}
      invariant left <= ps
      invariant meet == set d | d in alln && forall p | p in ps - left :: d in dom[p]
    {
      var p :| p in left;
      left := left - {p};
      meet := meet * dom[p];
    }
  }

  /** The shrinking-sets loop, in any visiting order: it terminates, and `d` stays in the set of
      `n` exactly when every path to `n` goes through `d`. */
  method Dominators(preds: map<Node, set<Node>>, order: seq<Node>, root: Node) returns (dom: Dom)
    ensures forall n :: n in dom <==> n in order
    ensures forall n, d | n in dom ::
      d in dom[n] <==> d in order && Dominates(preds, dom.Keys, root, d, n)
  {
    hide Dominates, Flow, Weight, Keeps, Shrinking, Fixed;
    var alln := Nodes(order);
    dom := map n | n in alln :: if n == root then {root} else alln;
    StartsKept(preds, alln, root, dom);
    var changed := true;
    while changed
      invariant dom.Keys == alln
      invariant Keeps(preds, alln, root, dom) && Shrinking(preds, alln, root, dom)
      invariant !changed ==> Fixed(preds, alln, root, dom)
      decreases Weight(dom, order), changed
    {
      changed := false;
      ghost var before := dom;
      for i := 0 to |order|
        invariant dom.Keys == alln
        invariant Keeps(preds, alln, root, dom) && Shrinking(preds, alln, root, dom)
        invariant !changed ==> dom == before && forall j | 0 <= j < i && order[j] != root ::
          dom[order[j]] == Flow(preds, alln, dom, order[j])
        invariant changed ==> Weight(dom, order) < Weight(before, order)
      {
        var n := order[i];
        if n == root {
          continue;
        }
        var ps := In(preds, dom.Keys, n);
        var meet := Meet(dom, alln, ps);
        var new_ := {n} + if ps != {} then meet else {};
        FlowIs(preds, alln, dom, n, meet);
        if new_ != dom[n] {
          StepKeeps(preds, alln, root, dom, n);
          StepShrinks(preds, alln, root, dom, n);
          SmallerWeight(dom, dom[n := new_], order, n);
          dom := dom[n := new_];
          changed := true;
        }
      }
      if !changed {
        PassFixes(preds, order, root, dom);
      }
    }
    PathsGiveDom(preds, alln, root, dom);
  }

  lemma PassFixes(preds: map<Node, set<Node>>, order: seq<Node>, root: Node, dom: Dom)
    requires dom.Keys == Nodes(order) && Shrinking(preds, dom.Keys, root, dom)
    requires forall j | 0 <= j < |order| && order[j] != root :: dom[order[j]] == Flow(preds, dom.Keys, dom, order[j])
    ensures Fixed(preds, dom.Keys, root, dom)
  {
    hide Flow;
    forall n | n in dom.Keys && n != root
      ensures dom[n] == Flow(preds, dom.Keys, dom, n)
    {
      var j :| 0 <= j < |order| && order[j] == n;
    }
  }

  lemma FlowIs(preds: map<Node, set<Node>>, nodes: set<Node>, dom: Dom, n: Node, meet: set<Node>)
    requires dom.Keys == nodes
    requires meet == set d | d in nodes && forall p | p in In(preds, nodes, n) :: d in dom[p]
    ensures Flow(preds, nodes, dom, n) == {n} + if In(preds, nodes, n) != {} then meet else {}
  {
  }
}
