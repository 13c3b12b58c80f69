/**
  From the arcs of a file and the log prints that fired to the lines proved to have run
  (ci/hil/static_coverage.py:91-137).
 */
module ProvableLines {
  import opened Wrappers
  import opened Dominators

  datatype Arc = Arc(from: Node, to: Node)

  function ArcNodes(arcs: set<Arc>): set<Node> {
    (set a | a in arcs :: a.from) + (set a | a in arcs :: a.to)
  }

  function Before(arcs: set<Arc>, n: Node): set<Node> {
    set a | a in arcs && a.to == n :: a.from
  }

  // ---- what a run is ----

  ghost predicate OnArc(arcs: set<Arc>, n: Node) {
    exists a :: a in arcs && (a.from == n || a.to == n)
  }

  /** One activation: it starts where no arc leads, and follows arcs. */
  ghost predicate Activation(arcs: set<Arc>, path: seq<Node>) {
    && path != []
    && OnArc(arcs, path[0]) && (forall a | a in arcs :: a.to != path[0])
    && forall i | 0 < i < |path| :: Arc(path[i - 1], path[i]) in arcs
  }

  lemma NodesAre(arcs: set<Arc>, n: Node)
    ensures n in ArcNodes(arcs) <==> OnArc(arcs, n)
  {
  }

  lemma BeforeIs(arcs: set<Arc>, p: Node, n: Node)
    ensures p in Before(arcs, n) <==> Arc(p, n) in arcs
  {
  }

  lemma NoneBefore(arcs: set<Arc>, n: Node)
    ensures Before(arcs, n) == {} <==> forall a | a in arcs :: a.to != n
  {
    if Before(arcs, n) == {} {
      forall a | a in arcs
        ensures a.to != n
      {
        assert a.to == n ==> a.from in Before(arcs, n);
      }
    }
  }

  /** The program's run: the activations of its functions, each as far as it got. */
  ghost predicate Run(arcs: set<Arc>, run: seq<seq<Node>>) {
    forall path | path in run :: Activation(arcs, path)
  }

  ghost predicate Ran(run: seq<seq<Node>>, n: Node) {
    exists path :: path in run && n in path
  }

  /** Every activation that gets to `m` has been at `n`. */
  ghost predicate Witnessed(arcs: set<Arc>, m: Node, n: Node) {
    forall path :: Activation(arcs, path) && path[|path| - 1] == m ==> n in path
  }

  // ---- the rooted graph ----

  /** The arcs' predecessors, with the root put before every node that has none. */
  function RootedBefore(arcs: set<Arc>, root: Node, n: Node): set<Node> {
    if n == root then {} else if Before(arcs, n) == {} then {root} else Before(arcs, n)
  }

  ghost predicate Rooted(arcs: set<Arc>, preds: map<Node, set<Node>>, root: Node) {
    && root !in ArcNodes(arcs) && root.line <= 0
    && forall n | n in ArcNodes(arcs) + {root} :: Get(preds, n) == RootedBefore(arcs, root, n)
  }

  ghost function AtOrBelow(nodes: set<Node>, line: int): set<Node> {
    set n | n in nodes && n.line <= line
  }

  method FreshRoot(nodes: set<Node>) returns (root: Node)
    ensures root !in nodes && root.line <= 0
  {
    root := Node(0);
    while root in nodes
      invariant root.line <= 0
      decreases AtOrBelow(nodes, root.line)
    {
      assert root in AtOrBelow(nodes, root.line) && root !in AtOrBelow(nodes, root.line - 1);
      root := Node(root.line - 1);
    }
  }

  method Predecessors(arcs: set<Arc>) returns (preds: map<Node, set<Node>>)
    ensures forall n :: Get(preds, n) == Before(arcs, n)
  {
    preds := map[];
    var left := arcs;
    while left != {}
      invariant left <= arcs
      invariant forall n :: Get(preds, n) == Before(arcs - left, n)
    {
      var arc :| arc in left;
      BeforeMore(arcs - left, arc);
      assert arcs - left + {arc} == arcs - (left - {arc});
      left := left - {arc};
      preds := preds[arc.to := Get(preds, arc.to) + {arc.from}];
    }
    assert arcs - left == arcs;
  }

  lemma BeforeMore(arcs: set<Arc>, arc: Arc)
    ensures forall n :: Before(arcs + {arc}, n) == Before(arcs, n) + if n == arc.to then {arc.from} else {}
  {
  }

  method RootedGraph(arcs: set<Arc>) returns (preds: map<Node, set<Node>>, root: Node)
    ensures Rooted(arcs, preds, root)
  {
    preds := Predecessors(arcs);
    root := FreshRoot(ArcNodes(arcs));
    RootHasNone(arcs, root);
    ghost var nodes := ArcNodes(arcs);
    var todo := ArcNodes(arcs);
    hide Before, ArcNodes;
    while todo != {}
      invariant todo <= nodes && Get(preds, root) == {}
      invariant forall n | n in todo :: Get(preds, n) == Before(arcs, n)
      invariant forall n | n in nodes - todo :: Get(preds, n) == RootedBefore(arcs, root, n)
    {
      var n :| n in todo;
      todo := todo - {n};
      if Get(preds, n) == {} {
        preds := preds[n := {root}];
      }
    }
  }

  lemma RootHasNone(arcs: set<Arc>, root: Node)
    requires root !in ArcNodes(arcs)
    ensures Before(arcs, root) == {}
  {
  }

  // ---- paths from the root are the activations ----

  /** An edge of the rooted graph: an arc, or from the root to a node no arc leads to. */
  lemma RootedEdge(arcs: set<Arc>, preds: map<Node, set<Node>>, root: Node, p: Node, n: Node)
    requires Rooted(arcs, preds, root) && n in ArcNodes(arcs) + {root}
    ensures Leads(preds, p, n) <==>
      n != root && if forall a | a in arcs :: a.to != n then p == root else Arc(p, n) in arcs
  {
    hide ArcNodes, Before;
    NoneBefore(arcs, n);
    BeforeIs(arcs, p, n);
    assert Leads(preds, p, n) <==> p in Get(preds, n);
  }

  lemma RootedEntry(arcs: set<Arc>, preds: map<Node, set<Node>>, root: Node, n: Node)
    requires Rooted(arcs, preds, root)
    ensures IsEntry(preds, ArcNodes(arcs) + {root}, root, n) <==> n == root
  {
    hide Before, Rooted;
    var nodes := ArcNodes(arcs) + {root};
    if n in nodes && n != root {
      RootedEdge(arcs, preds, root, root, n);
      if a :| a in arcs && a.to == n {
        RootedEdge(arcs, preds, root, a.from, n);
        assert Leads(preds, a.from, n) && a.from in nodes;
      } else {
        assert Leads(preds, root, n);
      }
    }
  }

  lemma RootedPath(arcs: set<Arc>, preds: map<Node, set<Node>>, root: Node, m: Node, path: seq<Node>)
    requires Rooted(arcs, preds, root) && m != root
    ensures PathTo(preds, ArcNodes(arcs) + {root}, root, m, path) ==>
      |path| > 1 && path[0] == root && Activation(arcs, path[1..]) && path[1..][|path| - 2] == m
  {
    hide Before, ArcNodes, Rooted, Leads, IsEntry;
    var nodes := ArcNodes(arcs) + {root};
    if PathTo(preds, nodes, root, m, path) {
      RootedEntry(arcs, preds, root, path[0]);
      var rest := path[1..];
      RootedEdge(arcs, preds, root, root, rest[0]);
      NoArcFromRoot(arcs, preds, root, rest[0]);
      NodesAre(arcs, rest[0]);
      forall i | 0 < i < |rest|
        ensures Arc(rest[i - 1], rest[i]) in arcs
      {
        assert Leads(preds, path[i], path[i + 1]) && Leads(preds, path[i - 1], path[i]);
        RootedEdge(arcs, preds, root, path[i], path[i + 1]);
        RootedEdge(arcs, preds, root, path[i - 1], path[i]);
      }
    }
  }

  lemma NoArcFromRoot(arcs: set<Arc>, preds: map<Node, set<Node>>, root: Node, n: Node)
    requires Rooted(arcs, preds, root)
    ensures Arc(root, n) !in arcs
  {
  }

  lemma {:induction false} ActivationRooted(arcs: set<Arc>, preds: map<Node, set<Node>>, root: Node, path: seq<Node>)
    requires Rooted(arcs, preds, root) && Activation(arcs, path)
    ensures PathTo(preds, ArcNodes(arcs) + {root}, root, path[|path| - 1], [root] + path)
  {
    hide Before, ArcNodes, Rooted, Leads, IsEntry;
    var nodes, rooted := ArcNodes(arcs) + {root}, [root] + path;
    RootedEntry(arcs, preds, root, root);
    forall i | 0 < i < |rooted|
      ensures rooted[i] in nodes && Leads(preds, rooted[i - 1], rooted[i])
    {
      NodesAre(arcs, rooted[i]);
      if i > 1 {
        assert Arc(path[i - 2], path[i - 1]) in arcs;
      }
      NotRoot(arcs, preds, root, rooted[i]);
      RootedEdge(arcs, preds, root, rooted[i - 1], rooted[i]);
    }
  }

  lemma NotRoot(arcs: set<Arc>, preds: map<Node, set<Node>>, root: Node, n: Node)
    requires Rooted(arcs, preds, root) && n in ArcNodes(arcs)
    ensures n != root
  {
  }

  lemma DominatesIsWitnessed(arcs: set<Arc>, preds: map<Node, set<Node>>, root: Node, m: Node, n: Node)
    requires Rooted(arcs, preds, root) && m != root && n != root
    ensures Dominates(preds, ArcNodes(arcs) + {root}, root, n, m) <==> Witnessed(arcs, m, n)
  {
    hide Before, ArcNodes, PathTo, Rooted;
    var nodes := ArcNodes(arcs) + {root};
    if Witnessed(arcs, m, n) {
      forall path | PathTo(preds, nodes, root, m, path)
        ensures n in path
      {
        RootedPath(arcs, preds, root, m, path);
        assert n in path[1..];
      }
    }
    if Dominates(preds, nodes, root, n, m) {
      forall path | Activation(arcs, path) && path[|path| - 1] == m
        ensures n in path
      {
        ActivationRooted(arcs, preds, root, path);
        assert n in [root] + path;
      }
    }
  }

  // ---- the lines proved ----

  function OwnerOf(owner: map<Node, string>, n: Node): Option<string> {
    if n in owner then Some(owner[n]) else None
  }

  /** What one marker proves: the statements of its own function on every way to it. */
  ghost predicate Proves(arcs: set<Arc>, stmts: set<Node>, owner: map<Node, string>, m: Node, n: Node) {
    && OnArc(arcs, m) && OnArc(arcs, n) && n.line > 0 && n in stmts
    && (n in owner <==> m in owner) && (n in owner ==> owner[n] == owner[m])
    && Witnessed(arcs, m, n)
  }

  method SomeOrder(nodes: set<Node>) returns (order: seq<Node>)
    ensures Nodes(order) == nodes
  {
    order := [];
    var left := nodes;
    while left != {}
      invariant left <= nodes && Nodes(order) == nodes - left
    {
      var n :| n in left;
      left := left - {n};
      assert Nodes(order + [n]) == Nodes(order) + {n};
      order := order + [n];
    }
  }

  ghost predicate ProvedBySome(arcs: set<Arc>, stmts: set<Node>, owner: map<Node, string>, markers: set<Node>, n: Node)
  {
    exists m :: m in markers && Proves(arcs, stmts, owner, m, n)
  }

  /** The dominators of `m` that are lines of its own function. */
  function Credit(dom: Dom, owner: map<Node, string>, m: Node): set<Node> {
    if m !in dom then {} else set d | d in dom[m] && d.line > 0 && OwnerOf(owner, d) == OwnerOf(owner, m)
  }

  lemma CreditIsProof(arcs: set<Arc>, stmts: set<Node>, owner: map<Node, string>, preds: map<Node, set<Node>>,
                      root: Node, dom: Dom, m: Node)
    requires Rooted(arcs, preds, root)
    requires dom.Keys == ArcNodes(arcs) + {root}
    requires forall n, d | n in dom :: d in dom[n] <==> d in dom.Keys && Dominates(preds, dom.Keys, root, d, n)
    ensures forall n :: n in Credit(dom, owner, m) && n in stmts <==> Proves(arcs, stmts, owner, m, n)
  {
    forall n
      ensures n in Credit(dom, owner, m) && n in stmts <==> Proves(arcs, stmts, owner, m, n)
    {
      hide ArcNodes, Dominates, Witnessed;
      if n != root && m != root {
        DominatesIsWitnessed(arcs, preds, root, m, n);
      } else if m == root && m in dom && n != root {
        RootAlone(arcs, preds, root, n);
      }
    }
  }

  lemma RootAlone(arcs: set<Arc>, preds: map<Node, set<Node>>, root: Node, n: Node)
    requires n != root
    ensures !Dominates(preds, ArcNodes(arcs) + {root}, root, n, root)
  {
    assert PathTo(preds, ArcNodes(arcs) + {root}, root, root, [root]);
  }

  /** The lines returned are exactly the ones some fired marker proves. */
  method ProvableLines(arcs: set<Arc>, stmts: set<Node>, owner: map<Node, string>, markers: set<Node>)
    returns (lines: set<Node>)
    ensures forall n :: n in lines <==> ProvedBySome(arcs, stmts, owner, markers, n)
  {
    hide Before, ArcNodes, Rooted, Credit, Proves;
    var preds, root := RootedGraph(arcs);
    var order := SomeOrder(ArcNodes(arcs));
    assert Nodes([root] + order) == ArcNodes(arcs) + {root};
    var dom := Dominators.Dominators(preds, [root] + order, root);
    var out, left := {}, markers;
    while left != {}
      invariant left <= markers
      invariant forall n :: n in out && n in stmts <==> ProvedBySome(arcs, stmts, owner, markers - left, n)
    {
      var m :| m in left;
      CreditIsProof(arcs, stmts, owner, preds, root, dom, m);
      assert markers - (left - {m}) == markers - left + {m};
      left := left - {m};
      out := out + Credit(dom, owner, m);
    }
    assert markers - left == markers;
    lines := out * stmts;
  }

  /** Soundness: whenever every marker fired in a run, every line proved ran in it. */
  lemma ProvedLinesRan(arcs: set<Arc>, stmts: set<Node>, owner: map<Node, string>, markers: set<Node>,
                       run: seq<seq<Node>>, n: Node)
    requires Run(arcs, run) && forall m | m in markers :: Ran(run, m)
    requires ProvedBySome(arcs, stmts, owner, markers, n)
    ensures Ran(run, n)
  {
    var m :| m in markers && Proves(arcs, stmts, owner, m, n);
    var path :| path in run && m in path;
    var i :| 0 <= i < |path| && path[i] == m;
    var upTo := path[..i + 1];
    assert Activation(arcs, upTo) && upTo[|upTo| - 1] == m;
    assert n in path;
  }
}
