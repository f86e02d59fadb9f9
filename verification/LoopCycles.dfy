/** Which cycles of a function the loop forest finds. */
module LoopCycles {
  import opened Graph
  import opened LoopAnalysis
  import opened LoopNesting
  import opened SpanningTree

  /** A walk that comes back to where it started. */
  ghost predicate IsCycle(g: Cfg, p: seq<nat>) {
    IsWalk(g, p) && |p| > 1 && p[0] == p[|p| - 1]
  }

  /** Block `d` is on the cycle and dominates all its blocks. */
  ghost predicate Heads(g: Cfg, d: nat, p: seq<nat>) {
    d in p && forall x :: x in p ==> Dominates(g, d, x)
  }

  /** Every cycle has a block that dominates all its blocks. */
  ghost predicate ReducibleGraph(g: Cfg) {
    forall p :: IsCycle(g, p) ==> exists d :: Heads(g, d, p)
  }

  /** All other blocks of the cycle are in the loop of `d`. */
  ghost predicate Found(a: Analysis, d: nat, p: seq<nat>)
    requires a.Valid()
    reads a
  {
    && d in a.number && a.number[d] < |a.types| && a.types[a.number[d]] != NonHeader
    && forall x :: x in p ==> x in a.number && a.number[x] in Body(FlowOf(a.g, a.node, a.par), a.header, a.number[d])
  }

  /** A node that guards another one is above it in the tree. */
  lemma GuardsAbove(f: Flow, w: nat, u: nat)
    requires FlowOk(f) && w < |f.par| && u < |f.par| && Guards(f, w, u)
    ensures Anc(f.par, w, u)
  {
    if !Anc(f.par, w, u) {
      var p := TreePathAvoids(f, w, u);
    }
  }

  /** A cycle is found if one of its blocks dominates all of them. */
  lemma DominatedCycleFound(a: Analysis, d: nat, p: seq<nat>)
    requires a.Valid() && AllReachable(a.g) && IsCycle(a.g, p) && Heads(a.g, d, p)
    ensures Found(a, d, p)
  {
    var g, f := a.g, FlowOf(a.g, a.node, a.par);
    AllNumbered(g, a.node, a.number, a.last, a.par);
    var q := NumberWalk(g, a.node, a.number, a.last, a.par, p);
    var w := a.number[d];
    forall i | 0 <= i < |p|
      ensures q[i] == a.number[p[i]] && q[i] in Subtree(f, w)
    {
      assert p[i] in p;
      GuardsIsDominates(g, a.node, a.number, a.last, a.par, w, q[i]);
      GuardsAbove(f, w, q[i]);
      RangeSize(|f.par|);
    }
    var k :| 0 <= k < |p| && p[k] == d;
    assert q[k] == w;
    assert LoopDone(f, a.header, a.types, w);
    var b := Body(f, a.header, w);
    CycleFoundIff(f, w, b, a.types[w], q);
    forall x | x in p
      ensures a.number[x] in b
    {
      var i :| 0 <= i < |p| && p[i] == x;
      assert q[i] in q;
    }
    CycleIsLoop(f, w, b, a.types[w], q);
  }

  /** A loop with a cycle in it is not a trivial one. */
  lemma CycleIsLoop(f: Flow, w: nat, b: set<nat>, t: NodeType, q: seq<nat>)
    requires FlowOk(f) && w < |f.par| && LoopOk(f, w, b, t)
    requires IsPath(f, b, q) && |q| > 1 && w in q
    ensures t != NonHeader
  {
    if b == {w} {
      assert q[0] == w && q[1] == w;
      assert IsBack(f, w, w) by { SelfAnc(f, w); }
    }
  }

  lemma SelfAnc(f: Flow, w: nat)
    requires FlowOk(f) && w < |f.par|
    ensures Anc(f.par, w, w)
  {
  }

  /** The blocks of a found cycle other than the header have a parent in the forest. */
  lemma FoundHasParent(a: Analysis, d: nat, p: seq<nat>, x: nat)
    requires a.Valid() && a.ForestOk() && Found(a, d, p) && x in p && x != d
    ensures x in a.parent
  {
    assert a.node[a.number[x]] == x && a.node[a.number[d]] == d;
  }

  /** In a reducible graph every cycle is found: its blocks other than the header
      have a parent in the forest. */
  lemma ReducibleAllFound(a: Analysis, p: seq<nat>)
    requires a.Valid() && AllReachable(a.g) && ReducibleGraph(a.g) && IsCycle(a.g, p)
    ensures exists d :: Heads(a.g, d, p) && Found(a, d, p) && (a.ForestOk() ==> forall x :: x in p && x != d ==> x in a.parent)
  {
    var d :| Heads(a.g, d, p);
    DominatedCycleFound(a, d, p);
    if a.ForestOk() {
      forall x | x in p && x != d ensures x in a.parent { FoundHasParent(a, d, p, x); }
    }
  }

  // ---------------------------------------------------------------------
  // Exactly the reducible graphs
  // ---------------------------------------------------------------------

  lemma RoundTrip(f: Flow, b: set<nat>, w: nat, u: nat) returns (r: seq<nat>)
    requires FlowOk(f) && Reach(f, b, w, u) && Reach(f, b, u, w) && u != w
    ensures IsPath(f, b, r) && |r| > 1 && r[0] == w && r[|r| - 1] == w && u in r
  {
    var p :| PathFromTo(f, b, w, u, p);
    var q :| PathFromTo(f, b, u, w, q);
    r := p + q[1..];
    forall i | 0 <= i < |r| - 1
      ensures r[i] in f.preds[r[i + 1]]
    {
      if i >= |p| - 1 { assert r[i] == q[i - (|p| - 1)] && r[i + 1] == q[i + 1 - (|p| - 1)]; }
    }
    assert r[|p| - 1] == u;
  }

  /** A closed path of numbers inside `b` is a cycle of blocks. */
  lemma BlockCycle(g: Cfg, node: seq<nat>, number: map<nat, nat>, last: seq<nat>, par: seq<nat>, b: set<nat>, r: seq<nat>)
    returns (p: seq<nat>)
    requires EntryFirst(g) && IsSpanning(g, node, number, last, par) && FlowOk(FlowOf(g, node, par))
    requires IsPath(FlowOf(g, node, par), b, r) && |r| > 1 && r[0] == r[|r| - 1] && r[0] < |par| && node[r[0]] < |g|
    ensures IsCycle(g, p)
    ensures forall i :: 0 <= i < |r| ==> r[i] < |par| && node[r[i]] in p
    ensures forall x :: x in p ==> x in number && number[x] in b
  {
    RangeSize(|par|);
    p := BlockWalk(g, node, number, last, par, r);
    forall x | x in p
      ensures x in number && number[x] in b
    {
      var i :| 0 <= i < |p| && p[i] == x;
      assert node[r[i]] == x;
    }
  }

  /** A member of a loop lies on a cycle through the header inside the loop. */
  lemma MemberCycle(a: Analysis, w: nat, u: nat) returns (p: seq<nat>)
    requires a.Valid() && w < |a.par| && u in Body(FlowOf(a.g, a.node, a.par), a.header, w) && u != w
    ensures u < |a.par| && IsCycle(a.g, p) && a.node[w] in p && a.node[u] in p
    ensures forall x :: x in p ==> x in a.number && a.number[x] in Body(FlowOf(a.g, a.node, a.par), a.header, w)
  {
    var r := MemberPath(FlowOf(a.g, a.node, a.par), a.header, a.types, w, u);
    assert LoopDone(FlowOf(a.g, a.node, a.par), a.header, a.types, w);
    MemberIsBlock(a.g, a.node, a.number, a.last, a.par, w, Body(FlowOf(a.g, a.node, a.par), a.header, w), a.types[w], w);
    p := BlockCycle(a.g, a.node, a.number, a.last, a.par, Body(FlowOf(a.g, a.node, a.par), a.header, w), r);
  }

  lemma MemberPath(f: Flow, h: seq<nat>, types: seq<NodeType>, w: nat, u: nat) returns (r: seq<nat>)
    requires FlowOk(f) && HeadersOk(h, 0) && |f.par| <= |h| == |types| && w < |f.par| && LoopDone(f, h, types, w)
    requires u in Body(f, h, w) && u != w
    ensures IsPath(f, Body(f, h, w), r) && |r| > 1 && r[0] == w && r[|r| - 1] == w && u in r
  {
    TreeReach(f, Body(f, h, w), w, u);
    r := RoundTrip(f, Body(f, h, w), w, u);
  }

  /** In a reducible graph a header guards all members of its loop. */
  lemma HeaderGuards(a: Analysis, w: nat, u: nat)
    requires a.Valid() && ReducibleGraph(a.g) && w < |a.par| && u in Body(FlowOf(a.g, a.node, a.par), a.header, w)
    ensures Guards(FlowOf(a.g, a.node, a.par), w, u)
  {
    var g, f := a.g, FlowOf(a.g, a.node, a.par);
    assert LoopDone(f, a.header, a.types, w);
    if u != w {
      var p := MemberCycle(a, w, u);
      var d :| Heads(g, d, p);
      var n := a.number[d];
      GuardsIsDominates(g, a.node, a.number, a.last, a.par, n, w);
      GuardsIsDominates(g, a.node, a.number, a.last, a.par, n, u);
      GuardsAbove(f, n, w);
      AncBelow(f.par, n, w);
      AncBelow(f.par, w, n);
    }
  }

  /** The graph is reducible exactly if every cycle is found in a loop that is not
      marked irreducible. */
  lemma ReducibleIffFound(a: Analysis)
    requires a.Valid() && AllReachable(a.g)
    ensures ReducibleGraph(a.g) <==> forall p :: IsCycle(a.g, p) ==> exists d :: FoundReducible(a, d, p)
  {
    if ReducibleGraph(a.g) {
      forall p | IsCycle(a.g, p)
        ensures exists d :: FoundReducible(a, d, p)
      {
        var d :| Heads(a.g, d, p);
        DominatedCycleFound(a, d, p);
        NotIrreducible(a, a.number[d]);
        assert FoundReducible(a, d, p);
      }
    }
    if forall p :: IsCycle(a.g, p) ==> exists d :: FoundReducible(a, d, p) {
      forall p | IsCycle(a.g, p)
        ensures exists d :: Heads(a.g, d, p)
      {
        var d :| FoundReducible(a, d, p);
        FoundHeads(a, d, p);
      }
    }
  }

  ghost predicate FoundReducible(a: Analysis, d: nat, p: seq<nat>)
    requires a.Valid()
    reads a
  {
    d in p && Found(a, d, p) && a.types[a.number[d]] != Irreducible
  }

  lemma NotIrreducible(a: Analysis, w: nat)
    requires a.Valid() && ReducibleGraph(a.g) && w < |a.par|
    ensures a.types[w] != Irreducible
  {
    var f := FlowOf(a.g, a.node, a.par);
    var b := Body(f, a.header, w);
    assert LoopDone(f, a.header, a.types, w);
    if b != {w} {
      forall u | u in b
        ensures Guards(f, w, u)
      {
        HeaderGuards(a, w, u);
      }
      ReducibleIff(f, w, b, a.types[w]);
    }
  }

  lemma FoundHeads(a: Analysis, d: nat, p: seq<nat>)
    requires a.Valid() && IsCycle(a.g, p) && FoundReducible(a, d, p)
    ensures Heads(a.g, d, p)
  {
    var w := a.number[d];
    var b := Body(FlowOf(a.g, a.node, a.par), a.header, w);
    assert LoopDone(FlowOf(a.g, a.node, a.par), a.header, a.types, w);
    assert a.node[w] == d;
    forall x | x in p
      ensures Dominates(a.g, d, x)
    {
      assert a.node[a.number[x]] == x;
      if b == {w} {
        assert x == d;
      } else {
        ReducibleDominates(a, w);
      }
    }
  }

  // ---------------------------------------------------------------------
  // A cycle that is missed
  // ---------------------------------------------------------------------

  const TWO_WAY: Cfg := [[1, 2], [2], [1]]

  /** Two blocks that jump to each other and can both be entered first have no head. */
  lemma TwoWayNotReducible()
    ensures IsCycle(TWO_WAY, [1, 2, 1]) && !ReducibleGraph(TWO_WAY)
  {
    var p := [1, 2, 1];
    assert IsCycle(TWO_WAY, p);
    assert WalkFromTo(TWO_WAY, 0, 2, [0, 2]) && WalkFromTo(TWO_WAY, 0, 1, [0, 1]);
    assert 1 in p && 2 in p;
    assert forall d :: !Heads(TWO_WAY, d, p);
  }

  lemma TwoWayNoBack(a: Analysis, v: nat, w: nat)
    requires a.Valid() && a.g == TWO_WAY && w < |a.par|
    ensures !IsBack(FlowOf(a.g, a.node, a.par), v, w)
  {
    PredIs(a.g, a.node, |a.par|, w, v);
    if v < |a.par| {
      TwoWayNode(a, v);
      TwoWayNode(a, w);
      assert Anc(a.par, w, 0) <==> w == 0;
    }
  }

  /** Blocks 1 and 2 were both pushed by block 0. */
  lemma TwoWayNode(a: Analysis, v: nat)
    requires a.Valid() && a.g == TWO_WAY && v < |a.par|
    ensures a.par[v] == 0 && (v == 0 <==> a.node[v] == 0) && a.node[v] < 3
    ensures Targets(a.g, a.node[v]) == if v == 0 then [1, 2] else if a.node[v] == 1 then [2] else [1]
  {
    if v > 0 {
      assert a.node[v] in Targets(a.g, a.node[a.par[v]]);
      assert a.node[0] == 0;
      assert a.node[v] in Targets(a.g, a.node[0]);
    }
  }

  /** Blocks are marked visited when they are pushed, so two targets of one branch
      that jump to each other are never above one another: their cycle is no loop. */
  method CycleMissed() returns (a: Analysis)
    ensures a.Valid() && a.ForestOk() && a.g == TWO_WAY && Edge(a.g, 1, 2) && Edge(a.g, 2, 1)
    ensures a.parent == map[] && a.roots == []
    ensures IsCycle(a.g, [1, 2, 1]) && !ReducibleGraph(a.g)
  {
    TwoWayNotReducible();
    var g := TWO_WAY;
    assert Edge(g, 0, 1) && Edge(g, 0, 2);
    assert WalkFromTo(g, 0, 0, [0]) && WalkFromTo(g, 0, 1, [0, 1]) && WalkFromTo(g, 0, 2, [0, 2]);
    assert Reachable(g, 0) && Reachable(g, 1) && Reachable(g, 2);
    a := new Analysis(g);
    forall v: nat, w: nat | w < |a.par| ensures !IsBack(FlowOf(a.g, a.node, a.par), v, w) { TwoWayNoBack(a, v, w); }
    NoBackNoLoop(a);
  }
}
