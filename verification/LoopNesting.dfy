/** What a loop forest over a numbered flow graph means. */
module LoopNesting {
  import opened SpanningTree

  /** A flow graph by numbers: tree parents and predecessors. */
  datatype Flow = Flow(par: seq<nat>, preds: seq<set<nat>>)

  ghost predicate FlowOk(f: Flow) {
    && IsTree(f.par) && |f.preds| == |f.par| > 0 && f.preds[0] == {}
    && (forall v :: 0 < v < |f.par| ==> f.par[v] in f.preds[v])
    && (forall v, u :: 0 <= v < |f.par| && u in f.preds[v] ==> u < |f.par|)
  }

  // ---------------------------------------------------------------------
  // Walks inside a set of nodes
  // ---------------------------------------------------------------------

  ghost predicate IsPath(f: Flow, b: set<nat>, p: seq<nat>) {
    && p != []
    && (forall i :: 0 <= i < |p| ==> p[i] in b && p[i] < |f.preds|)
    && (forall i :: 0 <= i < |p| - 1 ==> p[i] in f.preds[p[i + 1]])
  }

  ghost predicate PathFromTo(f: Flow, b: set<nat>, x: nat, y: nat, p: seq<nat>) {
    IsPath(f, b, p) && p[0] == x && p[|p| - 1] == y
  }

  ghost predicate Reach(f: Flow, b: set<nat>, x: nat, y: nat) {
    exists p :: PathFromTo(f, b, x, y, p)
  }

  lemma ReachSelf(f: Flow, b: set<nat>, x: nat)
    requires x in b && x < |f.preds|
    ensures Reach(f, b, x, x)
  {
    assert PathFromTo(f, b, x, x, [x]);
  }

  lemma ReachEdge(f: Flow, b: set<nat>, x: nat, y: nat)
    requires x in b && y in b && x < |f.preds| && y < |f.preds| && x in f.preds[y]
    ensures Reach(f, b, x, y)
  {
    assert PathFromTo(f, b, x, y, [x, y]);
  }

  lemma ReachTrans(f: Flow, b: set<nat>, x: nat, y: nat, z: nat)
    requires Reach(f, b, x, y) && Reach(f, b, y, z)
    ensures Reach(f, b, x, z)
  {
    var p :| PathFromTo(f, b, x, y, p);
    var q :| PathFromTo(f, b, y, z, q);
    var r := p + q[1..];
    forall i | 0 <= i < |r| - 1
      ensures r[i] in f.preds[r[i + 1]]
    {
      if i >= |p| - 1 { assert r[i] == q[i - (|p| - 1)] && r[i + 1] == q[i + 1 - (|p| - 1)]; }
    }
    assert PathFromTo(f, b, x, z, r);
  }

  lemma ReachMore(f: Flow, b: set<nat>, c: set<nat>, x: nat, y: nat)
    requires Reach(f, b, x, y) && b <= c
    ensures Reach(f, c, x, y)
  {
    var p :| PathFromTo(f, b, x, y, p);
    assert PathFromTo(f, c, x, y, p);
  }

  /** Inside a set closed under tree parents up to `w`, the tree leads from `w` to every node. */
  lemma {:induction false} TreeReach(f: Flow, b: set<nat>, w: nat, u: nat)
    requires FlowOk(f) && u < |f.par| && u in b && Anc(f.par, w, u)
    requires forall x :: x in b && x != w ==> x < |f.par| && f.par[x] in b
    ensures Reach(f, b, w, u)
    decreases u
  {
    if w == u {
      ReachSelf(f, b, u);
    } else {
      TreeReach(f, b, w, f.par[u]);
      ReachEdge(f, b, f.par[u], u);
      ReachTrans(f, b, w, f.par[u], u);
    }
  }

  /** All nodes. */
  ghost function Nodes(f: Flow): set<nat> {
    set u: nat | u in Range(|f.par|)
  }

  // ---------------------------------------------------------------------
  // Loops
  // ---------------------------------------------------------------------

  datatype NodeType = NonHeader | SelfLoop | Reducible | Irreducible

  /** Edges into `w` from its own subtree. */
  ghost predicate IsBack(f: Flow, v: nat, w: nat)
    requires IsTree(f.par)
  {
    v < |f.par| && w < |f.preds| && v in f.preds[w] && Anc(f.par, w, v)
  }

  /** Only its header lets control into the loop. */
  ghost predicate OneEntry(f: Flow, b: set<nat>, w: nat) {
    forall x, y :: y in b && y != w && y < |f.preds| && x in f.preds[y] ==> x in b
  }

  /** Some edge enters the loop from outside the subtree of its header, not at the header. */
  ghost predicate SideEntry(f: Flow, b: set<nat>, w: nat)
    requires FlowOk(f)
  {
    exists x, y :: y in b && y != w && y < |f.preds| && x in f.preds[y] && !Anc(f.par, w, x)
  }

  /** The loop with header `w` and body `b`. The body lies in the subtree of the
      header, is connected by the tree, leads back to the header, contains the
      source of every back edge and every predecessor that lies in the subtree; the
      type says how many back edges there are and whether control enters only at
      the header. */
  ghost predicate LoopOk(f: Flow, w: nat, b: set<nat>, t: NodeType)
    requires FlowOk(f) && w < |f.par|
  {
    && w in b
    && (forall u :: u in b ==> u < |f.par| && Anc(f.par, w, u))
    && (forall u :: u in b && u != w ==> f.par[u] in b)
    && (forall u :: u in b ==> Reach(f, b, u, w))
    && (forall v :: IsBack(f, v, w) ==> v in b)
    && (forall x, y :: y in b && y != w && x in f.preds[y] && x < |f.par| && Anc(f.par, w, x) ==> x in b)
    && (b == {w} <==> !(exists v :: IsBack(f, v, w) && v != w))
    && (t == NonHeader <==> !(exists v :: IsBack(f, v, w)))
    && (t == SelfLoop <==> IsBack(f, w, w) && b == {w})
    && (t == Reducible ==> b != {w} && OneEntry(f, b, w))
    && (t == Irreducible ==> b != {w} && SideEntry(f, b, w))
  }

  /** The nodes below `w`. */
  ghost function Subtree(f: Flow, w: nat): set<nat>
    requires FlowOk(f)
  {
    set u | u in Range(|f.par|) && u < |f.par| && Anc(f.par, w, u)
  }

  /** The body is what leads back to the header inside its subtree. */
  lemma BodyExact(f: Flow, w: nat, b: set<nat>, t: NodeType, u: nat)
    requires FlowOk(f) && w < |f.par| && LoopOk(f, w, b, t)
    ensures u in b <==> Reach(f, Subtree(f, w), u, w)
  {
    RangeSize(|f.par|);
    if u in b {
      assert b <= Subtree(f, w);
      ReachMore(f, b, Subtree(f, w), u, w);
    } else if Reach(f, Subtree(f, w), u, w) {
      var p :| PathFromTo(f, Subtree(f, w), u, w, p);
      PathInBody(f, w, b, t, p);
    }
  }

  lemma {:induction false} PathInBody(f: Flow, w: nat, b: set<nat>, t: NodeType, p: seq<nat>)
    requires FlowOk(f) && w < |f.par| && LoopOk(f, w, b, t)
    requires IsPath(f, Subtree(f, w), p) && p[|p| - 1] == w
    ensures p[0] in b
  {
    if |p| > 1 {
      assert p[0] in f.preds[p[1]];
      PathInBody(f, w, b, t, p[1..]);
      assert p[1..][0] == p[1];
      assert p[1] == w ==> IsBack(f, p[0], w);
    }
  }

  /** A closed walk through `w` lies in its loop exactly if it lies in its subtree. */
  lemma CycleFoundIff(f: Flow, w: nat, b: set<nat>, t: NodeType, p: seq<nat>)
    requires FlowOk(f) && w < |f.par| && LoopOk(f, w, b, t)
    requires IsPath(f, Nodes(f), p) && p[0] == p[|p| - 1] && w in p
    ensures (forall x :: x in p ==> x in b) <==> (forall x :: x in p ==> x in Subtree(f, w))
  {
    RangeSize(|f.par|);
    if forall x :: x in p ==> x in Subtree(f, w) {
      forall x | x in p
        ensures x in b
      {
        AroundTo(f, Subtree(f, w), p, x, w);
        BodyExact(f, w, b, t, x);
      }
    }
  }

  /** Around a closed walk every node leads to every other one. */
  lemma AroundTo(f: Flow, b: set<nat>, p: seq<nat>, x: nat, y: nat)
    requires IsPath(f, Nodes(f), p) && p[0] == p[|p| - 1] && x in p && y in p
    requires forall z :: z in p ==> z in b
    ensures Reach(f, b, x, y)
  {
    var i :| 0 <= i < |p| && p[i] == x;
    var j :| 0 <= j < |p| && p[j] == y;
    if i <= j {
      assert PathFromTo(f, b, x, y, p[i..j + 1]);
    } else {
      assert PathFromTo(f, b, x, p[0], p[i..]);
      assert PathFromTo(f, b, p[0], y, p[..j + 1]);
      ReachTrans(f, b, x, p[0], y);
    }
  }

  /** The body is strongly connected without leaving it. */
  lemma LoopConnected(f: Flow, w: nat, b: set<nat>, t: NodeType, u: nat, v: nat)
    requires FlowOk(f) && w < |f.par| && LoopOk(f, w, b, t) && u in b && v in b
    ensures Reach(f, b, u, v)
  {
    TreeReach(f, b, w, v);
    ReachTrans(f, b, u, w, v);
  }

  /** Every walk from the first node to `u` passes through `w`. */
  ghost predicate Guards(f: Flow, w: nat, u: nat) {
    forall p :: PathFromTo(f, Nodes(f), 0, u, p) ==> w in p
  }

  lemma {:induction false} EntersAtHeader(f: Flow, w: nat, b: set<nat>, p: seq<nat>)
    requires FlowOk(f) && w < |f.par| && IsPath(f, Nodes(f), p) && OneEntry(f, b, w)
    requires p[0] !in b && p[|p| - 1] in b
    ensures w in p
  {
    var n := |p| - 1;
    if p[n] != w {
      assert p[n - 1] in f.preds[p[n]];
      EntersAtHeader(f, w, b, p[..n]);
      assert w in p[..n];
    }
  }

  lemma {:induction false} TreePathAvoids(f: Flow, w: nat, x: nat) returns (p: seq<nat>)
    requires FlowOk(f) && x < |f.par| && !Anc(f.par, w, x)
    ensures PathFromTo(f, Nodes(f), 0, x, p) && w !in p
    decreases x
  {
    RangeSize(|f.par|);
    if x == 0 {
      p := [0];
    } else {
      var q := TreePathAvoids(f, w, f.par[x]);
      p := q + [x];
    }
  }

  /** A loop with another member than its header is marked reducible exactly if
      the header guards every member. */
  lemma ReducibleIff(f: Flow, w: nat, b: set<nat>, t: NodeType)
    requires FlowOk(f) && w < |f.par| && LoopOk(f, w, b, t) && b != {w}
    ensures t == Reducible <==> forall u :: u in b ==> Guards(f, w, u)
  {
    RootOut(f, w, b, t);
    if t == Reducible {
      forall u, p | u in b && PathFromTo(f, Nodes(f), 0, u, p)
        ensures w in p
      {
        EntersAtHeader(f, w, b, p);
      }
    } else {
      SideEntryUnguarded(f, w, b);
    }
  }

  lemma SideEntryUnguarded(f: Flow, w: nat, b: set<nat>)
    requires FlowOk(f) && w < |f.par| && SideEntry(f, b, w)
    ensures exists u :: u in b && !Guards(f, w, u)
  {
    var x, y :| y in b && y != w && y < |f.preds| && x in f.preds[y] && !Anc(f.par, w, x);
    var q := TreePathAvoids(f, w, x);
    RangeSize(|f.par|);
    assert PathFromTo(f, Nodes(f), 0, y, q + [y]);
    assert w !in q + [y];
    assert !Guards(f, w, y);
  }

  /** The first node is in no loop. */
  lemma {:induction false} RootOut(f: Flow, w: nat, b: set<nat>, t: NodeType)
    requires FlowOk(f) && w < |f.par| && LoopOk(f, w, b, t) && b != {w}
    ensures 0 !in b
  {
    var v :| IsBack(f, v, w) && v != w;
  }

  // ---------------------------------------------------------------------
  // Header links
  // ---------------------------------------------------------------------

  /** A header has a smaller number than its members; 0 means none. */
  ghost predicate HeadersOk(h: seq<nat>, least: nat) {
    forall x :: 0 <= x < |h| && h[x] != 0 ==> least <= h[x] < x
  }

  /** The outermost header so far. */
  ghost function Top(h: seq<nat>, u: nat): nat
    requires HeadersOk(h, 0) && u < |h|
    decreases u
  {
    if h[u] == 0 then u else Top(h, h[u])
  }

  /** `u` is in the loop of `w`, directly or in an inner loop. */
  ghost predicate InLoop(h: seq<nat>, u: nat, w: nat)
    requires HeadersOk(h, 0) && u < |h|
    decreases u
  {
    u == w || (h[u] != 0 && InLoop(h, h[u], w))
  }

  ghost function Body(f: Flow, h: seq<nat>, w: nat): set<nat>
    requires HeadersOk(h, 0) && |f.par| <= |h|
  {
    set u | u in Range(|f.par|) && u < |h| && InLoop(h, u, w)
  }

  lemma {:induction false} InLoopBelow(h: seq<nat>, u: nat, w: nat)
    requires HeadersOk(h, 0) && u < |h| && InLoop(h, u, w)
    ensures w <= u
    decreases u
  {
    if u != w { InLoopBelow(h, h[u], w); }
  }

  /** As long as `w` has no header, its loop is what has it as the outermost one. */
  lemma {:induction false} TopInLoop(h: seq<nat>, u: nat, w: nat)
    requires HeadersOk(h, 0) && u < |h| && w < |h| && h[w] == 0
    ensures InLoop(h, u, w) <==> Top(h, u) == w
    decreases u
  {
    if h[u] != 0 { TopInLoop(h, h[u], w); }
  }

  lemma {:induction false} TopLarge(h: seq<nat>, least: nat, u: nat)
    requires HeadersOk(h, least) && HeadersOk(h, 0) && u < |h|
    ensures Top(h, u) == u || Top(h, u) >= least
    decreases u
  {
    if h[u] != 0 { TopLarge(h, least, h[u]); }
  }

  /** `k` differs from `h` in that some nodes without a header got header `w`. */
  ghost predicate Adds(h: seq<nat>, k: seq<nat>, ps: set<nat>, w: nat) {
    && |h| == |k|
    && forall x :: 0 <= x < |h| ==> if x in ps then h[x] == 0 && k[x] == w else k[x] == h[x]
  }

  lemma {:induction false} AddsTop(h: seq<nat>, k: seq<nat>, ps: set<nat>, w: nat, u: nat)
    requires HeadersOk(h, 0) && HeadersOk(k, 0) && Adds(h, k, ps, w)
    requires u < |h| && w < |h| && 0 < w && h[w] == 0 && w !in ps
    ensures Top(k, u) == if Top(h, u) in ps then w else Top(h, u)
    decreases u
  {
    if h[u] != 0 { AddsTop(h, k, ps, w, h[u]); }
  }

  /** Loops with larger headers keep their bodies. */
  lemma {:induction false} AddsInLoop(h: seq<nat>, k: seq<nat>, ps: set<nat>, w: nat, u: nat, v: nat)
    requires HeadersOk(h, 0) && HeadersOk(k, 0) && Adds(h, k, ps, w)
    requires u < |h| && w < |h| && w < v
    ensures InLoop(k, u, v) <==> InLoop(h, u, v)
    decreases u
  {
    if u != v {
      if h[u] != 0 {
        AddsInLoop(h, k, ps, w, h[u], v);
      } else if k[u] != 0 && InLoop(k, k[u], v) {
        InLoopBelow(k, w, v);
      }
    }
  }
}
