/** Which loops `Function::unroll` takes from the forest, and what stays of the others. */
module UnrollOrder {
  import opened Graph
  import opened LoopAnalysis
  import opened LoopCycles
  import opened LoopForest
  import opened LoopNesting
  import opened LoopNests
  import opened SpanningTree
  import U = Unroll

  /** A block that jumps to itself, inside another loop. */
  ghost predicate InnerSelf(a: Analysis, w: nat)
    requires a.Valid()
    reads a
  {
    w < |a.par| && a.types[w] == SelfLoop && a.header[w] != 0
  }

  /** A loop with another node has one directly in it. */
  lemma {:induction false} DirectMember(h: seq<nat>, n: nat, u: nat, w: nat)
    requires n <= |h| && HeadersOk(h, 0) && u < n && InLoop(h, u, w) && u != w
    ensures HasMember(h, n, w)
    decreases u
  {
    if h[u] != w { DirectMember(h, n, h[u], w); }
  }

  lemma MembersInLoop(h: seq<nat>, n: nat, w: nat) returns (u: nat)
    requires n <= |h| && HeadersOk(h, 0) && HasMember(h, n, w)
    ensures u < n && u != w && InLoop(h, u, w)
  {
    u :| u < n && h[u] == w;
  }

  /** A loop is more than one node exactly if some node has it as its innermost loop. */
  lemma MemberIff(a: Analysis, w: nat)
    requires a.Valid() && w < |a.par|
    ensures HasMember(a.header, |a.par|, w) <==> Body(FlowOf(a.g, a.node, a.par), a.header, w) != {w}
  {
    var b := Body(FlowOf(a.g, a.node, a.par), a.header, w);
    RangeSize(|a.par|);
    assert w in b;
    if b != {w} {
      var u :| u in b && u != w;
      DirectMember(a.header, |a.par|, u, w);
    }
    if HasMember(a.header, |a.par|, w) {
      var u := MembersInLoop(a.header, |a.par|, w);
      assert u in b;
    }
  }

  /** What the type of a loop says of its size. */
  lemma TypeIs(f: Flow, w: nat, b: set<nat>, t: NodeType)
    requires FlowOk(f) && w < |f.par| && LoopOk(f, w, b, t)
    ensures b != {w} <==> t != NonHeader && t != SelfLoop
  {
  }

  /** The forest has every loop but the inner ones of a single block. */
  lemma TakenIff(a: Analysis, w: nat)
    requires a.Valid() && w < |a.par|
    ensures InForest(a.header, a.types, |a.par|, w) <==> a.types[w] != NonHeader && !InnerSelf(a, w)
    ensures HasMember(a.header, |a.par|, w) ==> a.types[w] != NonHeader
  {
    var f := FlowOf(a.g, a.node, a.par);
    assert LoopDone(f, a.header, a.types, w);
    MemberIff(a, w);
    TypeIs(f, w, Body(f, a.header, w), a.types[w]);
  }

  /** The loops that are taken, in order: all but the inner ones of a single block. */
  method TakenLoops(a: Analysis) returns (hs: seq<nat>)
    requires a.Valid()
    ensures forall w: nat :: w in hs <==> w < |a.par| && a.types[w] != NonHeader && !InnerSelf(a, w)
    ensures InsideOut(a.header, hs)
    ensures LoopNests.InnerFirst(a, hs) <==> forall w: nat :: !InnerSelf(a, w)
  {
    NumberCount(a.g, a.node, a.number, a.last, a.par);
    var n := |a.number|;
    forall w: nat | w < n
      ensures InForest(a.header, a.types, n, w) <==> a.types[w] != NonHeader && !InnerSelf(a, w)
      ensures HasMember(a.header, n, w) ==> a.types[w] != NonHeader
    {
      TakenIff(a, w);
    }
    var forest, roots := BuildForest(a.header, a.types, n);
    hs := TakeLoops(a.header, a.types, n, forest, roots);
    AllTakenIff(a, hs);
  }

  lemma AllTakenIff(a: Analysis, hs: seq<nat>)
    requires a.Valid()
    requires forall w: nat :: w in hs <==> w < |a.par| && a.types[w] != NonHeader && !InnerSelf(a, w)
    requires InsideOut(a.header, hs)
    ensures LoopNests.InnerFirst(a, hs) <==> forall w: nat :: !InnerSelf(a, w)
  {
    forall i | 0 <= i < |hs| ensures hs[i] < |a.par| { assert hs[i] in hs; }
    if LoopNests.InnerFirst(a, hs) {
      forall w: nat ensures !InnerSelf(a, w) { assert w < |a.par| ==> (w in hs <==> a.types[w] != NonHeader); }
    }
  }

  /** On a reducible function they are a nest for the unroller exactly if no inner
      loop is a single block. */
  lemma TakenIsNest(a: Analysis, hs: seq<nat>)
    requires a.Valid() && AllReachable(a.g) && ReducibleGraph(a.g) && LoopNests.InnerFirst(a, hs)
    ensures U.Nest(FnOf(a.g), LoopsAt(a, hs), RankOf(a))
  {
    ReducibleIsNest(a, hs);
  }

  // ---------------------------------------------------------------------
  // What stays
  // ---------------------------------------------------------------------

  /** `g` is what becomes of `f` when loops with these headers are unrolled in turn. */
  ghost predicate Unrolls(f: U.Fn, headers: seq<nat>, k: nat, g: U.Fn)
    decreases |headers|
  {
    if headers == [] then g == f
    else exists f': U.Fn, l: U.Loop, copies: U.Copies, orig: U.Origin ::
        l.header == headers[0] && U.IsUnrolling(f, f', l, k, copies, orig) && Unrolls(f', headers[1..], k, g)
  }

  /** The first copy of a block keeps its jump to itself when another loop is unrolled. */
  lemma SelfJumpKept(f: U.Fn, f': U.Fn, l: U.Loop, k: nat, copies: U.Copies, orig: U.Origin, u: nat)
    requires U.IsUnrolling(f, f', l, k, copies, orig) && U.Edge(f, u, u) && u != l.header
    ensures U.Edge(f', u, u)
  {
    assert orig[u] == (u, 0);
    if u in l.blocks {
      var i :| 0 <= i < |f[u]| && f[u][i] == U.To(u);
      assert f'[u][i] == U.Redirect(copies, l.header, 0, U.To(u));
      assert copies[u][0] == u && |copies[u]| > 0;
    }
  }

  lemma {:induction false} SelfJumpStays(f: U.Fn, headers: seq<nat>, k: nat, g: U.Fn, u: nat)
    requires Unrolls(f, headers, k, g) && U.Edge(f, u, u) && u !in headers
    ensures U.Edge(g, u, u)
    decreases |headers|
  {
    if headers != [] {
      var f': U.Fn, l: U.Loop, copies: U.Copies, orig: U.Origin :|
        l.header == headers[0] && U.IsUnrolling(f, f', l, k, copies, orig) && Unrolls(f', headers[1..], k, g);
      SelfJumpKept(f, f', l, k, copies, orig, u);
      SelfJumpStays(f', headers[1..], k, g, u);
    }
  }

  lemma SelfLoopBack(f: Flow, w: nat, b: set<nat>, t: NodeType)
    requires FlowOk(f) && w < |f.par| && LoopOk(f, w, b, t)
    ensures t == SelfLoop <==> w < |f.preds| && w in f.preds[w] && Anc(f.par, w, w) && !(exists v :: IsBack(f, v, w) && v != w)
  {
  }

  lemma InnerSelfEdge(a: Analysis, w: nat)
    requires a.Valid() && InnerSelf(a, w)
    ensures a.node[w] < |a.g| && Edge(a.g, a.node[w], a.node[w])
  {
    var f := FlowOf(a.g, a.node, a.par);
    assert LoopDone(f, a.header, a.types, w);
    SelfLoopBack(f, w, Body(f, a.header, w), SelfLoop);
    PredIs(a.g, a.node, |a.par|, w, w);
    HeaderIsBlock(a, w);
  }

  /** An inner loop of a single block is still a cycle when all loops that are taken
      have been unrolled. */
  lemma {:induction false} InnerSelfStays(a: Analysis, w: nat, headers: seq<nat>, k: nat, g: U.Fn)
    requires a.Valid() && InnerSelf(a, w) && a.node[w] !in headers && Unrolls(FnOf(a.g), headers, k, g)
    ensures U.Walk(g, [a.node[w], a.node[w]])
  {
    InnerSelfEdge(a, w);
    EdgeIs(a.g, a.node[w], a.node[w]);
    SelfJumpStays(FnOf(a.g), headers, k, g, a.node[w]);
    SelfWalk(g, a.node[w]);
  }

  lemma SelfWalk(g: U.Fn, u: nat)
    requires U.Edge(g, u, u)
    ensures U.Walk(g, [u, u])
  {
  }

  /** A loop of blocks 1 and 2, of which block 2 also jumps to itself. */
  const SELF_INSIDE: Cfg := [[1], [2, 3], [2, 1], []]

  lemma SelfInsideNodes(a: Analysis)
    requires a.Valid() && a.g == SELF_INSIDE
    ensures 1 in a.number && 2 in a.number
    ensures a.number[2] > 0 && a.par[a.number[2]] == a.number[1]
  {
    assert 1 in Targets(a.g, a.node[0]);
    assert 2 in Targets(a.g, a.node[a.number[1]]);
    var v := a.number[2];
    assert a.node[v] in Targets(a.g, a.node[a.par[v]]);
    assert a.par[v] < v;
  }

  lemma SelfInsideReachable()
    ensures EntryFirst(SELF_INSIDE) && AllReachable(SELF_INSIDE)
  {
    var g := SELF_INSIDE;
    assert WalkFromTo(g, 0, 0, [0]);
    assert Edge(g, 0, 1) && Edge(g, 1, 2) && Edge(g, 1, 3);
    ExtendWalk(g, 0, 0, 1, [0]);
    ExtendWalk(g, 0, 1, 2, [0] + [1]);
    ExtendWalk(g, 0, 1, 3, [0] + [1]);
    assert Reachable(g, 0) && Reachable(g, 1) && Reachable(g, 2) && Reachable(g, 3);
  }

  /** Its inner loop is not taken. */
  method InnerSelfSkipped() returns (a: Analysis, hs: seq<nat>)
    ensures a.Valid() && a.g == SELF_INSIDE && 2 in a.number && InnerSelf(a, a.number[2]) && a.number[2] !in hs
  {
    SelfInsideReachable();
    a := new Analysis(SELF_INSIDE);
    SelfInside(a);
    hs := TakenLoops(a);
  }

  lemma {:induction false} SelfInside(a: Analysis)
    requires a.Valid() && a.g == SELF_INSIDE && AllReachable(a.g)
    ensures 2 in a.number && InnerSelf(a, a.number[2])
  {
    SelfInsideNodes(a);
    SelfInsideLoop(a, a.number[1], a.number[2]);
    SelfInsideBack(a, a.number[2]);
    SelfInsideType(a, a.number[2]);
  }

  lemma SelfInsideType(a: Analysis, w: nat)
    requires a.Valid() && w < |a.par| && forall x: nat :: IsBack(FlowOf(a.g, a.node, a.par), x, w) <==> x == w
    ensures a.types[w] == SelfLoop
  {
    var f := FlowOf(a.g, a.node, a.par);
    assert LoopDone(f, a.header, a.types, w) && IsBack(f, w, w);
    SelfLoopBack(f, w, Body(f, a.header, w), a.types[w]);
  }

  lemma SelfInsideBack(a: Analysis, w: nat)
    requires a.Valid() && a.g == SELF_INSIDE && 1 in a.number && 2 in a.number && w == a.number[2]
    requires w > 0 && a.par[w] == a.number[1]
    ensures forall x: nat :: IsBack(FlowOf(a.g, a.node, a.par), x, w) <==> x == w
  {
    forall x: nat
      ensures IsBack(FlowOf(a.g, a.node, a.par), x, w) <==> x == w
    {
      PredIs(a.g, a.node, |a.par|, w, x);
      if x < |a.par| && 2 in Targets(a.g, a.node[x]) { SelfInsidePreds(a, x); }
    }
  }

  lemma SelfInsidePreds(a: Analysis, x: nat)
    requires a.Valid() && a.g == SELF_INSIDE && x < |a.par| && 2 in Targets(a.g, a.node[x])
    ensures a.node[x] == 1 || a.node[x] == 2
  {
  }

  lemma SelfInsideLoop(a: Analysis, v: nat, w: nat)
    requires a.Valid() && a.g == SELF_INSIDE && AllReachable(a.g)
    requires 1 in a.number && 2 in a.number && v == a.number[1] && w == a.number[2] && w > 0 && a.par[w] == v
    ensures a.header[w] != 0
  {
    assert Edge(a.g, 2, 1) && Anc(a.par, v, w);
    BackIsLoop(a, 2, 1);
  }
}
