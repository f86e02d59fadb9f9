/** The loops found on a reducible function are a nest of natural loops, as the
    unroller takes them. */
module LoopNests {
  import opened Graph
  import opened LoopAnalysis
  import opened LoopCycles
  import opened LoopNesting
  import opened SpanningTree
  import U = Unroll

  /** The jump targets of a control-flow graph. */
  function FnOf(g: Cfg): U.Fn {
    seq(|g|, u requires 0 <= u < |g| => seq(|g[u]|, i requires 0 <= i < |g[u]| => if g[u][i] < |g| then U.To(g[u][i]) else U.Sink))
  }

  lemma EdgeIs(g: Cfg, u: nat, v: nat)
    requires v < |g|
    ensures U.Edge(FnOf(g), u, v) <==> Edge(g, u, v)
  {
    if Edge(g, u, v) {
      var i :| 0 <= i < |g[u]| && g[u][i] == v;
      assert FnOf(g)[u][i] == U.To(v);
    }
  }

  // ---------------------------------------------------------------------
  // Edges that do not lead to an ancestor
  // ---------------------------------------------------------------------

  ghost predicate Forward(a: Analysis, u: nat, v: nat)
    requires a.Valid() && AllReachable(a.g)
    reads a
  {
    Numbered(a);
    u < |a.g| && v < |a.g| && Edge(a.g, u, v) && !Anc(a.par, a.number[v], a.number[u])
  }

  lemma Numbered(a: Analysis)
    requires a.Valid() && AllReachable(a.g)
    ensures forall b :: 0 <= b < |a.g| ==> b in a.number && a.number[b] < |a.par| && a.node[a.number[b]] == b
  {
    AllNumbered(a.g, a.node, a.number, a.last, a.par);
  }

  ghost predicate ForwardWalk(a: Analysis, x: nat, y: nat, p: seq<nat>)
    requires a.Valid() && AllReachable(a.g)
    reads a
  {
    && p != [] && p[0] == x && p[|p| - 1] == y && (forall i :: 0 <= i < |p| ==> p[i] < |a.g|)
    && (forall i :: 0 < i < |p| ==> Forward(a, p[i - 1], p[i]))
  }

  ghost predicate ForwardReach(a: Analysis, x: nat, y: nat)
    requires a.Valid() && AllReachable(a.g)
    reads a
  {
    exists p :: ForwardWalk(a, x, y, p)
  }

  lemma ReachItself(a: Analysis, x: nat)
    requires a.Valid() && AllReachable(a.g) && x < |a.g|
    ensures ForwardReach(a, x, x)
  {
    assert ForwardWalk(a, x, x, [x]);
  }

  lemma ReachNext(a: Analysis, x: nat, u: nat, v: nat)
    requires a.Valid() && AllReachable(a.g) && ForwardReach(a, x, u) && Forward(a, u, v)
    ensures ForwardReach(a, x, v)
  {
    var p :| ForwardWalk(a, x, u, p);
    assert ForwardWalk(a, x, v, p + [v]);
  }

  /** In a reducible graph they form no cycle: the edge into the head of a cycle leads
      to an ancestor. */
  lemma ForwardAcyclic(a: Analysis, u: nat, v: nat)
    requires a.Valid() && AllReachable(a.g) && ReducibleGraph(a.g) && Forward(a, u, v)
    ensures !ForwardReach(a, v, u)
  {
    if ForwardReach(a, v, u) {
      var q :| ForwardWalk(a, v, u, q);
      var p := q + [v];
      assert ForwardWalk(a, v, v, p);
      assert IsCycle(a.g, p);
      var d :| Heads(a.g, d, p);
      HeadEntered(a, d, p);
    }
  }

  lemma HeadEntered(a: Analysis, d: nat, p: seq<nat>)
    requires a.Valid() && AllReachable(a.g) && Heads(a.g, d, p) && |p| > 1 && p[0] == p[|p| - 1]
    ensures !ForwardWalk(a, p[0], p[0], p)
  {
    if ForwardWalk(a, p[0], p[0], p) {
      var k :| 0 <= k < |p| && p[k] == d;
      var j := if k == 0 then |p| - 1 else k;
      assert p[j] == d && p[j - 1] in p && Forward(a, p[j - 1], p[j]);
      Numbered(a);
      GuardsIsDominates(a.g, a.node, a.number, a.last, a.par, a.number[d], a.number[p[j - 1]]);
      GuardsAbove(FlowOf(a.g, a.node, a.par), a.number[d], a.number[p[j - 1]]);
    }
  }

  /** Blocks from which `x` is reached. */
  ghost function Above(a: Analysis, x: nat): set<nat>
    requires a.Valid() && AllReachable(a.g)
    reads a
  {
    set y: nat | y in Range(|a.g|) && ForwardReach(a, y, x)
  }

  /** The number of blocks above a block goes up along forward edges. */
  ghost function RankOf(a: Analysis): (r: seq<nat>)
    requires a.Valid() && AllReachable(a.g)
    reads a
    ensures |r| == |a.g|
  {
    seq(|a.g|, x requires 0 <= x < |a.g| && a.Valid() && AllReachable(a.g) reads a => |Above(a, x)|)
  }

  lemma RankUp(a: Analysis, u: nat, v: nat)
    requires a.Valid() && AllReachable(a.g) && ReducibleGraph(a.g) && ForwardReach(a, u, v) && u != v && u < |a.g| && v < |a.g|
    ensures RankOf(a)[u] < RankOf(a)[v]
  {
    var p :| ForwardWalk(a, u, v, p);
    RankAlong(a, p, |p| - 1);
  }

  lemma {:induction false} RankAlong(a: Analysis, p: seq<nat>, n: nat)
    requires a.Valid() && AllReachable(a.g) && ReducibleGraph(a.g) && p != [] && ForwardWalk(a, p[0], p[|p| - 1], p) && n < |p|
    ensures n == 0 || RankOf(a)[p[0]] < RankOf(a)[p[n]]
  {
    if n > 0 {
      RankAlong(a, p, n - 1);
      RankStep(a, p[n - 1], p[n]);
    }
  }

  lemma RankStep(a: Analysis, u: nat, v: nat)
    requires a.Valid() && AllReachable(a.g) && ReducibleGraph(a.g) && Forward(a, u, v)
    ensures RankOf(a)[u] < RankOf(a)[v]
  {
    RangeSize(|a.g|);
    forall y | y in Above(a, u)
      ensures y in Above(a, v)
    {
      ReachNext(a, y, u, v);
    }
    ReachItself(a, v);
    ForwardAcyclic(a, u, v);
    assert v in Above(a, v) && v !in Above(a, u);
    CountSubset(Above(a, u), Above(a, v) - {v});
  }

  /** Tree edges are forward edges. */
  lemma {:induction false} TreeForward(a: Analysis, w: nat, u: nat)
    requires a.Valid() && AllReachable(a.g) && u < |a.par| && Anc(a.par, w, u) && a.node[u] < |a.g|
    ensures w < |a.par| && a.node[w] < |a.g| && ForwardReach(a, a.node[w], a.node[u])
    decreases u
  {
    if w == u {
      ReachItself(a, a.node[u]);
    } else {
      assert a.node[u] in Targets(a.g, a.node[a.par[u]]);
      TreeForward(a, w, a.par[u]);
      Numbered(a);
      if Anc(a.par, u, a.par[u]) { AncBelow(a.par, u, a.par[u]); }
      ReachNext(a, a.node[w], a.node[a.par[u]], a.node[u]);
    }
  }

  // ---------------------------------------------------------------------
  // The loops
  // ---------------------------------------------------------------------

  /** The loop with header number `w`, by blocks. */
  ghost function LoopAt(a: Analysis, w: nat): U.Loop
    requires a.Valid() && w < |a.par|
    reads a
  {
    U.Loop(a.node[w], set x: nat | x in Range(|a.g|) && x in a.number && a.number[x] in Body(FlowOf(a.g, a.node, a.par), a.header, w))
  }

  /** `hs` lists the headers, and none comes after a loop that it is in. */
  ghost predicate InnerFirst(a: Analysis, hs: seq<nat>)
    requires a.Valid()
    reads a
  {
    && (forall i :: 0 <= i < |hs| ==> hs[i] < |a.par|)
    && (forall w: nat :: w < |a.par| ==> (w in hs <==> a.types[w] != NonHeader))
    && (forall i, j :: 0 <= i < j < |hs| ==> hs[i] != hs[j] && !InLoop(a.header, hs[j], hs[i]))
  }

  ghost function LoopsAt(a: Analysis, hs: seq<nat>): (ls: seq<U.Loop>)
    requires a.Valid() && InnerFirst(a, hs)
    reads a
    ensures |ls| == |hs|
  {
    seq(|hs|, i requires 0 <= i < |hs| && a.Valid() && InnerFirst(a, hs) reads a => LoopAt(a, hs[i]))
  }

  lemma HeaderIsBlock(a: Analysis, w: nat)
    requires a.Valid() && w < |a.par| && a.types[w] != NonHeader
    ensures a.node[w] < |a.g|
  {
    var f := FlowOf(a.g, a.node, a.par);
    var b := Body(f, a.header, w);
    assert LoopDone(f, a.header, a.types, w);
    if b != {w} {
      MemberIsBlock(a.g, a.node, a.number, a.last, a.par, w, b, a.types[w], w);
    } else {
      var v: nat :| IsBack(f, v, w);
      PredIs(a.g, a.node, |a.par|, w, v);
    }
  }

  lemma MemberIs(a: Analysis, w: nat, x: nat)
    requires a.Valid() && AllReachable(a.g) && w < |a.par| && x < |a.g|
    ensures x in a.number && (x in LoopAt(a, w).blocks <==> InLoop(a.header, a.number[x], w))
  {
    Numbered(a);
    RangeSize(|a.g|);
    RangeSize(|a.par|);
  }

  /** The header is the first block of its loop and its only entry. */
  lemma NaturalAt(a: Analysis, w: nat)
    requires a.Valid() && AllReachable(a.g) && ReducibleGraph(a.g) && w < |a.par| && a.types[w] != NonHeader
    ensures U.Natural(FnOf(a.g), RankOf(a), LoopAt(a, w))
  {
    var f, l := FlowOf(a.g, a.node, a.par), LoopAt(a, w);
    HeaderIsBlock(a, w);
    Numbered(a);
    RangeSize(|a.g|);
    assert LoopDone(f, a.header, a.types, w);
    forall x | x in l.blocks && x != l.header
      ensures RankOf(a)[l.header] < RankOf(a)[x]
    {
      TreeForward(a, w, a.number[x]);
      RankUp(a, l.header, x);
    }
    forall u: nat, v: nat | U.Edge(FnOf(a.g), u, v) && v in l.blocks && v != l.header
      ensures u in l.blocks
    {
      EnteredInside(a, w, u, v);
    }
  }

  /** A block of the loop other than its header has all its predecessors in the loop. */
  lemma EnteredInside(a: Analysis, w: nat, u: nat, v: nat)
    requires a.Valid() && AllReachable(a.g) && ReducibleGraph(a.g) && w < |a.par|
    requires U.Edge(FnOf(a.g), u, v) && v in LoopAt(a, w).blocks && v != a.node[w]
    ensures u in LoopAt(a, w).blocks
  {
    var f := FlowOf(a.g, a.node, a.par);
    Numbered(a);
    RangeSize(|a.g|);
    EdgeIs(a.g, u, v);
    PredIs(a.g, a.node, |a.par|, a.number[v], a.number[u]);
    NotIrreducible(a, w);
    assert LoopDone(f, a.header, a.types, w) && Body(f, a.header, w) != {w};
  }

  /** Two loops are nested or apart. */
  lemma {:induction false} InLoopChain(h: seq<nat>, u: nat, w: nat, v: nat)
    requires HeadersOk(h, 0) && u < |h| && w < |h| && InLoop(h, u, w) && InLoop(h, u, v) && v <= w
    ensures InLoop(h, w, v)
    decreases u
  {
    if u != w {
      if u == v {
        InLoopBelow(h, u, w);
      } else {
        InLoopChain(h, h[u], w, v);
      }
    }
  }

  lemma {:induction false} InLoopTrans(h: seq<nat>, u: nat, w: nat, v: nat)
    requires HeadersOk(h, 0) && u < |h| && w < |h| && InLoop(h, u, w) && InLoop(h, w, v)
    ensures InLoop(h, u, v)
    decreases u
  {
    if u != w { InLoopTrans(h, h[u], w, v); }
  }

  lemma NestedOrApart(a: Analysis, w: nat, v: nat)
    requires a.Valid() && AllReachable(a.g) && w < |a.par| && v < |a.par| && w != v && !InLoop(a.header, v, w)
    requires a.types[w] != NonHeader && a.types[v] != NonHeader
    ensures U.InsideOrApart(LoopAt(a, w), LoopAt(a, v))
  {
    HeaderIsBlock(a, w);
    HeaderIsBlock(a, v);
    MemberIs(a, w, a.node[v]);
    RangeSize(|a.g|);
    var x, y := LoopAt(a, w), LoopAt(a, v);
    if u :| u in x.blocks && u in y.blocks {
      MemberIs(a, w, u);
      MemberIs(a, v, u);
      if w <= v { InLoopChain(a.header, a.number[u], v, w); }
      InLoopChain(a.header, a.number[u], w, v);
      forall z | z in x.blocks
        ensures z in y.blocks
      {
        MemberIs(a, w, z);
        InLoopTrans(a.header, a.number[z], w, v);
        MemberIs(a, v, z);
      }
    }
  }

  /** Every edge goes up in rank or leads back to a header from inside its loop. */
  lemma EdgesRanked(a: Analysis, hs: seq<nat>)
    requires a.Valid() && AllReachable(a.g) && ReducibleGraph(a.g) && InnerFirst(a, hs)
    ensures U.Ranked(FnOf(a.g), LoopsAt(a, hs), RankOf(a))
  {
    Numbered(a);
    forall u: nat, v: nat | v < |a.g| && U.Edge(FnOf(a.g), u, v)
      ensures RankOf(a)[u] < RankOf(a)[v] || U.IsBack(LoopsAt(a, hs), u, v)
    {
      EdgeIs(a.g, u, v);
      if Anc(a.par, a.number[v], a.number[u]) {
        BackToHeader(a, hs, u, v);
      } else {
        RankStep(a, u, v);
      }
    }
  }

  lemma BackToHeader(a: Analysis, hs: seq<nat>, u: nat, v: nat)
    requires a.Valid() && AllReachable(a.g) && InnerFirst(a, hs) && u < |a.g| && v < |a.g| && Edge(a.g, u, v)
    requires u in a.number && v in a.number && a.number[u] < |a.par| && Anc(a.par, a.number[v], a.number[u])
    ensures U.IsBack(LoopsAt(a, hs), u, v)
  {
    var w := a.number[v];
    BackIsLoop(a, u, v);
    Numbered(a);
    var i :| 0 <= i < |hs| && hs[i] == w;
    MemberIs(a, w, u);
    assert LoopsAt(a, hs)[i] == LoopAt(a, w);
  }

  /** The target of an edge into an ancestor heads a loop with the source in it. */
  lemma BackIsLoop(a: Analysis, u: nat, v: nat)
    requires a.Valid() && AllReachable(a.g) && u < |a.g| && v < |a.g| && Edge(a.g, u, v)
    requires u in a.number && v in a.number && a.number[u] < |a.par| && Anc(a.par, a.number[v], a.number[u])
    ensures a.number[v] < |a.par| && a.types[a.number[v]] != NonHeader && InLoop(a.header, a.number[u], a.number[v])
  {
    var f := FlowOf(a.g, a.node, a.par);
    Numbered(a);
    var x, w := a.number[u], a.number[v];
    PredIs(a.g, a.node, |a.par|, w, x);
    assert IsBack(f, x, w) && LoopDone(f, a.header, a.types, w);
    RangeSize(|a.par|);
  }

  /** On a reducible function the loops, listed from the inside out, are a nest. */
  lemma ReducibleIsNest(a: Analysis, hs: seq<nat>)
    requires a.Valid() && AllReachable(a.g) && ReducibleGraph(a.g) && InnerFirst(a, hs)
    ensures U.Nest(FnOf(a.g), LoopsAt(a, hs), RankOf(a))
  {
    EdgesRanked(a, hs);
    forall i | 0 <= i < |hs|
      ensures U.Natural(FnOf(a.g), RankOf(a), LoopsAt(a, hs)[i])
    {
      NaturalAt(a, hs[i]);
    }
    forall i, j | 0 <= i < j < |hs|
      ensures U.InsideOrApart(LoopsAt(a, hs)[i], LoopsAt(a, hs)[j])
    {
      NestedOrApart(a, hs[i], hs[j]);
    }
  }

  // ---------------------------------------------------------------------
  // There is such a list
  // ---------------------------------------------------------------------

  /** The headers with numbers below `n`, the largest first. */
  ghost function HeadersDown(types: seq<NodeType>, n: nat): seq<nat>
    requires n <= |types|
  {
    if n == 0 then [] else (if types[n - 1] != NonHeader then [n - 1] else []) + HeadersDown(types, n - 1)
  }

  lemma HeadersDownStep(types: seq<NodeType>, n: nat)
    requires 0 < n <= |types|
    ensures HeadersDown(types, n) ==
      if types[n - 1] != NonHeader then [n - 1] + HeadersDown(types, n - 1) else HeadersDown(types, n - 1)
  {
  }

  lemma {:induction false} HeadersDownIn(types: seq<NodeType>, n: nat, w: nat)
    requires n <= |types|
    ensures w in HeadersDown(types, n) <==> w < n && types[w] != NonHeader
  {
    if n > 0 {
      HeadersDownIn(types, n - 1, w);
      HeadersDownStep(types, n);
    }
  }

  lemma {:induction false} HeadersDownSorted(types: seq<NodeType>, n: nat, i: nat, j: nat)
    requires n <= |types| && i < j < |HeadersDown(types, n)|
    ensures HeadersDown(types, n)[j] < HeadersDown(types, n)[i]
  {
    var rest := HeadersDown(types, n - 1);
    HeadersDownStep(types, n);
    if types[n - 1] == NonHeader {
      HeadersDownSorted(types, n - 1, i, j);
    } else if i > 0 {
      HeadersDownSorted(types, n - 1, i - 1, j - 1);
    } else {
      HeadersDownIn(types, n - 1, rest[j - 1]);
      assert rest[j - 1] in rest;
    }
  }

  lemma HeadersDownIs(types: seq<NodeType>, n: nat)
    requires n <= |types|
    ensures forall w: nat :: w in HeadersDown(types, n) <==> w < n && types[w] != NonHeader
    ensures forall i, j :: 0 <= i < j < |HeadersDown(types, n)| ==> HeadersDown(types, n)[j] < HeadersDown(types, n)[i]
  {
    forall w: nat ensures w in HeadersDown(types, n) <==> w < n && types[w] != NonHeader { HeadersDownIn(types, n, w); }
    forall i, j | 0 <= i < j < |HeadersDown(types, n)|
      ensures HeadersDown(types, n)[j] < HeadersDown(types, n)[i]
    {
      HeadersDownSorted(types, n, i, j);
    }
  }

  /** Larger numbers are further inside. */
  lemma InnerFirstExists(a: Analysis)
    requires a.Valid()
    ensures InnerFirst(a, HeadersDown(a.types, |a.par|))
  {
    var hs := HeadersDown(a.types, |a.par|);
    HeadersDownIs(a.types, |a.par|);
    forall i | 0 <= i < |hs| ensures hs[i] < |a.par| { assert hs[i] in hs; }
    forall i, j | 0 <= i < j < |hs|
      ensures hs[i] != hs[j] && !InLoop(a.header, hs[j], hs[i])
    {
      if InLoop(a.header, hs[j], hs[i]) { InLoopBelow(a.header, hs[j], hs[i]); }
    }
  }

  /** The blocks of a loop in a list, the header first. */
  ghost function BlockList(a: Analysis, w: nat): seq<nat>
    requires a.Valid() && w < |a.par|
    reads a
  {
    [a.node[w]] + ListOf(LoopAt(a, w).blocks - {a.node[w]})
  }

  lemma BlocksListed(a: Analysis, w: nat)
    requires a.Valid() && AllReachable(a.g) && w < |a.par| && a.types[w] != NonHeader
    ensures U.Distinct(BlockList(a, w)) && U.LoopOf(BlockList(a, w)) == LoopAt(a, w)
  {
    HeaderIsBlock(a, w);
    MemberIs(a, w, a.node[w]);
    ListOfIs(LoopAt(a, w).blocks - {a.node[w]});
  }

  ghost function ListOf(s: set<nat>): seq<nat> {
    if s == {} then [] else var x :| x in s; [x] + ListOf(s - {x})
  }

  lemma {:induction false} ListOfIs(s: set<nat>)
    ensures U.Distinct(ListOf(s)) && forall x :: x in ListOf(s) <==> x in s
  {
    if s != {} {
      var x := ListOf(s)[0];
      assert x in s && ListOf(s) == [x] + ListOf(s - {x});
      ListOfIs(s - {x});
    }
  }

  lemma NestListed(a: Analysis, hs: seq<nat>) returns (nest: seq<seq<nat>>)
    requires a.Valid() && AllReachable(a.g) && (forall i :: 0 <= i < |hs| ==> hs[i] < |a.par| && a.types[hs[i]] != NonHeader)
    ensures U.AreLoops(nest) && |nest| == |hs| && forall i :: 0 <= i < |hs| ==> U.LoopOf(nest[i]) == LoopAt(a, hs[i])
  {
    nest := seq(|hs|, i requires 0 <= i < |hs| && a.Valid() && hs[i] < |a.par| reads a => BlockList(a, hs[i]));
    forall i | 0 <= i < |hs|
      ensures nest[i] != [] && U.Distinct(nest[i]) && U.LoopOf(nest[i]) == LoopAt(a, hs[i])
    {
      BlocksListed(a, hs[i]);
    }
  }

  /** So the loops of every reducible function are a nest for the unroller. */
  lemma ForestIsNest(a: Analysis) returns (nest: seq<seq<nat>>)
    requires a.Valid() && AllReachable(a.g) && ReducibleGraph(a.g)
    ensures U.AreLoops(nest) && U.Nest(FnOf(a.g), U.LoopsOf(nest), RankOf(a))
    ensures forall w: nat :: w < |a.par| && a.types[w] != NonHeader ==> LoopAt(a, w) in U.LoopsOf(nest)
  {
    var hs := HeadersDown(a.types, |a.par|);
    HeadersDownIs(a.types, |a.par|);
    InnerFirstExists(a);
    ReducibleIsNest(a, hs);
    forall i | 0 <= i < |hs| ensures hs[i] < |a.par| && a.types[hs[i]] != NonHeader { assert hs[i] in hs; }
    nest := NestListed(a, hs);
    assert U.AreLoops(nest);
    assert U.LoopsOf(nest) == LoopsAt(a, hs);
    forall w: nat | w < |a.par| && a.types[w] != NonHeader
      ensures LoopAt(a, w) in U.LoopsOf(nest)
    {
      var i :| 0 <= i < |hs| && hs[i] == w;
      assert U.LoopsOf(nest)[i] == LoopAt(a, w);
    }
  }
}
