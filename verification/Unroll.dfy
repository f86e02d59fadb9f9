/** Loop unrolling of `Function::unroll`: the blocks of a loop are cloned and the
    jump targets of all copies are patched. Blocks are numbered, a clone gets
    the next free number, and the sink is a destination of its own. */
module Unroll {
  datatype Dest = To(b: nat) | Sink

  /** Jump targets of every block. */
  type Fn = seq<seq<Dest>>

  ghost predicate Closed(f: Fn) {
    forall u, i :: 0 <= u < |f| && 0 <= i < |f[u]| && f[u][i].To? ==> f[u][i].b < |f|
  }

  predicate Edge(f: Fn, u: nat, v: nat) {
    u < |f| && To(v) in f[u]
  }

  ghost predicate Walk(f: Fn, p: seq<nat>) {
    && |p| > 0
    && (forall i :: 0 <= i < |p| ==> p[i] < |f|)
    && (forall i :: 0 < i < |p| ==> Edge(f, p[i - 1], p[i]))
  }

  /** A loop: its header and all its blocks. */
  datatype Loop = Loop(header: nat, blocks: set<nat>)

  // ---------------------------------------------------------------------
  // What the patched function looks like
  // ---------------------------------------------------------------------

  /** `copies[b]` lists the copies of loop block `b`, itself first. */
  type Copies = map<nat, seq<nat>>

  /** Copy number `j` of the target `t`, as the patching loop picks it. */
  function Redirect(copies: Copies, header: nat, j: nat, t: Dest): Dest {
    if t.Sink? || t.b !in copies then t
    else if t.b == header then
      (if j + 1 < |copies[header]| then To(copies[header][j + 1]) else Sink)
    else
      (if j < |copies[t.b]| then To(copies[t.b][j]) else Sink)
  }

  function RedirectAll(copies: Copies, header: nat, j: nat, ts: seq<Dest>): seq<Dest> {
    seq(|ts|, i requires 0 <= i < |ts| => Redirect(copies, header, j, ts[i]))
  }

  /** Number of copies: the header of a multi-block loop gets one more, so that
      the last iteration can exit. */
  function NumCopies(l: Loop, k: nat, b: nat): nat {
    if b == l.header && |l.blocks| > 1 then k + 1 else k
  }

  /** Which block and copy number a block of the new function stands for. */
  type Origin = seq<(nat, nat)>

  /** Block numbers and `(block, copy)` pairs correspond one to one; the first
      `n` blocks are the original ones. */
  ghost predicate Numbering(n: nat, blocks: set<nat>, copies: Copies, orig: Origin) {
    && copies.Keys == blocks && n <= |orig|
    && (forall b :: b in blocks ==> b < n && |copies[b]| > 0 && copies[b][0] == b)
    && (forall b, j :: b in blocks && 0 <= j < |copies[b]| ==>
          copies[b][j] < |orig| && orig[copies[b][j]] == (b, j))
    && (forall x :: 0 <= x < n ==> orig[x] == (x, 0))
    && (forall x :: n <= x < |orig| ==> IsClone(blocks, copies, orig, x))
  }

  ghost predicate IsCopies(n: nat, l: Loop, k: nat, copies: Copies, orig: Origin) {
    && k > 0 && l.header in l.blocks && Numbering(n, l.blocks, copies, orig)
    && (forall b :: b in l.blocks ==> |copies[b]| == NumCopies(l, k, b))
  }

  ghost predicate IsClone(blocks: set<nat>, copies: Copies, orig: Origin, x: nat)
    requires x < |orig|
  {
    var (b, j) := orig[x];
    b in blocks && b in copies && 0 < j < |copies[b]| && copies[b][j] == x
  }

  /** `f'` is `f` with loop `l` unrolled `k` times. */
  ghost predicate IsUnrolling(f: Fn, f': Fn, l: Loop, k: nat, copies: Copies, orig: Origin) {
    && Closed(f) && |f'| == |orig| && IsCopies(|f|, l, k, copies, orig)
    && (forall x :: 0 <= x < |f'| ==> orig[x].0 < |f|)
    && (forall x :: 0 <= x < |f'| ==>
          f'[x] == if orig[x].0 in l.blocks
                   then RedirectAll(copies, l.header, orig[x].1, f[orig[x].0])
                   else f[orig[x].0])
  }

  // ---------------------------------------------------------------------
  // Walks of the new function are walks of the old one, and back
  // ---------------------------------------------------------------------

  /** Copy number after taking the edge from copy `j` of `b` to `t`. */
  function NextCopy(l: Loop, b: nat, j: nat, t: nat): nat {
    if t !in l.blocks || b !in l.blocks then 0
    else if t == l.header then j + 1
    else j
  }

  /** Number of back edges taken since the walk last entered the loop. */
  function Iteration(l: Loop, p: seq<nat>, i: nat): nat
    requires i < |p|
  {
    if i == 0 then 0 else NextCopy(l, p[i - 1], Iteration(l, p, i - 1), p[i])
  }

  /** No block of the walk is visited in an iteration that has no copy of it. */
  ghost predicate Fits(l: Loop, k: nat, p: seq<nat>) {
    forall i :: 0 <= i < |p| && p[i] in l.blocks ==> Iteration(l, p, i) < NumCopies(l, k, p[i])
  }

  function Place(copies: Copies, b: nat, j: nat): nat {
    if b in copies && j < |copies[b]| then copies[b][j] else b
  }

  /** The block that stands for position `i` of the walk. */
  function PlaceAt(l: Loop, copies: Copies, p: seq<nat>, i: nat): nat
    requires i < |p|
  {
    Place(copies, p[i], Iteration(l, p, i))
  }

  function Lift(l: Loop, copies: Copies, p: seq<nat>): seq<nat> {
    seq(|p|, i requires 0 <= i < |p| => PlaceAt(l, copies, p, i))
  }

  function Project(orig: Origin, q: seq<nat>): seq<nat>
    requires forall i :: 0 <= i < |q| ==> q[i] < |orig|
  {
    seq(|q|, i requires 0 <= i < |q| => orig[q[i]].0)
  }

  lemma EdgeProjects(f: Fn, f': Fn, l: Loop, k: nat, copies: Copies, orig: Origin, x: nat, y: nat)
    requires IsUnrolling(f, f', l, k, copies, orig) && x < |f'| && Edge(f', x, y)
    ensures y < |f'| && Edge(f, orig[x].0, orig[y].0)
    ensures orig[y].1 == NextCopy(l, orig[x].0, orig[x].1, orig[y].0)
  {
    var (b, j) := orig[x];
    var i :| 0 <= i < |f'[x]| && f'[x][i] == To(y);
    var t := f[b][i];
    assert t in f[b] && t.To? && t.b < |f|;
    if t.b in l.blocks {
      assert orig[y].0 == t.b;
    }
  }

  lemma EdgeLifts(f: Fn, f': Fn, l: Loop, k: nat, copies: Copies, orig: Origin, x: nat, t: nat)
    requires IsUnrolling(f, f', l, k, copies, orig) && x < |f'| && Edge(f, orig[x].0, t)
    ensures
      var j := NextCopy(l, orig[x].0, orig[x].1, t);
      if t in l.blocks && j >= NumCopies(l, k, t) then Sink in f'[x]
      else Edge(f', x, Place(copies, t, j)) && Place(copies, t, j) < |f'| && orig[Place(copies, t, j)] == (t, j)
  {
    var (b, j) := orig[x];
    var i :| 0 <= i < |f[b]| && f[b][i] == To(t);
    assert f'[x][i] in f'[x];
    if t in l.blocks { assert orig[copies[t][0]] == (t, 0); }
  }

  /** A walk of the new function that starts at an original block is the lift of
      its projection, which is a walk of the old function. */
  lemma {:induction false} WalkProjects(f: Fn, f': Fn, l: Loop, k: nat, copies: Copies, orig: Origin, q: seq<nat>)
    requires IsUnrolling(f, f', l, k, copies, orig) && Walk(f', q) && q[0] < |f|
    ensures Walk(f, Project(orig, q)) && Fits(l, k, Project(orig, q))
    ensures q == Lift(l, copies, Project(orig, q))
  {
    ProjectIsWalk(f, f', l, k, copies, orig, q);
    ProjectFits(f, f', l, k, copies, orig, q);
  }

  lemma {:induction false} ProjectIsWalk(f: Fn, f': Fn, l: Loop, k: nat, copies: Copies, orig: Origin, q: seq<nat>)
    requires IsUnrolling(f, f', l, k, copies, orig) && Walk(f', q)
    ensures Walk(f, Project(orig, q))
  {
    var p := Project(orig, q);
    forall i | 0 < i < |p|
      ensures Edge(f, p[i - 1], p[i])
    {
      EdgeProjects(f, f', l, k, copies, orig, q[i - 1], q[i]);
    }
  }

  lemma {:induction false} ProjectFits(f: Fn, f': Fn, l: Loop, k: nat, copies: Copies, orig: Origin, q: seq<nat>)
    requires IsUnrolling(f, f', l, k, copies, orig) && Walk(f', q) && q[0] < |f|
    ensures Fits(l, k, Project(orig, q)) && q == Lift(l, copies, Project(orig, q))
  {
    var p := Project(orig, q);
    forall i | 0 <= i < |p|
      ensures orig[q[i]].1 == Iteration(l, p, i)
      ensures q[i] == Place(copies, p[i], Iteration(l, p, i))
      ensures p[i] in l.blocks ==> Iteration(l, p, i) < NumCopies(l, k, p[i])
    {
      CopyIsIteration(f, f', l, k, copies, orig, q, i);
      PlaceOf(f, f', l, k, copies, orig, q[i]);
    }
  }

  lemma {:induction false} CopyIsIteration(f: Fn, f': Fn, l: Loop, k: nat, copies: Copies, orig: Origin, q: seq<nat>, i: nat)
    requires IsUnrolling(f, f', l, k, copies, orig) && Walk(f', q) && q[0] < |f| && i < |q|
    ensures orig[q[i]].1 == Iteration(l, Project(orig, q), i)
  {
    if i > 0 {
      CopyIsIteration(f, f', l, k, copies, orig, q, i - 1);
      EdgeProjects(f, f', l, k, copies, orig, q[i - 1], q[i]);
    }
  }

  lemma PlaceOf(f: Fn, f': Fn, l: Loop, k: nat, copies: Copies, orig: Origin, x: nat)
    requires IsUnrolling(f, f', l, k, copies, orig) && x < |f'|
    ensures x == Place(copies, orig[x].0, orig[x].1)
    ensures orig[x].0 in l.blocks ==> orig[x].1 < NumCopies(l, k, orig[x].0)
  {
    if x >= |f| { assert IsClone(l.blocks, copies, orig, x); }
  }

  lemma LiftStep(f: Fn, f': Fn, l: Loop, k: nat, copies: Copies, orig: Origin, p: seq<nat>, i: nat)
    requires IsUnrolling(f, f', l, k, copies, orig) && Walk(f, p) && Fits(l, k, p) && 0 < i < |p|
    ensures Edge(f', PlaceAt(l, copies, p, i - 1), PlaceAt(l, copies, p, i))
  {
    PlaceOrigin(f, f', l, k, copies, orig, p, i - 1);
    LiftEdge(f, f', l, k, copies, orig, PlaceAt(l, copies, p, i - 1), p[i]);
  }

  lemma LiftEdge(f: Fn, f': Fn, l: Loop, k: nat, copies: Copies, orig: Origin, x: nat, t: nat)
    requires IsUnrolling(f, f', l, k, copies, orig) && x < |f'| && Edge(f, orig[x].0, t)
    requires t in l.blocks ==> NextCopy(l, orig[x].0, orig[x].1, t) < NumCopies(l, k, t)
    ensures Edge(f', x, Place(copies, t, NextCopy(l, orig[x].0, orig[x].1, t)))
  {
    EdgeLifts(f, f', l, k, copies, orig, x, t);
  }

  lemma PlaceOrigin(f: Fn, f': Fn, l: Loop, k: nat, copies: Copies, orig: Origin, p: seq<nat>, i: nat)
    requires IsUnrolling(f, f', l, k, copies, orig) && Walk(f, p) && Fits(l, k, p) && i < |p|
    ensures PlaceAt(l, copies, p, i) < |f'| && orig[PlaceAt(l, copies, p, i)] == (p[i], Iteration(l, p, i))
  {
  }

  /** A walk of the old function lifts to a walk of the new one exactly if each of
      its iterations has copies of the blocks it visits; its projection is then
      the walk itself. */
  lemma {:induction false} WalkLifts(f: Fn, f': Fn, l: Loop, k: nat, copies: Copies, orig: Origin, p: seq<nat>)
    requires IsUnrolling(f, f', l, k, copies, orig) && Walk(f, p)
    ensures Fits(l, k, p) <==> exists q :: Walk(f', q) && q[0] == p[0] && Project(orig, q) == p
    ensures Fits(l, k, p) ==> Walk(f', Lift(l, copies, p)) && Project(orig, Lift(l, copies, p)) == p
  {
    if Fits(l, k, p) {
      LiftIsWalk(f, f', l, k, copies, orig, p);
      assert Walk(f', Lift(l, copies, p));
    }
    if q :| Walk(f', q) && q[0] == p[0] && Project(orig, q) == p {
      WalkProjects(f, f', l, k, copies, orig, q);
    }
  }

  lemma {:induction false} LiftIsWalk(f: Fn, f': Fn, l: Loop, k: nat, copies: Copies, orig: Origin, p: seq<nat>)
    requires IsUnrolling(f, f', l, k, copies, orig) && Walk(f, p) && Fits(l, k, p)
    ensures Walk(f', Lift(l, copies, p)) && Lift(l, copies, p)[0] == p[0] && Project(orig, Lift(l, copies, p)) == p
  {
    var q := Lift(l, copies, p);
    forall i | 0 <= i < |p|
      ensures q[i] < |f'| && orig[q[i]] == (p[i], Iteration(l, p, i))
      ensures i > 0 ==> Edge(f', q[i - 1], q[i])
    {
      PlaceOrigin(f, f', l, k, copies, orig, p, i);
      if i > 0 { LiftStep(f, f', l, k, copies, orig, p, i); }
    }
    assert Project(orig, q) == p;
  }

  function BackEdges(l: Loop, p: seq<nat>): nat {
    if |p| < 2 then 0
    else BackEdges(l, p[..|p| - 1])
         + (if p[|p| - 2] in l.blocks && p[|p| - 1] == l.header then 1 else 0)
  }

  /** In particular every walk with fewer than `k` back edges lifts. */
  lemma FewBackEdgesFit(l: Loop, k: nat, p: seq<nat>)
    requires |p| > 0 && BackEdges(l, p) < k
    ensures Fits(l, k, p)
  {
    forall i | 0 <= i < |p|
      ensures Iteration(l, p, i) <= BackEdges(l, p)
    {
      IterationBound(l, p, i);
    }
  }

  lemma {:induction false} IterationBound(l: Loop, p: seq<nat>, i: nat)
    requires i < |p|
    ensures Iteration(l, p, i) <= BackEdges(l, p)
    decreases |p|
  {
    if |p| >= 2 {
      var r := p[..|p| - 1];
      if i < |p| - 1 {
        IterationBound(l, r, i);
        IterationPrefix(l, p, r, i);
      } else {
        IterationBound(l, r, i - 1);
        IterationPrefix(l, p, r, i - 1);
      }
    }
  }

  lemma IterationPrefix(l: Loop, p: seq<nat>, r: seq<nat>, i: nat)
    requires r <= p && i < |r|
    ensures Iteration(l, p, i) == Iteration(l, r, i)
  {
  }

  /** Where a walk stops fitting, its lift can step into the sink. */
  lemma {:induction false} OverflowReachesSink(f: Fn, f': Fn, l: Loop, k: nat, copies: Copies, orig: Origin, p: seq<nat>, t: nat)
    requires IsUnrolling(f, f', l, k, copies, orig)
    requires Walk(f, p) && Fits(l, k, p) && Edge(f, p[|p| - 1], t) && !Fits(l, k, p + [t])
    ensures Sink in f'[Lift(l, copies, p)[|p| - 1]]
  {
    var last := |p| - 1;
    PlaceOrigin(f, f', l, k, copies, orig, p, last);
    EdgeLifts(f, f', l, k, copies, orig, Lift(l, copies, p)[last], t);
    MisfitIsLast(l, k, p, p + [t]);
  }

  lemma {:induction false} MisfitIsLast(l: Loop, k: nat, p: seq<nat>, r: seq<nat>)
    requires 0 < |p| < |r| == |p| + 1 && p <= r && Fits(l, k, p) && !Fits(l, k, r)
    ensures r[|p|] in l.blocks
    ensures NextCopy(l, p[|p| - 1], Iteration(l, p, |p| - 1), r[|p|]) >= NumCopies(l, k, r[|p|])
  {
    var i :| 0 <= i < |r| && r[i] in l.blocks && Iteration(l, r, i) >= NumCopies(l, k, r[i]);
    if i < |p| { IterationPrefix(l, r, p, i); }
    IterationPrefix(l, r, p, |p| - 1);
  }

  // ---------------------------------------------------------------------
  // Loop nests: unrolling the loops from the inside out leaves no cycle
  // ---------------------------------------------------------------------

  /** A back edge of a loop that is still to be unrolled. */
  ghost predicate IsBack(ls: seq<Loop>, u: nat, v: nat) {
    exists i :: 0 <= i < |ls| && v == ls[i].header && u in ls[i].blocks
  }

  /** Apart from back edges, every edge goes up in rank. */
  ghost predicate Ranked(f: Fn, ls: seq<Loop>, rank: seq<nat>) {
    && |rank| == |f|
    && forall u: nat, v: nat :: v < |f| && Edge(f, u, v) ==> rank[u] < rank[v] || IsBack(ls, u, v)
  }

  /** The header is the only entry of the loop and its first block. */
  ghost predicate Natural(f: Fn, rank: seq<nat>, l: Loop)
    requires |rank| == |f|
  {
    && l.header in l.blocks
    && (forall b :: b in l.blocks ==> b < |f|)
    && (forall b :: b in l.blocks && b != l.header ==> rank[l.header] < rank[b])
    && (forall u: nat, v: nat :: Edge(f, u, v) && v in l.blocks && v != l.header ==> u in l.blocks)
  }

  /** `a` is listed before `b`: it is inside `b`, or they are apart. */
  ghost predicate InsideOrApart(a: Loop, b: Loop) {
    a.header != b.header && b.header !in a.blocks && (a.blocks <= b.blocks || a.blocks !! b.blocks)
  }

  /** A function with a nest of natural loops, inner ones listed first. */
  ghost predicate Nest(f: Fn, ls: seq<Loop>, rank: seq<nat>) {
    && Closed(f) && Ranked(f, ls, rank)
    && (forall i :: 0 <= i < |ls| ==> Natural(f, rank, ls[i]))
    && (forall i, j :: 0 <= i < j < |ls| ==> InsideOrApart(ls[i], ls[j]))
  }

  /** The outer loop after the clones of the inner one were added to it. */
  ghost function Grown(l: Loop, orig: Origin): Loop {
    Loop(l.header, set x: nat | x < |orig| && orig[x].0 in l.blocks)
  }

  ghost function GrownAll(ls: seq<Loop>, orig: Origin): seq<Loop> {
    seq(|ls|, i requires 0 <= i < |ls| => Grown(ls[i], orig))
  }

  /** An upper bound of all ranks. */
  function Top(rank: seq<nat>): (t: nat)
    ensures forall i :: 0 <= i < |rank| ==> rank[i] < t
  {
    if rank == [] then 1
    else
      var t := Top(rank[1..]);
      assert forall i :: 0 < i < |rank| ==> rank[i] == rank[1..][i - 1];
      if rank[0] < t then t else rank[0] + 1
  }

  /** Blocks before the loop, then its copies by number, then the blocks after it. */
  ghost function Layer(l: Loop, k: nat, rank: seq<nat>, b: nat, j: nat): nat
    requires b < |rank| && l.header < |rank|
  {
    if b in l.blocks then 1 + j
    else if rank[b] <= rank[l.header] then 0
    else k + 3
  }

  ghost function NewRank(l: Loop, k: nat, rank: seq<nat>, orig: Origin): (r: seq<nat>)
    requires l.header < |rank| && forall x :: 0 <= x < |orig| ==> orig[x].0 < |rank|
    ensures |r| == |orig|
  {
    seq(|orig|, x requires 0 <= x < |orig| =>
      Weigh(Layer(l, k, rank, orig[x].0, orig[x].1), Top(rank), rank[orig[x].0]))
  }

  ghost function Weigh(a: nat, m: nat, x: nat): nat { a * m + x }

  lemma LayerOrder(a: nat, b: nat, m: nat, x: nat, y: nat)
    requires x < m && (a < b || (a == b && x < y))
    ensures Weigh(a, m, x) < Weigh(b, m, y)
  {
    if a < b {
      assert (a + 1) * m <= b * m;
    }
  }

  lemma OuterBackEdge(ls: seq<Loop>, orig: Origin, n: nat, x: nat, y: nat)
    requires 0 < n < |ls| && x < |orig| && y == ls[n].header && orig[x].0 in ls[n].blocks
    ensures IsBack(GrownAll(ls[1..], orig), x, y)
  {
    var g := GrownAll(ls[1..], orig);
    assert g[n - 1].header == y && x in g[n - 1].blocks;
  }

  lemma OnlyClonesAreNew(n: nat, l: Loop, k: nat, copies: Copies, orig: Origin, x: nat)
    requires IsCopies(n, l, k, copies, orig) && x < |orig|
    ensures x < n || orig[x].0 in l.blocks
  {
    if x >= n { assert IsClone(l.blocks, copies, orig, x); }
  }

  /** An edge of the old function that only the back edge of an outer loop explains. */
  lemma OuterBackEdgeKept(f: Fn, f': Fn, ls: seq<Loop>, rank: seq<nat>, k: nat, copies: Copies, orig: Origin, x: nat, y: nat)
    requires ls != [] && Nest(f, ls, rank) && IsUnrolling(f, f', ls[0], k, copies, orig)
    requires x < |f'| && y < |f'| && IsBack(ls, orig[x].0, orig[y].0)
    requires !(orig[y].0 == ls[0].header && orig[x].0 in ls[0].blocks)
    ensures IsBack(GrownAll(ls[1..], orig), x, y)
  {
    var n :| 0 <= n < |ls| && orig[y].0 == ls[n].header && orig[x].0 in ls[n].blocks;
    assert InsideOrApart(ls[0], ls[n]);
    OnlyClonesAreNew(|f|, ls[0], k, copies, orig, y);
    OuterBackEdge(ls, orig, n, x, y);
  }

  lemma RankOfEdge(f: Fn, f': Fn, ls: seq<Loop>, rank: seq<nat>, k: nat, copies: Copies, orig: Origin, x: nat, y: nat)
    requires ls != [] && Nest(f, ls, rank) && IsUnrolling(f, f', ls[0], k, copies, orig)
    requires x < |f'| && Edge(f', x, y)
    ensures y < |f'|
    ensures NewRank(ls[0], k, rank, orig)[x] < NewRank(ls[0], k, rank, orig)[y]
         || IsBack(GrownAll(ls[1..], orig), x, y)
  {
    EdgeProjects(f, f', ls[0], k, copies, orig, x, y);
    if orig[y].0 == ls[0].header && orig[x].0 in ls[0].blocks {
      LayerOrder(1 + orig[x].1, 1 + orig[y].1, Top(rank), rank[orig[x].0], rank[orig[y].0]);
    } else if rank[orig[x].0] < rank[orig[y].0] {
      LayersRise(f, ls, rank, k, copies, orig, x, y);
      LayerOrder(Layer(ls[0], k, rank, orig[x].0, orig[x].1), Layer(ls[0], k, rank, orig[y].0, orig[y].1),
                 Top(rank), rank[orig[x].0], rank[orig[y].0]);
    } else {
      OuterBackEdgeKept(f, f', ls, rank, k, copies, orig, x, y);
    }
  }

  lemma LayersRise(f: Fn, ls: seq<Loop>, rank: seq<nat>, k: nat, copies: Copies, orig: Origin, x: nat, y: nat)
    requires ls != [] && Nest(f, ls, rank) && IsCopies(|f|, ls[0], k, copies, orig)
    requires x < |orig| && y < |orig| && orig[x].0 < |f| && orig[y].0 < |f|
    requires Edge(f, orig[x].0, orig[y].0) && rank[orig[x].0] < rank[orig[y].0]
    requires orig[y].0 == ls[0].header ==> orig[x].0 !in ls[0].blocks
    requires orig[y].1 == NextCopy(ls[0], orig[x].0, orig[x].1, orig[y].0)
    ensures Layer(ls[0], k, rank, orig[x].0, orig[x].1) <= Layer(ls[0], k, rank, orig[y].0, orig[y].1)
  {
    var l := ls[0];
    if x >= |f| { assert IsClone(l.blocks, copies, orig, x); }
    assert Natural(f, rank, l);
  }

  lemma {:induction false} NaturalKept(f: Fn, f': Fn, l: Loop, o: Loop, ls: seq<Loop>, rank: seq<nat>, k: nat, copies: Copies, orig: Origin)
    requires ls != [] && l == ls[0] && Nest(f, ls, rank) && IsUnrolling(f, f', l, k, copies, orig)
    requires Natural(f, rank, o) && InsideOrApart(l, o)
    ensures Natural(f', NewRank(l, k, rank, orig), Grown(o, orig))
  {
    var g := Grown(o, orig);
    var r := NewRank(l, k, rank, orig);
    forall x | x in g.blocks && x != g.header
      ensures r[g.header] < r[x]
    {
      var (b, j) := orig[x];
      if x >= |f| { assert IsClone(l.blocks, copies, orig, x); }
      LayerOrder(Layer(l, k, rank, o.header, 0), Layer(l, k, rank, b, j), Top(rank), rank[o.header], rank[b]);
    }
    forall x: nat, y: nat | Edge(f', x, y) && y in g.blocks && y != g.header
      ensures x in g.blocks
    {
      EdgeProjects(f, f', l, k, copies, orig, x, y);
      if y >= |f| { assert IsClone(l.blocks, copies, orig, y); }
    }
  }

  /** Unrolling the first loop of a nest leaves a nest with one loop less. */
  lemma {:induction false} NestShrinks(f: Fn, f': Fn, ls: seq<Loop>, rank: seq<nat>, k: nat, copies: Copies, orig: Origin)
    requires ls != [] && Nest(f, ls, rank) && IsUnrolling(f, f', ls[0], k, copies, orig)
    ensures Nest(f', GrownAll(ls[1..], orig), NewRank(ls[0], k, rank, orig))
  {
    var g := GrownAll(ls[1..], orig);
    assert Closed(f') by {
      forall u, i | 0 <= u < |f'| && 0 <= i < |f'[u]| && f'[u][i].To?
        ensures f'[u][i].b < |f'|
      {
        assert f'[u][i] in f'[u];
        EdgeProjects(f, f', ls[0], k, copies, orig, u, f'[u][i].b);
      }
    }
    forall u: nat, v: nat | v < |f'| && Edge(f', u, v)
      ensures NewRank(ls[0], k, rank, orig)[u] < NewRank(ls[0], k, rank, orig)[v] || IsBack(g, u, v)
    {
      RankOfEdge(f, f', ls, rank, k, copies, orig, u, v);
    }
    forall i | 0 <= i < |g|
      ensures Natural(f', NewRank(ls[0], k, rank, orig), g[i])
    {
      assert InsideOrApart(ls[0], ls[i + 1]);
      NaturalKept(f, f', ls[0], ls[i + 1], ls, rank, k, copies, orig);
    }
    forall i, j | 0 <= i < j < |g|
      ensures InsideOrApart(g[i], g[j])
    {
      assert InsideOrApart(ls[i + 1], ls[j + 1]);
      assert orig[ls[j + 1].header] == (ls[j + 1].header, 0);
    }
  }

  /** A function without remaining loops has no cyclic walk. */
  lemma {:induction false} NoCycle(f: Fn, rank: seq<nat>, p: seq<nat>)
    requires Nest(f, [], rank) && Walk(f, p) && |p| > 1
    ensures rank[p[0]] < rank[p[|p| - 1]] && p[0] != p[|p| - 1]
    decreases |p|
  {
    var n := |p| - 1;
    assert Edge(f, p[n - 1], p[n]);
    if n > 1 {
      assert Walk(f, p[..n]);
      NoCycle(f, rank, p[..n]);
    }
  }

  // ---------------------------------------------------------------------
  // The transformation
  // ---------------------------------------------------------------------

  class Function {
    /** Jump targets, read and rewritten in place by block number. */
    var targets: Fn

    constructor (f: Fn)
      ensures targets == f
    {
      targets := f;
    }

    /** `cloneBB`: a new block that jumps where the original block jumps now. */
    method CloneBlock(b: nat) returns (n: nat)
      requires b < |targets|
      modifies this
      ensures n == |old(targets)| && targets == old(targets) + [old(targets)[b]]
    {
      n := |targets|;
      targets := targets + [targets[b]];
    }

    /** `replaceTargetWith`: every operand equal to `from` becomes `to`. */
    method ReplaceTarget(b: nat, from: Dest, to: Dest)
      requires b < |targets|
      modifies this
      ensures |targets| == |old(targets)| && |targets[b]| == |old(targets)[b]|
      ensures forall x :: 0 <= x < |targets| && x != b ==> targets[x] == old(targets)[x]
      ensures forall i :: 0 <= i < |targets[b]| ==>
        targets[b][i] == if old(targets)[b][i] == from then to else old(targets)[b][i]
    {
      var ts := targets[b];
      ts := seq(|ts|, i requires 0 <= i < |ts| => if ts[i] == from then to else ts[i]);
      targets := targets[b := ts];
    }

    /** Patches the targets of copy number `j`, block `x`, operand by operand. */
    method PatchCopy(x: nat, j: nat, header: nat, copies: Copies)
      requires x < |targets| && header in copies
      requires forall b :: b in copies ==> |copies[b]| > 0 && copies[b][0] == b
      requires forall b, i :: b in copies && 0 < i < |copies[b]| ==> copies[b][i] !in copies
      modifies this
      ensures targets == old(targets)[x := RedirectAll(copies, header, j, old(targets)[x])]
    {
      ghost var ts := targets[x];
      var i := 0;
      while i < |targets[x]|
        invariant |targets| == |old(targets)| && |targets[x]| == |ts| && i <= |ts|
        invariant forall y :: 0 <= y < |targets| && y != x ==> targets[y] == old(targets)[y]
        invariant forall m :: 0 <= m < |ts| ==>
          || targets[x][m] == Redirect(copies, header, j, ts[m])
          || (m >= i && targets[x][m] == ts[m])
      {
        var t := targets[x][i];
        if t.To? && t.b in copies {
          ReplaceTarget(x, t, Redirect(copies, header, j, t));
        }
        i := i + 1;
      }
      assert targets[x] == RedirectAll(copies, header, j, ts);
    }

    /** The blocks so far are copies of the blocks of `f`, not patched yet. */
    ghost predicate Mirrors(f: Fn, blocks: set<nat>, copies: Copies, orig: Origin)
      reads this
    {
      && Numbering(|f|, blocks, copies, orig) && |targets| == |orig|
      && forall x :: 0 <= x < |orig| ==> orig[x].0 < |f| && targets[x] == f[orig[x].0]
    }

    /** Clones `b` and records the clone as its next copy. */
    method AddCopy(b: nat, copies: Copies, ghost f: Fn, ghost blocks: set<nat>, ghost orig: Origin)
      returns (copies': Copies, ghost orig': Origin)
      requires b in blocks && Mirrors(f, blocks, copies, orig)
      modifies this
      ensures Mirrors(f, blocks, copies', orig')
      ensures copies' == copies[b := copies[b] + [|old(targets)|]] && orig' == orig + [(b, |copies[b]|)]
    {
      var x := CloneBlock(b);
      copies' := copies[b := copies[b] + [x]];
      orig' := orig + [(b, |copies[b]|)];
      forall y | |f| <= y < |orig'|
        ensures IsClone(blocks, copies', orig', y)
      {
        if y < |orig| { assert IsClone(blocks, copies, orig, y); }
      }
    }

    /** Clones every block of the loop once. */
    method CloneRound(bbs: seq<nat>, copies: Copies, ghost f: Fn, ghost m: nat, ghost orig: Origin)
      returns (copies': Copies, ghost orig': Origin)
      requires Distinct(bbs) && Mirrors(f, SetOf(bbs), copies, orig) && Sizes(bbs, copies, m, 0)
      modifies this
      ensures Mirrors(f, SetOf(bbs), copies', orig') && Sizes(bbs, copies', m + 1, 0)
    {
      copies', orig' := copies, orig;
      for p := 0 to |bbs|
        invariant Mirrors(f, SetOf(bbs), copies', orig') && Sizes(bbs, copies', m, p)
      {
        SizesNext(bbs, copies', m, p, |targets|);
        copies', orig' := AddCopy(bbs[p], copies', f, SetOf(bbs), orig');
      }
    }

    /** Clones all blocks `k - 1` times and the header of a multi-block loop once more. */
    method CloneLoop(bbs: seq<nat>, k: nat) returns (copies: Copies, ghost orig: Origin)
      requires k > 0 && bbs != [] && Distinct(bbs) && forall i :: 0 <= i < |bbs| ==> bbs[i] < |targets|
      modifies this
      ensures IsCopies(|old(targets)|, LoopOf(bbs), k, copies, orig)
      ensures Mirrors(old(targets), LoopOf(bbs).blocks, copies, orig)
    {
      ghost var f := targets;
      copies := map b | b in bbs :: [b];
      orig := seq(|f|, x => (x, 0));
      for unroll := 2 to k + 1
        invariant Mirrors(f, SetOf(bbs), copies, orig) && Sizes(bbs, copies, unroll - 1, 0)
      {
        copies, orig := CloneRound(bbs, copies, f, unroll - 1, orig);
      }
      if |bbs| > 1 {
        SizesNext(bbs, copies, k, 0, |targets|);
        copies, orig := AddCopy(bbs[0], copies, f, SetOf(bbs), orig);
      }
      CopiesMade(|f|, bbs, k, copies, orig);
    }

    /** Patches all copies of one block. */
    method PatchBlock(b: nat, header: nat, copies: Copies, ghost n: nat, ghost blocks: set<nat>, ghost orig: Origin)
      requires Numbering(n, blocks, copies, orig) && header in blocks && b in blocks && |targets| == |orig|
      modifies this
      ensures Patched(old(targets), targets, copies, header, orig, {b})
    {
      ghost var was := targets;
      for j := 0 to |copies[b]|
        invariant PatchedUpTo(was, targets, copies, header, orig, b, j)
      {
        ghost var mid := targets;
        PatchCopy(copies[b][j], j, header, copies);
        CopyPatched(n, blocks, was, mid, targets, copies, header, orig, b, j);
      }
      AllCopiesPatched(n, blocks, was, targets, copies, header, orig, b);
    }

    method PatchLoop(bbs: seq<nat>, copies: Copies, ghost n: nat, ghost orig: Origin)
      requires bbs != [] && Distinct(bbs) && Numbering(n, LoopOf(bbs).blocks, copies, orig)
      requires |targets| == |orig|
      modifies this
      ensures Patched(old(targets), targets, copies, bbs[0], orig, LoopOf(bbs).blocks)
    {
      ghost var was := targets;
      for p := 0 to |bbs|
        invariant Patched(was, targets, copies, bbs[0], orig, SetOf(bbs[..p]))
      {
        ghost var mid := targets;
        PatchBlock(bbs[p], bbs[0], copies, n, LoopOf(bbs).blocks, orig);
        NextBlock(bbs, p);
        PatchedTrans(was, mid, targets, copies, bbs[0], orig, SetOf(bbs[..p]), bbs[p]);
      }
      assert bbs[..|bbs|] == bbs;
    }

    /** One iteration of the worklist loop of `unroll`: `bbs` are the blocks of the
        loop, the header first. */
    method UnrollLoop(bbs: seq<nat>, k: nat) returns (copies: Copies, ghost orig: Origin)
      requires k > 0 && bbs != [] && Distinct(bbs) && Closed(targets)
      requires forall i :: 0 <= i < |bbs| ==> bbs[i] < |targets|
      modifies this
      ensures IsUnrolling(old(targets), targets, LoopOf(bbs), k, copies, orig)
    {
      copies, orig := CloneLoop(bbs, k);
      PatchLoop(bbs, copies, |old(targets)|, orig);
    }

    /** Adds the clones of the blocks of an unrolled loop to the block list of a
        loop around it; a loop apart from it keeps its list. */
    method Grow(bbs: seq<nat>, inner: seq<nat>, copies: Copies, ghost n: nat, ghost orig: Origin) returns (grown: seq<nat>)
      requires bbs != [] && Distinct(bbs) && forall b :: b in bbs ==> b < n
      requires inner != [] && Distinct(inner) && Numbering(n, LoopOf(inner).blocks, copies, orig)
      ensures grown != [] && Distinct(grown) && LoopOf(grown) == Grown(LoopOf(bbs), orig)
    {
      grown := bbs;
      for p := 0 to |inner|
        invariant grown != [] && grown[0] == bbs[0] && Distinct(grown)
        invariant forall x :: x in grown <==>
          x in bbs || (n <= x < |orig| && orig[x].0 in inner[..p] && orig[x].0 in bbs)
      {
        assert inner[..p + 1] == inner[..p] + [inner[p]];
        if inner[p] in bbs {
          assert inner[p] !in inner[..p];
          grown := AddClones(grown, inner[p], copies, n, LoopOf(inner).blocks, orig);
        }
      }
      assert inner[..|inner|] == inner;
      forall x: nat
        ensures x in grown <==> x < |orig| && orig[x].0 in bbs
      {
        if n <= x < |orig| { assert IsClone(LoopOf(inner).blocks, copies, orig, x); }
      }
    }

    method AddClones(bbs: seq<nat>, b: nat, copies: Copies, ghost n: nat, ghost blocks: set<nat>, ghost orig: Origin)
      returns (grown: seq<nat>)
      requires Distinct(bbs) && Numbering(n, blocks, copies, orig) && b in blocks
      requires forall x :: x in bbs && n <= x < |orig| ==> orig[x].0 != b
      ensures Distinct(grown) && bbs <= grown
      ensures forall x :: x in grown <==> x in bbs || (n <= x < |orig| && orig[x].0 == b)
    {
      grown := bbs;
      forall x | n <= x < |orig| && orig[x].0 == b
        ensures 1 <= orig[x].1 < |copies[b]| && x == copies[b][orig[x].1]
      {
        assert IsClone(blocks, copies, orig, x);
      }
      for j := 1 to |copies[b]|
        invariant Distinct(grown) && bbs <= grown
        invariant forall x :: x in grown <==>
          x in bbs || (n <= x < |orig| && orig[x].0 == b && orig[x].1 < j)
      {
        var c := copies[b][j];
        assert orig[c] == (b, j) && n <= c;
        grown := grown + [c];
      }
    }

    method GrowAll(loops: seq<seq<nat>>, inner: seq<nat>, copies: Copies, ghost n: nat, ghost orig: Origin)
      returns (grown: seq<seq<nat>>)
      requires AreLoops(loops) && forall i :: 0 <= i < |loops| ==> forall b :: b in loops[i] ==> b < n
      requires inner != [] && Distinct(inner) && Numbering(n, LoopOf(inner).blocks, copies, orig)
      ensures AreLoops(grown) && LoopsOf(grown) == GrownAll(LoopsOf(loops), orig)
    {
      grown := [];
      for i := 0 to |loops|
        invariant |grown| == i && AreLoops(grown)
        invariant forall m :: 0 <= m < i ==> LoopOf(grown[m]) == Grown(LoopOf(loops[m]), orig)
      {
        var g := Grow(loops[i], inner, copies, n, orig);
        grown := grown + [g];
      }
    }

    /** Unrolls the innermost loop of a nest and updates the block lists of the others. */
    method UnrollFirst(loops: seq<seq<nat>>, k: nat, ghost rank0: seq<nat>)
      returns (rest: seq<seq<nat>>, ghost rank: seq<nat>, ghost copies: Copies, ghost orig: Origin)
      requires k > 0 && loops != [] && AreLoops(loops) && Nest(targets, LoopsOf(loops), rank0)
      modifies this
      ensures AreLoops(rest) && |rest| == |loops| - 1 && Nest(targets, LoopsOf(rest), rank)
      ensures LoopsOf(rest) == GrownAll(LoopsOf(loops)[1..], orig)
      ensures IsUnrolling(old(targets), targets, LoopOf(loops[0]), k, copies, orig)
    {
      ghost var f := targets;
      FirstOfNest(f, loops, rank0);
      var c;
      c, orig := UnrollLoop(loops[0], k);
      copies := c;
      rank := NewRank(LoopOf(loops[0]), k, rank0, orig);
      NestShrinks(f, targets, LoopsOf(loops), rank0, k, copies, orig);
      rest := GrowAll(loops[1..], loops[0], c, |f|, orig);
    }

    /** Unrolls a whole nest, inner loops first. No cycle is left, every walk of the
        new function from an original block is, block for block, a walk of the old
        one, and every walk of the old one with fewer than `k` back edges each time
        it is in a loop is that of exactly one walk of the new one. */
    method UnrollNest(nest: seq<seq<nat>>, k: nat, ghost rank0: seq<nat>)
      returns (ghost rank: seq<nat>, ghost block: seq<nat>)
      requires k > 0 && AreLoops(nest) && Nest(targets, LoopsOf(nest), rank0)
      modifies this
      ensures Nest(targets, [], rank)
      ensures Covers(old(targets), targets, block)
      ensures Keeps(old(targets), LoopsOf(nest), k, targets, [], block) && OneEach(old(targets), targets, block)
    {
      var loops := nest;
      rank := rank0;
      ghost var f := targets;
      block := seq(|f|, x => x);
      CoversItself(f);
      KeepsItself(f, LoopsOf(nest), k);
      while loops != []
        invariant AreLoops(loops) && Nest(targets, LoopsOf(loops), rank)
        invariant Covers(f, targets, block)
        invariant Keeps(f, LoopsOf(nest), k, targets, LoopsOf(loops), block) && OneEach(f, targets, block)
        decreases |loops|
      {
        ghost var g, ls, copies, orig := targets, LoopsOf(loops), map[], [];
        ghost var rank1 := rank;
        loops, rank, copies, orig := UnrollFirst(loops, k, rank);
        CoversTrans(f, g, targets, block, ls[0], k, copies, orig);
        KeepsTrans(f, LoopsOf(nest), g, targets, block, ls, rank1, k, copies, orig);
        OneEachTrans(f, g, targets, block, ls[0], k, copies, orig);
        block := Through(block, orig);
      }
      assert LoopsOf(loops) == [];
    }
  }

  ghost predicate AreLoops(ls: seq<seq<nat>>) {
    forall i :: 0 <= i < |ls| ==> ls[i] != [] && Distinct(ls[i])
  }

  ghost function LoopsOf(ls: seq<seq<nat>>): seq<Loop>
    requires AreLoops(ls)
  {
    seq(|ls|, i requires 0 <= i < |ls| => LoopOf(ls[i]))
  }

  /** The first loop of a nest and the others. */
  lemma FirstOfNest(f: Fn, ls: seq<seq<nat>>, rank: seq<nat>)
    requires ls != [] && AreLoops(ls) && Nest(f, LoopsOf(ls), rank)
    ensures Closed(f) && ls[0] != [] && Distinct(ls[0]) && forall i :: 0 <= i < |ls[0]| ==> ls[0][i] < |f|
    ensures AreLoops(ls[1..]) && forall i :: 0 <= i < |ls[1..]| ==> forall b :: b in ls[1..][i] ==> b < |f|
    ensures LoopsOf(ls) != [] && LoopsOf(ls)[0] == LoopOf(ls[0]) && LoopsOf(ls)[1..] == LoopsOf(ls[1..])
  {
    LoopsInRange(f, ls, rank);
    assert forall i :: 0 <= i < |ls[0]| ==> ls[0][i] in ls[0];
  }

  lemma LoopsInRange(f: Fn, ls: seq<seq<nat>>, rank: seq<nat>)
    requires AreLoops(ls) && Nest(f, LoopsOf(ls), rank)
    ensures forall i :: 0 <= i < |ls| ==> forall b :: b in ls[i] ==> b < |f|
  {
    forall i, b | 0 <= i < |ls| && b in ls[i]
      ensures b < |f|
    {
      assert Natural(f, rank, LoopsOf(ls)[i]) && b in LoopsOf(ls)[i].blocks;
    }
  }

  /** `block` maps the walks of `f'` from original blocks to walks of `f`. */
  ghost predicate Covers(f: Fn, f': Fn, block: seq<nat>) {
    && |block| == |f'| && |f| <= |f'|
    && (forall x :: 0 <= x < |f| ==> block[x] == x)
    && forall q :: Walk(f', q) && q[0] < |f| ==> Walk(f, Blocks(block, q))
  }

  function Blocks(block: seq<nat>, q: seq<nat>): seq<nat> {
    seq(|q|, i requires 0 <= i < |q| => if q[i] < |block| then block[q[i]] else q[i])
  }

  lemma CoversItself(f: Fn)
    ensures Covers(f, f, seq(|f|, x => x))
  {
    forall q | Walk(f, q)
      ensures Walk(f, Blocks(seq(|f|, x => x), q))
    {
      assert Blocks(seq(|f|, x => x), q) == q;
    }
  }

  ghost function Through(block: seq<nat>, orig: Origin): seq<nat> {
    seq(|orig|, x requires 0 <= x < |orig| => if orig[x].0 < |block| then block[orig[x].0] else 0)
  }

  lemma {:induction false} CoversTrans(f: Fn, g: Fn, h: Fn, block: seq<nat>, l: Loop, k: nat, copies: Copies, orig: Origin)
    requires Covers(f, g, block) && IsUnrolling(g, h, l, k, copies, orig)
    ensures Covers(f, h, Through(block, orig))
  {
    forall q | Walk(h, q) && q[0] < |f|
      ensures Walk(f, Blocks(Through(block, orig), q))
    {
      WalkProjects(g, h, l, k, copies, orig, q);
      SameBlocks(g, block, orig, q);
    }
  }

  lemma {:induction false} SameBlocks(g: Fn, block: seq<nat>, orig: Origin, q: seq<nat>)
    requires |block| == |g| && (forall x :: 0 <= x < |orig| ==> orig[x].0 < |g|) && (forall i :: 0 <= i < |q| ==> q[i] < |orig|)
    ensures Blocks(block, Project(orig, q)) == Blocks(Through(block, orig), q)
  {
  }

  /** Whenever the walk is in one of the loops, it has taken fewer than `k` back edges
      since it entered it. */
  ghost predicate Bounded(ls: seq<Loop>, k: nat, p: seq<nat>) {
    forall n, i {:trigger Iteration(ls[n], p, i)} :: 0 <= n < |ls| && 0 <= i < |p| ==> Iteration(ls[n], p, i) < k
  }

  /** In particular if it takes fewer than `k` back edges of each loop at all. */
  lemma BoundedIfFew(ls: seq<Loop>, k: nat, p: seq<nat>)
    requires forall n :: 0 <= n < |ls| ==> BackEdges(ls[n], p) < k
    ensures Bounded(ls, k, p)
  {
    forall n, i | 0 <= n < |ls| && 0 <= i < |p|
      ensures Iteration(ls[n], p, i) < k
    {
      IterationBound(ls[n], p, i);
    }
  }

  /** A walk of `g` that is the walk `p` of the original function. */
  ghost predicate IsLift(g: Fn, block: seq<nat>, p: seq<nat>, q: seq<nat>) {
    p != [] && Walk(g, q) && q[0] == p[0] && Blocks(block, q) == p
  }

  /** Bounded walks of `f` have a lift, which is bounded in the loops that are left. */
  ghost predicate Keeps(f: Fn, ls: seq<Loop>, k: nat, g: Fn, rest: seq<Loop>, block: seq<nat>) {
    forall p :: Walk(f, p) && Bounded(ls, k, p) ==> exists q :: IsLift(g, block, p, q) && Bounded(rest, k, q)
  }

  /** A walk of `f` has at most one lift. */
  ghost predicate OneEach(f: Fn, g: Fn, block: seq<nat>) {
    forall p, q, r :: p != [] && p[0] < |f| && IsLift(g, block, p, q) && IsLift(g, block, p, r) ==> q == r
  }

  /** What unrolling a whole nest gives a walk that takes fewer than `k` back edges of
      each loop: exactly one walk of the new function. */
  lemma FewLiftOnce(f: Fn, ls: seq<Loop>, k: nat, g: Fn, block: seq<nat>, p: seq<nat>) returns (q: seq<nat>)
    requires Keeps(f, ls, k, g, [], block) && OneEach(f, g, block)
    requires Walk(f, p) && forall n :: 0 <= n < |ls| ==> BackEdges(ls[n], p) < k
    ensures IsLift(g, block, p, q) && forall r :: IsLift(g, block, p, r) ==> r == q
  {
    BoundedIfFew(ls, k, p);
    q :| IsLift(g, block, p, q);
  }

  lemma KeepsItself(f: Fn, ls: seq<Loop>, k: nat)
    ensures Keeps(f, ls, k, f, ls, seq(|f|, x => x)) && OneEach(f, f, seq(|f|, x => x))
  {
    var block := seq(|f|, x => x);
    forall q | Walk(f, q)
      ensures Blocks(block, q) == q
    {
    }
    forall p | Walk(f, p) && Bounded(ls, k, p)
      ensures exists q :: IsLift(f, block, p, q) && Bounded(ls, k, q)
    {
      assert IsLift(f, block, p, p);
    }
  }

  /** An outer loop is in the same iteration along a walk and along its lift. */
  lemma {:induction false} IterationKept(g: Fn, h: Fn, l: Loop, o: Loop, k: nat, copies: Copies, orig: Origin, q: seq<nat>, i: nat)
    requires IsUnrolling(g, h, l, k, copies, orig) && o.header !in l.blocks && o.header < |g|
    requires (forall x :: 0 <= x < |q| ==> q[x] < |orig|) && i < |q|
    ensures Iteration(Grown(o, orig), q, i) == Iteration(o, Project(orig, q), i)
  {
    if i > 0 {
      IterationKept(g, h, l, o, k, copies, orig, q, i - 1);
      NextKept(g, h, l, o, k, copies, orig, q[i - 1], Iteration(o, Project(orig, q), i - 1), q[i]);
    }
  }

  lemma NextKept(g: Fn, h: Fn, l: Loop, o: Loop, k: nat, copies: Copies, orig: Origin, x: nat, j: nat, y: nat)
    requires IsUnrolling(g, h, l, k, copies, orig) && o.header !in l.blocks && o.header < |g|
    requires x < |orig| && y < |orig|
    ensures NextCopy(Grown(o, orig), x, j, y) == NextCopy(o, orig[x].0, j, orig[y].0)
  {
    assert orig[o.header] == (o.header, 0);
    if orig[y].0 == o.header { PlaceOf(g, h, l, k, copies, orig, y); }
  }

  /** The lift of a bounded walk is bounded in the outer loops. */
  lemma LiftBounded(g: Fn, h: Fn, ls: seq<Loop>, rank: seq<nat>, k: nat, copies: Copies, orig: Origin, p: seq<nat>, q: seq<nat>)
    requires ls != [] && Nest(g, ls, rank) && IsUnrolling(g, h, ls[0], k, copies, orig)
    requires Bounded(ls, k, p) && (forall x :: 0 <= x < |q| ==> q[x] < |orig|) && Project(orig, q) == p
    ensures Bounded(GrownAll(ls[1..], orig), k, q)
  {
    var rest := GrownAll(ls[1..], orig);
    forall n, i | 0 <= n < |rest| && 0 <= i < |q|
      ensures Iteration(rest[n], q, i) < k
    {
      assert rest[n] == Grown(ls[n + 1], orig) && InsideOrApart(ls[0], ls[n + 1]);
      assert Natural(g, rank, ls[n + 1]);
      IterationKept(g, h, ls[0], ls[n + 1], k, copies, orig, q, i);
      assert Iteration(ls[n + 1], p, i) < k;
    }
  }

  lemma KeepsTrans(f: Fn, fs: seq<Loop>, g: Fn, h: Fn, block: seq<nat>, ls: seq<Loop>, rank: seq<nat>, k: nat, copies: Copies, orig: Origin)
    requires Keeps(f, fs, k, g, ls, block) && Covers(f, g, block)
    requires ls != [] && Nest(g, ls, rank) && IsUnrolling(g, h, ls[0], k, copies, orig)
    ensures Keeps(f, fs, k, h, GrownAll(ls[1..], orig), Through(block, orig))
  {
    forall p | Walk(f, p) && Bounded(fs, k, p)
      ensures exists q :: IsLift(h, Through(block, orig), p, q) && Bounded(GrownAll(ls[1..], orig), k, q)
    {
      var r :| IsLift(g, block, p, r) && Bounded(ls, k, r);
      forall i | 0 <= i < |r|
        ensures Iteration(ls[0], r, i) < k
      {
      }
      LiftIsWalk(g, h, ls[0], k, copies, orig, r);
      var q := Lift(ls[0], copies, r);
      SameBlocks(g, block, orig, q);
      LiftBounded(g, h, ls, rank, k, copies, orig, r, q);
      assert IsLift(h, Through(block, orig), p, q);
    }
  }

  lemma OneEachTrans(f: Fn, g: Fn, h: Fn, block: seq<nat>, l: Loop, k: nat, copies: Copies, orig: Origin)
    requires OneEach(f, g, block) && Covers(f, g, block) && IsUnrolling(g, h, l, k, copies, orig)
    ensures OneEach(f, h, Through(block, orig))
  {
    forall p, q, r | p != [] && p[0] < |f| && IsLift(h, Through(block, orig), p, q) && IsLift(h, Through(block, orig), p, r)
      ensures q == r
    {
      LiftProjects(g, h, block, l, k, copies, orig, p, q);
      LiftProjects(g, h, block, l, k, copies, orig, p, r);
    }
  }

  /** A lift to the unrolled function is the lift of a lift. */
  lemma LiftProjects(g: Fn, h: Fn, block: seq<nat>, l: Loop, k: nat, copies: Copies, orig: Origin, p: seq<nat>, q: seq<nat>)
    requires IsUnrolling(g, h, l, k, copies, orig) && |block| == |g|
    requires p != [] && p[0] < |g| && IsLift(h, Through(block, orig), p, q)
    ensures IsLift(g, block, p, Project(orig, q)) && q == Lift(l, copies, Project(orig, q))
  {
    WalkProjects(g, h, l, k, copies, orig, q);
    SameBlocks(g, block, orig, q);
  }

  /** All copies of `blocks` have had their targets redirected; nothing else has changed. */
  ghost predicate Patched(was: Fn, now: Fn, copies: Copies, header: nat, orig: Origin, blocks: set<nat>) {
    && |was| == |now| == |orig|
    && forall x :: 0 <= x < |orig| ==>
         now[x] == if orig[x].0 in blocks then RedirectAll(copies, header, orig[x].1, was[x]) else was[x]
  }

  /** The same for the first `j` copies of `b`. */
  ghost predicate PatchedUpTo(was: Fn, now: Fn, copies: Copies, header: nat, orig: Origin, b: nat, j: nat) {
    && |was| == |now| == |orig|
    && forall x :: 0 <= x < |orig| ==>
         now[x] == if orig[x].0 == b && orig[x].1 < j then RedirectAll(copies, header, orig[x].1, was[x]) else was[x]
  }

  /** Only one block is copy `j` of `b`. */
  lemma OneCopy(n: nat, blocks: set<nat>, copies: Copies, orig: Origin, b: nat, x: nat)
    requires Numbering(n, blocks, copies, orig) && b in blocks && x < |orig| && orig[x].0 == b
    ensures orig[x].1 < |copies[b]| && x == copies[b][orig[x].1]
  {
    if x >= n { assert IsClone(blocks, copies, orig, x); }
  }

  lemma CopyPatched(n: nat, blocks: set<nat>, was: Fn, mid: Fn, now: Fn, copies: Copies, header: nat, orig: Origin, b: nat, j: nat)
    requires Numbering(n, blocks, copies, orig) && b in blocks && j < |copies[b]|
    requires PatchedUpTo(was, mid, copies, header, orig, b, j) && copies[b][j] < |mid|
    requires now == mid[copies[b][j] := RedirectAll(copies, header, j, mid[copies[b][j]])]
    ensures PatchedUpTo(was, now, copies, header, orig, b, j + 1)
  {
    var c := copies[b][j];
    forall x: nat | x < |orig|
      ensures orig[x] == (b, j) <==> x == c
    {
      if orig[x].0 == b { OneCopy(n, blocks, copies, orig, b, x); }
    }
    OnePatched(was, mid, now, copies, header, orig, b, j, c);
  }

  lemma OnePatched(was: Fn, mid: Fn, now: Fn, copies: Copies, header: nat, orig: Origin, b: nat, j: nat, c: nat)
    requires PatchedUpTo(was, mid, copies, header, orig, b, j) && c < |mid|
    requires forall x: nat :: x < |orig| ==> (orig[x] == (b, j) <==> x == c)
    requires now == mid[c := RedirectAll(copies, header, j, mid[c])]
    ensures PatchedUpTo(was, now, copies, header, orig, b, j + 1)
  {
    forall x: nat | x < |orig|
      ensures now[x] == if orig[x].0 == b && orig[x].1 < j + 1 then RedirectAll(copies, header, orig[x].1, was[x]) else was[x]
    {
      assert orig[x] == (b, j) <==> x == c;
    }
  }

  lemma AllCopiesPatched(n: nat, blocks: set<nat>, was: Fn, now: Fn, copies: Copies, header: nat, orig: Origin, b: nat)
    requires Numbering(n, blocks, copies, orig) && b in blocks
    requires PatchedUpTo(was, now, copies, header, orig, b, |copies[b]|)
    ensures Patched(was, now, copies, header, orig, {b})
  {
    forall x: nat | x < |orig| && orig[x].0 == b ensures orig[x].1 < |copies[b]| { OneCopy(n, blocks, copies, orig, b, x); }
  }

  lemma PatchedTrans(was: Fn, mid: Fn, now: Fn, copies: Copies, header: nat, orig: Origin, done: set<nat>, b: nat)
    requires Patched(was, mid, copies, header, orig, done) && Patched(mid, now, copies, header, orig, {b}) && b !in done
    ensures Patched(was, now, copies, header, orig, done + {b})
  {
  }

  /** Blocks before position `p` have one copy more than the `m` of the others. */
  ghost predicate Sizes(bbs: seq<nat>, copies: Copies, m: nat, p: nat) {
    forall i :: 0 <= i < |bbs| ==> bbs[i] in copies && |copies[bbs[i]]| == m + (if i < p then 1 else 0)
  }

  lemma SizesNext(bbs: seq<nat>, copies: Copies, m: nat, p: nat, x: nat)
    requires Distinct(bbs) && p < |bbs| && Sizes(bbs, copies, m, p)
    ensures Sizes(bbs, copies[bbs[p] := copies[bbs[p]] + [x]], m, p + 1)
  {
  }

  lemma CopiesMade(n: nat, bbs: seq<nat>, k: nat, copies: Copies, orig: Origin)
    requires k > 0 && bbs != [] && Distinct(bbs) && Numbering(n, SetOf(bbs), copies, orig)
    requires Sizes(bbs, copies, k, if |bbs| > 1 then 1 else 0)
    ensures IsCopies(n, LoopOf(bbs), k, copies, orig)
  {
    LoopSize(bbs);
    forall b | b in bbs
      ensures |copies[b]| == NumCopies(LoopOf(bbs), k, b)
    {
      var i :| 0 <= i < |bbs| && bbs[i] == b;
    }
  }

  ghost function SetOf(bbs: seq<nat>): set<nat> {
    set b | b in bbs
  }

  lemma NextBlock(bbs: seq<nat>, p: nat)
    requires p < |bbs| && Distinct(bbs)
    ensures bbs[p] !in SetOf(bbs[..p]) && SetOf(bbs[..p + 1]) == SetOf(bbs[..p]) + {bbs[p]}
  {
    assert bbs[..p + 1] == bbs[..p] + [bbs[p]];
  }

  ghost predicate Distinct(bbs: seq<nat>) {
    forall i, j :: 0 <= i < j < |bbs| ==> bbs[i] != bbs[j]
  }

  ghost function LoopOf(bbs: seq<nat>): Loop
    requires bbs != []
  {
    Loop(bbs[0], SetOf(bbs))
  }

  lemma LoopSize(bbs: seq<nat>)
    requires bbs != [] && Distinct(bbs)
    ensures |LoopOf(bbs).blocks| > 1 <==> |bbs| > 1
  {
    var s := LoopOf(bbs).blocks;
    if |bbs| > 1 {
      assert {bbs[0], bbs[1]} <= s;
      assert |s - {bbs[0], bbs[1]}| == |s| - 2;
    } else {
      assert s == {bbs[0]};
    }
  }
}
