/** The exit blocks that unrolling records at loop headers, over a whole run: which
    edges `Function::topSort` follows besides the jumps. */
module ExitRuns {
  import opened Unroll
  import B = BlockOrder
  import Dominators
  import E = ExitOrder
  import G = Graph
  import T = TopSort
  import O = UnrolledOrder
  import R = UnrollRuns

  /** The blocks of the loop are entered at its header alone, and the first block of
      the function is not among them. */
  ghost predicate Entered(f: Fn, d: Loop) {
    && d.header in d.blocks && 0 !in d.blocks && (forall b :: b in d.blocks ==> b < |f|)
    && (forall u: nat, v: nat :: Edge(f, u, v) && v in d.blocks && v != d.header ==> u in d.blocks)
  }

  /** Some block of the loop jumps out to `v`. */
  ghost predicate Leaves(f: Fn, d: Loop, v: nat) {
    v !in d.blocks && exists u :: u in d.blocks && Edge(f, u, v)
  }

  /** `v` heads a loop that `q` is in. */
  ghost predicate HeadedBy(done: seq<Loop>, q: nat, v: nat) {
    exists j :: 0 <= j < |done| && done[j].header == v && q in done[j].blocks
  }

  /** The state of a run: `done` are the loops that were unrolled, with all their copies,
      and `exits` the blocks that were recorded for each. */
  ghost predicate ExitState(f: Fn, ls: seq<Loop>, done: seq<Loop>, exits: seq<set<nat>>) {
    && |exits| == |done|
    && (forall i :: 0 <= i < |done| ==> Entered(f, done[i]))
    && (forall i, j :: 0 <= i < j < |done| ==> InsideOrApart(done[i], done[j]))
    && (forall i, n :: 0 <= i < |done| && 0 <= n < |ls| ==> InsideOrApart(done[i], ls[n]))
    && (forall i, v: nat :: 0 <= i < |done| && v in exits[i] ==> Leaves(f, done[i], v) || HeadedBy(done, done[i].header, v))
  }

  /** The exit blocks of the loop that is unrolled next. */
  ghost function ExitSet(f: Fn, l: Loop): (s: set<nat>)
    requires Closed(f)
    ensures forall v: nat :: v in s <==> Leaves(f, l, v)
  {
    assert forall u: nat, v: nat :: Edge(f, u, v) ==> v < |f|;
    set v: nat | v < |f| && Leaves(f, l, v)
  }

  // ---------------------------------------------------------------------
  // What one step keeps
  // ---------------------------------------------------------------------

  /** A jump into the first copy of a block other than the header comes from a first copy. */
  lemma FirstFromFirst(f: Fn, f': Fn, l: Loop, k: nat, copies: Copies, orig: Origin, x: nat, y: nat)
    requires IsUnrolling(f, f', l, k, copies, orig) && x < |f'| && Edge(f', x, y) && y < |f|
    requires orig[x].0 in l.blocks ==> y in l.blocks && y != l.header
    ensures x == orig[x].0 && Edge(f, x, y)
  {
    assert orig[y] == (y, 0);
    EdgeProjects(f, f', l, k, copies, orig, x, y);
    PlaceOf(f, f', l, k, copies, orig, x);
    OnlyClonesAreNew(|f|, l, k, copies, orig, x);
    if orig[x].0 in l.blocks {
      assert copies[orig[x].0][0] == orig[x].0;
    } else {
      assert orig[x] == (x, 0);
    }
  }

  /** Loops inside the one that is unrolled, or apart from it, are still entered at
      their headers. */
  lemma EnteredKept(f: Fn, f': Fn, l: Loop, k: nat, copies: Copies, orig: Origin, d: Loop)
    requires IsUnrolling(f, f', l, k, copies, orig) && Entered(f, d) && InsideOrApart(d, l)
    ensures Entered(f', d)
  {
    forall b | b in d.blocks ensures b < |f'| { assert orig[b] == (b, 0); }
    forall x: nat, y: nat | Edge(f', x, y) && y in d.blocks && y != d.header
      ensures x in d.blocks
    {
      assert orig[y] == (y, 0);
      EdgeProjects(f, f', l, k, copies, orig, x, y);
      assert orig[x].0 in d.blocks;
      FirstFromFirst(f, f', l, k, copies, orig, x, y);
    }
  }

  lemma GrownIs(f: Fn, f': Fn, l: Loop, k: nat, copies: Copies, orig: Origin, o: Loop, x: nat)
    requires IsUnrolling(f, f', l, k, copies, orig)
    ensures x in Grown(o, orig).blocks <==> x < |f'| && orig[x].0 in o.blocks
    ensures x < |f| ==> x < |f'| && orig[x] == (x, 0)
  {
  }

  /** A loop of first copies lies in the loops it lay in. */
  lemma StaysInside(f: Fn, f': Fn, l: Loop, k: nat, copies: Copies, orig: Origin, d: Loop, o: Loop)
    requires IsUnrolling(f, f', l, k, copies, orig) && InsideOrApart(d, o) && forall b :: b in d.blocks ==> b < |f|
    ensures InsideOrApart(d, Grown(o, orig))
  {
    forall x | x in d.blocks ensures x in Grown(o, orig).blocks <==> x in o.blocks { GrownIs(f, f', l, k, copies, orig, o, x); }
  }

  lemma GrownInside(f: Fn, f': Fn, l: Loop, k: nat, copies: Copies, orig: Origin, o: Loop)
    requires IsUnrolling(f, f', l, k, copies, orig) && InsideOrApart(l, o) && o.header < |f|
    ensures InsideOrApart(Grown(l, orig), Grown(o, orig))
  {
    GrownIs(f, f', l, k, copies, orig, l, o.header);
    forall x: nat ensures x in Grown(l, orig).blocks ==> (x in Grown(o, orig).blocks <==> orig[x].0 in o.blocks) {
      GrownIs(f, f', l, k, copies, orig, l, x);
      GrownIs(f, f', l, k, copies, orig, o, x);
    }
  }

  lemma FirstCopyJumps(f: Fn, f': Fn, l: Loop, k: nat, copies: Copies, orig: Origin, u: nat, v: nat)
    requires IsUnrolling(f, f', l, k, copies, orig) && Edge(f, u, v) && (u in l.blocks ==> v != l.header)
    ensures Edge(f', u, v) && v < |f|
  {
    assert orig[u] == (u, 0);
    var i :| 0 <= i < |f[u]| && f[u][i] == To(v);
    if u in l.blocks {
      assert f'[u][i] == Redirect(copies, l.header, 0, To(v));
      assert v in l.blocks ==> copies[v][0] == v && |copies[v]| > 0;
      assert v !in l.blocks ==> v !in copies;
    }
  }

  /** An exit block of a loop that was unrolled before is still one, unless it is the
      header of the loop that is unrolled now, whose first copy is left by the jump. */
  lemma ExitKept(f: Fn, f': Fn, l: Loop, k: nat, copies: Copies, orig: Origin, d: Loop, v: nat)
    requires IsUnrolling(f, f', l, k, copies, orig) && Entered(f, d) && InsideOrApart(d, l) && Leaves(f, d, v)
    ensures Leaves(f', d, v) || (v == l.header && d.header in Grown(l, orig).blocks)
  {
    var u :| u in d.blocks && Edge(f, u, v);
    if u in l.blocks && v == l.header {
      GrownIs(f, f', l, k, copies, orig, l, d.header);
    } else {
      FirstCopyJumps(f, f', l, k, copies, orig, u, v);
    }
  }

  lemma NewExit(f: Fn, f': Fn, l: Loop, k: nat, copies: Copies, orig: Origin, v: nat)
    requires IsUnrolling(f, f', l, k, copies, orig) && (forall b :: b in l.blocks ==> b < |f|) && Leaves(f, l, v)
    ensures Leaves(f', Grown(l, orig), v)
  {
    var u :| u in l.blocks && Edge(f, u, v);
    FirstCopyJumps(f, f', l, k, copies, orig, u, v);
    GrownIs(f, f', l, k, copies, orig, l, u);
    GrownIs(f, f', l, k, copies, orig, l, v);
  }

  lemma HeadedKept(done: seq<Loop>, d: Loop, q: nat, v: nat)
    ensures HeadedBy(done, q, v) ==> HeadedBy(done + [d], q, v)
    ensures v == d.header && q in d.blocks ==> HeadedBy(done + [d], q, v)
  {
    var all := done + [d];
    assert all[|done|] == d;
    if j :| 0 <= j < |done| && done[j].header == v && q in done[j].blocks { assert all[j] == done[j]; }
  }

  /** The unrolled loop with all its copies is entered at its header. */
  lemma GrownEntered(f: Fn, f': Fn, ls: seq<Loop>, rank: seq<nat>, k: nat, copies: Copies, orig: Origin)
    requires ls != [] && Nest(f, ls, rank) && IsUnrolling(f, f', ls[0], k, copies, orig) && 0 !in ls[0].blocks && |f| > 0
    ensures Entered(f', Grown(ls[0], orig))
  {
    R.UnrolledNatural(f, f', ls, rank, k, copies, orig);
    GrownIs(f, f', ls[0], k, copies, orig, ls[0], 0);
  }

  lemma ListGrows(f: Fn, f': Fn, ls: seq<Loop>, rank: seq<nat>, done: seq<Loop>, k: nat, copies: Copies, orig: Origin, i: nat, n: nat)
    requires ls != [] && Nest(f, ls, rank) && IsUnrolling(f, f', ls[0], k, copies, orig) && i <= |done| && n < |ls| - 1
    requires forall i :: 0 <= i < |done| ==> Entered(f, done[i])
    requires forall i, n :: 0 <= i < |done| && 0 <= n < |ls| ==> InsideOrApart(done[i], ls[n])
    ensures InsideOrApart((done + [Grown(ls[0], orig)])[i], GrownAll(ls[1..], orig)[n])
  {
    var l := ls[0];
    assert GrownAll(ls[1..], orig)[n] == Grown(ls[n + 1], orig);
    if i < |done| {
      assert InsideOrApart(done[i], ls[n + 1]);
      StaysInside(f, f', l, k, copies, orig, done[i], ls[n + 1]);
    } else {
      assert InsideOrApart(ls[0], ls[n + 1]) && Natural(f, rank, ls[n + 1]);
      GrownInside(f, f', l, k, copies, orig, ls[n + 1]);
    }
  }

  /** Unrolling the next loop and recording its exit blocks keeps all this. */
  lemma ExitStep(f: Fn, f': Fn, ls: seq<Loop>, rank: seq<nat>, done: seq<Loop>, exits: seq<set<nat>>, k: nat, copies: Copies, orig: Origin)
    requires ls != [] && Nest(f, ls, rank) && IsUnrolling(f, f', ls[0], k, copies, orig) && 0 !in ls[0].blocks && |f| > 0
    requires ExitState(f, ls, done, exits)
    ensures ExitState(f', GrownAll(ls[1..], orig), done + [Grown(ls[0], orig)], exits + [ExitSet(f, ls[0])])
  {
    var l := ls[0];
    var all, more := done + [Grown(l, orig)], exits + [ExitSet(f, l)];
    GrownEntered(f, f', ls, rank, k, copies, orig);
    assert Natural(f, rank, l);
    forall i | 0 <= i < |done|
      ensures Entered(f', done[i]) && InsideOrApart(done[i], Grown(l, orig))
    {
      assert InsideOrApart(done[i], ls[0]);
      EnteredKept(f, f', l, k, copies, orig, done[i]);
      StaysInside(f, f', l, k, copies, orig, done[i], l);
    }
    forall i, n | 0 <= i < |all| && 0 <= n < |GrownAll(ls[1..], orig)|
      ensures InsideOrApart(all[i], GrownAll(ls[1..], orig)[n])
    {
      ListGrows(f, f', ls, rank, done, k, copies, orig, i, n);
    }
    forall i, v: nat | 0 <= i < |all| && v in more[i]
      ensures Leaves(f', all[i], v) || HeadedBy(all, all[i].header, v)
    {
      if i < |done| {
        assert v in exits[i] && InsideOrApart(done[i], ls[0]);
        HeadedKept(done, Grown(l, orig), done[i].header, v);
        if Leaves(f, done[i], v) { ExitKept(f, f', l, k, copies, orig, done[i], v); }
      } else {
        NewExit(f, f', l, k, copies, orig, v);
      }
    }
  }

  // ---------------------------------------------------------------------
  // The edges that are sorted
  // ---------------------------------------------------------------------

  /** What is recorded at the headers. */
  ghost predicate Recorded(f: Fn, done: seq<Loop>, exits: seq<set<nat>>, e: seq<seq<nat>>)
    requires |exits| == |done|
  {
    |e| == |f| && forall q: nat, v: nat :: q < |f| ==> (v in e[q] <==> exists i :: 0 <= i < |done| && done[i].header == q && v in exits[i])
  }

  lemma PairIs(done: seq<Loop>, i: nat, j: nat)
    requires i < |done| && j < |done| && forall a, b :: 0 <= a < b < |done| ==> InsideOrApart(done[a], done[b])
    ensures i < j ==> InsideOrApart(done[i], done[j])
    ensures j < i ==> InsideOrApart(done[j], done[i])
  {
  }

  /** An exit edge into a loop that was unrolled starts inside it or leads to its header. */
  lemma ExitEnters(f: Fn, ls: seq<Loop>, done: seq<Loop>, exits: seq<set<nat>>, i: nat, j: nat, v: nat)
    requires ExitState(f, ls, done, exits) && i < |done| && j < |done| && v in exits[i] && v in done[j].blocks && v != done[j].header
    ensures done[i].header in done[j].blocks
  {
    assert Entered(f, done[i]) && Entered(f, done[j]);
    if Leaves(f, done[i], v) {
      var u :| u in done[i].blocks && Edge(f, u, v);
      assert u in done[j].blocks && i != j;
      PairIs(done, i, j);
    } else {
      var m :| 0 <= m < |done| && done[m].header == v && done[i].header in done[m].blocks;
      assert Entered(f, done[m]) && m != j;
      PairIs(done, m, j);
    }
  }

  lemma StillEntered(f: Fn, ls: seq<Loop>, done: seq<Loop>, exits: seq<set<nat>>, e: seq<seq<nat>>, j: nat)
    requires ExitState(f, ls, done, exits) && Recorded(f, done, exits, e) && j < |done|
    ensures E.EntersAt(E.WithExits(O.CfgOf(f), e), done[j].header, done[j].blocks)
  {
    var h := E.WithExits(O.CfgOf(f), e);
    assert Entered(f, done[j]);
    forall u: nat, v: nat | G.Edge(h, u, v) && v in done[j].blocks && v != done[j].header
      ensures u in done[j].blocks
    {
      E.WithExitsEdge(O.CfgOf(f), e, u, v);
      O.CfgEdge(f, u, v);
      if !Edge(f, u, v) {
        var i :| 0 <= i < |done| && done[i].header == u && v in exits[i];
        ExitEnters(f, ls, done, exits, i, j, v);
      }
    }
  }

  /** So the edges are those of exits, or lead back to the header of an outer loop. */
  lemma ExitsHold(f: Fn, ls: seq<Loop>, done: seq<Loop>, exits: seq<set<nat>>, e: seq<seq<nat>>)
    requires ExitState(f, ls, done, exits) && Recorded(f, done, exits, e)
    ensures E.ExitsOk(O.CfgOf(f), e)
  {
    var g := O.CfgOf(f);
    var h := E.WithExits(g, e);
    forall q: nat, x: nat | q < |g| && x < |g| && x in e[q]
      ensures E.ExitEdge(g, h, q, x) || E.BackEdge(h, q, x)
    {
      var i :| 0 <= i < |done| && done[i].header == q && x in exits[i];
      if Leaves(f, done[i], x) {
        StillEntered(f, ls, done, exits, e, i);
        var u :| u in done[i].blocks && Edge(f, u, x);
        O.CfgEdge(f, u, x);
        assert E.JumpsOut(g, done[i].blocks, x);
      } else {
        var j :| 0 <= j < |done| && done[j].header == x && q in done[j].blocks;
        StillEntered(f, ls, done, exits, e, j);
      }
    }
  }

  // ---------------------------------------------------------------------
  // Whole runs
  // ---------------------------------------------------------------------

  /** The state of a run with the list of the function's blocks: the loops that are left
      are a nest of natural loops, and the list is in order. */
  ghost predicate RunState(f: Fn, ls: seq<Loop>, rank: seq<nat>, done: seq<Loop>, exits: seq<set<nat>>, order: seq<nat>) {
    && Nest(f, ls, rank) && ExitState(f, ls, done, exits) && O.Listed(f, order)
    && forall n :: 0 <= n < |ls| ==> O.Natural(f, ls[n])
  }

  lemma RunStarts(f: Fn, ls: seq<Loop>, rank: seq<nat>, order: seq<nat>)
    requires Nest(f, ls, rank) && O.Listed(f, order) && forall n :: 0 <= n < |ls| ==> O.Natural(f, ls[n])
    ensures RunState(f, ls, rank, [], [], order)
  {
  }

  /** A loop that is left still has a back edge, and is entered at its header. */
  lemma NaturalStays(f: Fn, f': Fn, ls: seq<Loop>, rank: seq<nat>, k: nat, copies: Copies, orig: Origin, n: nat)
    requires ls != [] && Nest(f, ls, rank) && IsUnrolling(f, f', ls[0], k, copies, orig) && n < |ls| - 1
    requires O.Natural(f, ls[n + 1]) && |f| > 0
    ensures O.Natural(f', GrownAll(ls[1..], orig)[n])
  {
    var l, o := ls[0], ls[n + 1];
    NestShrinks(f, f', ls, rank, k, copies, orig);
    assert GrownAll(ls[1..], orig)[n] == Grown(o, orig) && InsideOrApart(l, o);
    assert Natural(f', NewRank(l, k, rank, orig), Grown(o, orig));
    var u: nat :| u in o.blocks && Edge(f, u, o.header);
    FirstCopyJumps(f, f', l, k, copies, orig, u, o.header);
    GrownIs(f, f', l, k, copies, orig, o, u);
    GrownIs(f, f', l, k, copies, orig, o, 0);
  }

  /** After every step of a run the function is in order again: clones were appended,
      outer loops may still be cyclic, and sorting follows the exit edges recorded so far. */
  method SortAfterStep(f: Fn, f': Fn, ls: seq<Loop>, ghost rank: seq<nat>, ghost done: seq<Loop>, ghost exits: seq<set<nat>>, k: nat,
                       ghost copies: Copies, ghost orig: Origin, order: seq<nat>, e: seq<seq<nat>>) returns (order': seq<nat>)
    requires ls != [] && RunState(f, ls, rank, done, exits, order) && IsUnrolling(f, f', ls[0], k, copies, orig)
    requires Recorded(f', done + [Grown(ls[0], orig)], exits + [ExitSet(f, ls[0])], e)
    ensures RunState(f', GrownAll(ls[1..], orig), NewRank(ls[0], k, rank, orig),
                     done + [Grown(ls[0], orig)], exits + [ExitSet(f, ls[0])], order')
  {
    NestShrinks(f, f', ls, rank, k, copies, orig);
    ExitStep(f, f', ls, rank, done, exits, k, copies, orig);
    ExitsHold(f', GrownAll(ls[1..], orig), done + [Grown(ls[0], orig)], exits + [ExitSet(f, ls[0])], e);
    order' := O.SortUnrolled(f, f', ls[0], k, copies, orig, order, e);
    forall n | 0 <= n < |ls| - 1 ensures O.Natural(f', GrownAll(ls[1..], orig)[n]) {
      NaturalStays(f, f', ls, rank, k, copies, orig, n);
    }
  }
}
