/** What holds of the block lists after every loop of a nest that was unrolled. */
module UnrollRuns {
  import opened Unroll
  import opened BodyOrder

  /** The blocks of an unrolled loop are entered at its header alone, which comes first. */
  lemma UnrolledNatural(f: Fn, f': Fn, ls: seq<Loop>, rank: seq<nat>, k: nat, copies: Copies, orig: Origin)
    requires ls != [] && Nest(f, ls, rank) && IsUnrolling(f, f', ls[0], k, copies, orig)
    ensures Natural(f', NewRank(ls[0], k, rank, orig), Grown(ls[0], orig))
  {
    var l := ls[0];
    var r := NewRank(l, k, rank, orig);
    assert Natural(f, rank, l) && orig[l.header] == (l.header, 0);
    forall x | x in Grown(l, orig).blocks && x != l.header
      ensures r[l.header] < r[x]
    {
      HeaderLowest(f, f', l, rank, k, copies, orig, x);
    }
    forall x: nat, y: nat | Edge(f', x, y) && y in Grown(l, orig).blocks && y != l.header
      ensures x in Grown(l, orig).blocks
    {
      EntersAtHeader(f, f', l, rank, k, copies, orig, x, y);
    }
  }

  lemma HeaderLowest(f: Fn, f': Fn, l: Loop, rank: seq<nat>, k: nat, copies: Copies, orig: Origin, x: nat)
    requires |rank| == |f| && Natural(f, rank, l) && IsUnrolling(f, f', l, k, copies, orig)
    requires x < |orig| && orig[x].0 in l.blocks && x != l.header
    ensures NewRank(l, k, rank, orig)[l.header] < NewRank(l, k, rank, orig)[x]
  {
    assert orig[l.header] == (l.header, 0);
    PlaceOf(f, f', l, k, copies, orig, x);
    assert copies[l.header][0] == l.header;
    RankIs(l, k, rank, orig, x);
    RankIs(l, k, rank, orig, l.header);
    LayerOrder(1, 1 + orig[x].1, Top(rank), rank[l.header], rank[orig[x].0]);
  }

  lemma RankIs(l: Loop, k: nat, rank: seq<nat>, orig: Origin, x: nat)
    requires l.header < |rank| && (forall y :: 0 <= y < |orig| ==> orig[y].0 < |rank|) && x < |orig| && orig[x].0 in l.blocks
    ensures NewRank(l, k, rank, orig)[x] == Weigh(1 + orig[x].1, Top(rank), rank[orig[x].0])
  {
  }

  lemma EntersAtHeader(f: Fn, f': Fn, l: Loop, rank: seq<nat>, k: nat, copies: Copies, orig: Origin, x: nat, y: nat)
    requires |rank| == |f| && Natural(f, rank, l) && IsUnrolling(f, f', l, k, copies, orig)
    requires x < |f'| && Edge(f', x, y) && y < |orig| && orig[y].0 in l.blocks && y != l.header
    ensures orig[x].0 in l.blocks
  {
    EdgeProjects(f, f', l, k, copies, orig, x, y);
    PlaceOf(f, f', l, k, copies, orig, y);
    assert l.header in copies && copies[l.header][0] == l.header;
  }

  /** The list of an unrolled loop is a region of the new function. */
  lemma NewRegion(f: Fn, f': Fn, ls: seq<Loop>, rank: seq<nat>, bbs: seq<nat>, k: nat, copies: Copies, orig: Origin)
    requires ls != [] && Nest(f, ls, rank) && bbs != [] && ls[0] == LoopOf(bbs)
    requires IsUnrolling(f, f', ls[0], k, copies, orig) && Distinct(bbs) && BodyOrder.Ordered(f, bbs, {bbs[0]})
    ensures RegionOk(f', NewRank(ls[0], k, rank, orig), UnrolledList(bbs, copies, k))
    ensures LoopOf(UnrolledList(bbs, copies, k)) == Grown(ls[0], orig)
  {
    UnrolledNatural(f, f', ls, rank, k, copies, orig);
    UnrolledOrdered(f, f', bbs, k, copies, orig);
    var s := UnrolledList(bbs, copies, k);
    forall x: nat ensures x in LoopOf(s).blocks <==> x in Grown(ls[0], orig).blocks { InBlocks(s, x); InBlocks(bbs, if x < |orig| then orig[x].0 else 0); }
    assert LoopOf(s).blocks == Grown(ls[0], orig).blocks;
  }

  /** A region apart from the loop stays one. */
  lemma RegionKept(f: Fn, f': Fn, ls: seq<Loop>, rank: seq<nat>, k: nat, copies: Copies, orig: Origin, s: seq<nat>)
    requires ls != [] && Nest(f, ls, rank) && IsUnrolling(f, f', ls[0], k, copies, orig)
    requires RegionOk(f, rank, s) && forall x :: x in s ==> x !in ls[0].blocks
    ensures RegionOk(f', NewRank(ls[0], k, rank, orig), s)
  {
    var l, o := ls[0], LoopOf(s);
    assert Natural(f, rank, l) && o.header in s && o.blocks !! l.blocks;
    NaturalKept(f, f', l, o, ls, rank, k, copies, orig);
    forall x: nat ensures x in Grown(o, orig).blocks <==> x in o.blocks { NotGrown(f, f', l, k, copies, orig, o, x); }
    assert Grown(o, orig) == o;
    forall p, q | 0 <= p < |s| && 0 <= q < |s| && s[q] !in {} && Edge(f', s[p], s[q])
      ensures p < q
    {
      assert s[p] in o.blocks && s[q] in o.blocks;
      EdgeProjects(f, f', l, k, copies, orig, s[p], s[q]);
      assert orig[s[p]] == (s[p], 0) && orig[s[q]] == (s[q], 0);
    }
  }

  lemma NotGrown(f: Fn, f': Fn, l: Loop, k: nat, copies: Copies, orig: Origin, o: Loop, x: nat)
    requires IsUnrolling(f, f', l, k, copies, orig) && o.blocks !! l.blocks && forall b :: b in o.blocks ==> b < |f|
    ensures x in Grown(o, orig).blocks <==> x in o.blocks
  {
    if x < |orig| { OnlyClonesAreNew(|f|, l, k, copies, orig, x); }
  }

  // ---------------------------------------------------------------------
  // Every step of a run
  // ---------------------------------------------------------------------

  /** A region is apart from a loop that is still to be unrolled, or inside it without
      its header. */
  ghost predicate Fits(s: seq<nat>, l: Loop) {
    (forall x :: x in s ==> x !in l.blocks) || (forall x :: x in s ==> x in l.blocks && x != l.header)
  }

  ghost predicate FitsAll(s: seq<nat>, ls: seq<Loop>) {
    forall n :: 0 <= n < |ls| ==> Fits(s, ls[n])
  }

  /** The state of a run: the loops that are left are a nest, and the lists of those
      that were unrolled are regions, apart from each other. */
  ghost predicate RunOk(f: Fn, ls: seq<Loop>, rank: seq<nat>, regions: seq<seq<nat>>) {
    && Nest(f, ls, rank)
    && (forall i :: 0 <= i < |regions| ==> RegionOk(f, rank, regions[i]))
    && (forall i, j :: 0 <= i < j < |regions| ==> Apart(regions[i], regions[j]))
    && (forall i :: 0 <= i < |regions| ==> FitsAll(regions[i], ls))
  }

  /** The members of the next loop: regions, and blocks of their own. */
  ghost predicate Parts(l: Loop, regions: seq<seq<nat>>, lists: seq<seq<nat>>) {
    && (forall i :: 0 <= i < |lists| ==> lists[i] in regions || |lists[i]| == 1)
    && (forall i :: 0 <= i < |lists| ==> forall x :: x in lists[i] ==> x in l.blocks && x != l.header)
    && (forall i, j :: 0 <= i < j < |lists| ==> Apart(lists[i], lists[j]))
    && (forall x :: x in l.blocks && x != l.header ==> InSome(lists, x))
  }

  /** Inside the next loop of a nest, jumps that do not lead to its header go up in rank. */
  lemma BodyUp(f: Fn, ls: seq<Loop>, rank: seq<nat>, u: nat, v: nat)
    requires ls != [] && Nest(f, ls, rank) && u < |f| && v < |f| && Edge(f, u, v)
    requires u in ls[0].blocks && v in ls[0].blocks && v != ls[0].header
    ensures rank[u] < rank[v]
  {
    forall i | 0 < i < |ls| ensures ls[i].header !in ls[0].blocks { assert InsideOrApart(ls[0], ls[i]); }
  }

  /** A block of its own is a region. */
  lemma SingleRegion(f: Fn, ls: seq<Loop>, rank: seq<nat>, x: nat)
    requires ls != [] && Nest(f, ls, rank) && x in ls[0].blocks && x != ls[0].header
    ensures RegionOk(f, rank, [x])
  {
    assert Natural(f, rank, ls[0]);
    assert LoopOf([x]).blocks == {x};
    if Edge(f, x, x) { BodyUp(f, ls, rank, x, x); }
  }

  /** So the list of the next loop can be made, with all jumps that do not lead to its
      header going forward. */
  lemma PartsOk(f: Fn, ls: seq<Loop>, rank: seq<nat>, regions: seq<seq<nat>>, lists: seq<seq<nat>>)
    requires RunOk(f, ls, rank, regions) && ls != [] && Parts(ls[0], regions, lists)
    ensures BodyOk(f, rank, ls[0].header, lists)
  {
    assert Natural(f, rank, ls[0]);
    forall i | 0 <= i < |lists|
      ensures RegionOk(f, rank, lists[i]) && ls[0].header !in lists[i]
    {
      if lists[i] in regions {
        var n :| 0 <= n < |regions| && regions[n] == lists[i];
      } else {
        var x := lists[i][0];
        assert lists[i] == [x] && x in lists[i];
        SingleRegion(f, ls, rank, x);
      }
    }
    forall i, j, u: nat, v: nat | Jumps(f, lists, i, j, u, v)
      ensures rank[u] < rank[v]
    {
      BodyUp(f, ls, rank, u, v);
    }
  }

  /** The regions outside the loop. */
  ghost function Outside(regions: seq<seq<nat>>, l: Loop): seq<seq<nat>> {
    if regions == [] then []
    else
      var n := |regions| - 1;
      Outside(regions[..n], l) + (if forall x :: x in regions[n] ==> x !in l.blocks then [regions[n]] else [])
  }

  lemma {:induction false} OutsideIs(regions: seq<seq<nat>>, l: Loop)
    requires forall i, j :: 0 <= i < j < |regions| ==> Apart(regions[i], regions[j])
    ensures forall s :: s in Outside(regions, l) ==> s in regions && forall x :: x in s ==> x !in l.blocks
    ensures forall i, j :: 0 <= i < j < |Outside(regions, l)| ==> Apart(Outside(regions, l)[i], Outside(regions, l)[j])
  {
    if regions != [] {
      var n := |regions| - 1;
      OutsideIs(regions[..n], l);
      var rest := Outside(regions[..n], l);
      forall i | 0 <= i < |rest|
        ensures Apart(rest[i], regions[n])
      {
        assert rest[i] in regions[..n];
        var k :| 0 <= k < n && regions[..n][k] == rest[i];
        assert Apart(regions[k], regions[n]);
      }
    }
  }

  /** A region outside the loop is still one, apart from the new one. */
  lemma OutsideKept(f: Fn, f': Fn, ls: seq<Loop>, rank: seq<nat>, regions: seq<seq<nat>>, k: nat, copies: Copies, orig: Origin,
                    s: seq<nat>, t: seq<nat>)
    requires RunOk(f, ls, rank, regions) && ls != [] && IsUnrolling(f, f', ls[0], k, copies, orig)
    requires t in regions && (forall x :: x in t ==> x !in ls[0].blocks) && s != [] && LoopOf(s) == Grown(ls[0], orig)
    ensures RegionOk(f', NewRank(ls[0], k, rank, orig), t) && Apart(t, s) && FitsAll(t, GrownAll(ls[1..], orig))
  {
    var m :| 0 <= m < |regions| && regions[m] == t;
    RegionKept(f, f', ls, rank, k, copies, orig, t);
    OutsideFits(f, f', ls, rank, k, copies, orig, t);
    OutsideApart(f, f', ls, rank, k, copies, orig, t, s);
  }

  /** Unrolling the next loop of a run with the list of its blocks keeps all this. */
  lemma StepKeeps(f: Fn, f': Fn, ls: seq<Loop>, rank: seq<nat>, regions: seq<seq<nat>>, bbs: seq<nat>, k: nat, copies: Copies, orig: Origin)
    requires RunOk(f, ls, rank, regions) && ls != [] && bbs != [] && ls[0] == LoopOf(bbs) && Distinct(bbs)
    requires BodyOrder.Ordered(f, bbs, {bbs[0]}) && IsUnrolling(f, f', ls[0], k, copies, orig)
    ensures RunOk(f', GrownAll(ls[1..], orig), NewRank(ls[0], k, rank, orig), Outside(regions, ls[0]) + [UnrolledList(bbs, copies, k)])
  {
    var s := UnrolledList(bbs, copies, k);
    var rest := Outside(regions, ls[0]);
    NestShrinks(f, f', ls, rank, k, copies, orig);
    NewRegion(f, f', ls, rank, bbs, k, copies, orig);
    OutsideIs(regions, ls[0]);
    forall i | 0 <= i < |rest|
      ensures RegionOk(f', NewRank(ls[0], k, rank, orig), rest[i]) && Apart(rest[i], s) && FitsAll(rest[i], GrownAll(ls[1..], orig))
    {
      assert rest[i] in rest;
      OutsideKept(f, f', ls, rank, regions, k, copies, orig, s, rest[i]);
    }
    forall n | 0 <= n < |GrownAll(ls[1..], orig)|
      ensures Fits(s, GrownAll(ls[1..], orig)[n])
    {
      UnrolledFits(f, f', ls, rank, k, copies, orig, s, n);
    }
    Together(f', GrownAll(ls[1..], orig), NewRank(ls[0], k, rank, orig), rest, s);
  }

  lemma Together(f: Fn, ls: seq<Loop>, rank: seq<nat>, rest: seq<seq<nat>>, s: seq<nat>)
    requires Nest(f, ls, rank) && RegionOk(f, rank, s) && FitsAll(s, ls)
    requires forall i :: 0 <= i < |rest| ==> RegionOk(f, rank, rest[i]) && Apart(rest[i], s) && FitsAll(rest[i], ls)
    requires forall i, j :: 0 <= i < j < |rest| ==> Apart(rest[i], rest[j])
    ensures RunOk(f, ls, rank, rest + [s])
  {
  }

  lemma OutsideApart(f: Fn, f': Fn, ls: seq<Loop>, rank: seq<nat>, k: nat, copies: Copies, orig: Origin, t: seq<nat>, s: seq<nat>)
    requires ls != [] && Nest(f, ls, rank) && IsUnrolling(f, f', ls[0], k, copies, orig)
    requires RegionOk(f, rank, t) && (forall x :: x in t ==> x !in ls[0].blocks)
    requires s != [] && LoopOf(s) == Grown(ls[0], orig)
    ensures Apart(t, s)
  {
    forall x | x in t
      ensures x !in s
    {
      assert Natural(f, rank, LoopOf(t)) && x in LoopOf(t).blocks;
      assert orig[x] == (x, 0);
      InBlocks(s, x);
    }
  }

  lemma OutsideFits(f: Fn, f': Fn, ls: seq<Loop>, rank: seq<nat>, k: nat, copies: Copies, orig: Origin, t: seq<nat>)
    requires ls != [] && Nest(f, ls, rank) && IsUnrolling(f, f', ls[0], k, copies, orig) && RegionOk(f, rank, t)
    requires FitsAll(t, ls)
    ensures FitsAll(t, GrownAll(ls[1..], orig))
  {
    forall x | x in t
      ensures x < |f| && orig[x] == (x, 0)
    {
      assert Natural(f, rank, LoopOf(t)) && x in LoopOf(t).blocks;
    }
    forall n | 0 <= n < |GrownAll(ls[1..], orig)|
      ensures Fits(t, GrownAll(ls[1..], orig)[n])
    {
      assert Fits(t, ls[n + 1]) && GrownAll(ls[1..], orig)[n] == Grown(ls[n + 1], orig);
    }
  }

  lemma UnrolledFits(f: Fn, f': Fn, ls: seq<Loop>, rank: seq<nat>, k: nat, copies: Copies, orig: Origin, s: seq<nat>, n: nat)
    requires ls != [] && Nest(f, ls, rank) && IsUnrolling(f, f', ls[0], k, copies, orig) && n < |ls| - 1
    requires s != [] && LoopOf(s) == Grown(ls[0], orig)
    ensures Fits(s, GrownAll(ls[1..], orig)[n])
  {
    var o := ls[n + 1];
    assert InsideOrApart(ls[0], o) && Natural(f, rank, o) && orig[o.header] == (o.header, 0);
    forall x | x in s
      ensures x < |orig| && orig[x].0 in ls[0].blocks && x != o.header
    {
      InBlocks(s, x);
    }
    assert GrownAll(ls[1..], orig)[n] == Grown(o, orig);
  }

  // ---------------------------------------------------------------------
  // Exit blocks
  // ---------------------------------------------------------------------

  /** A jump of the list leaves it for `v`. */
  ghost predicate ExitsTo(f: Fn, s: seq<nat>, v: nat) {
    v !in s && exists u :: u in s && Edge(f, u, v)
  }

  /** The exit blocks that were recorded before unrolling are those of all copies. */
  lemma ExitsKept(f: Fn, f': Fn, bbs: seq<nat>, k: nat, copies: Copies, orig: Origin, v: nat)
    requires bbs != [] && IsUnrolling(f, f', LoopOf(bbs), k, copies, orig) && Distinct(bbs)
    requires BodyOrder.Ordered(f, bbs, {bbs[0]})
    ensures ExitsTo(f, bbs, v) <==> ExitsTo(f', UnrolledList(bbs, copies, k), v)
  {
    var s := UnrolledList(bbs, copies, k);
    UnrolledOrdered(f, f', bbs, k, copies, orig);
    if ExitsTo(f, bbs, v) {
      var u :| u in bbs && Edge(f, u, v);
      ExitOfCopy(f, f', bbs, k, copies, orig, u, v);
    }
    if ExitsTo(f', s, v) {
      var u :| u in s && Edge(f', u, v);
      EdgeProjects(f, f', LoopOf(bbs), k, copies, orig, u, v);
      InBlocks(bbs, orig[v].0);
      PlaceOf(f, f', LoopOf(bbs), k, copies, orig, v);
    }
  }

  /** The first copy of a block keeps its jumps out of the loop. */
  lemma ExitOfCopy(f: Fn, f': Fn, bbs: seq<nat>, k: nat, copies: Copies, orig: Origin, u: nat, v: nat)
    requires bbs != [] && IsUnrolling(f, f', LoopOf(bbs), k, copies, orig) && u in bbs && v !in bbs && Edge(f, u, v)
    ensures Edge(f', u, v) && u < |orig| && orig[u] == (u, 0) && v < |orig| && orig[v] == (v, 0)
  {
    InBlocks(bbs, u);
    InBlocks(bbs, v);
    assert orig[u] == (u, 0);
    var i :| 0 <= i < |f[u]| && f[u][i] == To(v);
    assert f'[u][i] == Redirect(copies, bbs[0], 0, To(v));
  }

  /** A region apart from the loop keeps its exit blocks. */
  lemma OtherExitsKept(f: Fn, f': Fn, l: Loop, k: nat, copies: Copies, orig: Origin, s: seq<nat>, v: nat)
    requires IsUnrolling(f, f', l, k, copies, orig) && forall x :: x in s ==> x < |f| && x !in l.blocks
    ensures ExitsTo(f, s, v) <==> ExitsTo(f', s, v)
  {
    forall u | u in s ensures f'[u] == f[u] { assert orig[u] == (u, 0); }
  }
}
