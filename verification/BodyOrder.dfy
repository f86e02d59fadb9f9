/** The list of blocks `Function::unroll` makes for a loop: its members in topological
    order, with the lists of inner loops in place of their headers. */
module BodyOrder {
  import opened Unroll
  import G = Graph
  import T = TopSort

  /** A jump inside the list goes forward, unless it leads to a block of `free`. */
  ghost predicate Ordered(f: Fn, s: seq<nat>, free: set<nat>) {
    forall p, q :: 0 <= p < |s| && 0 <= q < |s| && s[q] !in free && Edge(f, s[p], s[q]) ==> p < q
  }

  lemma OrderedConcat(f: Fn, s: seq<nat>, t: seq<nat>, free: set<nat>)
    requires Ordered(f, s, free) && Ordered(f, t, free)
    requires forall u, v :: u in t && v in s && v !in free ==> !Edge(f, u, v)
    ensures Ordered(f, s + t, free)
  {
    var all := s + t;
    forall p, q | 0 <= p < |all| && 0 <= q < |all| && all[q] !in free && Edge(f, all[p], all[q])
      ensures p < q
    {
      assert p >= |s| ==> all[p] == t[p - |s|] && all[p] in t;
      assert q >= |s| ==> all[q] == t[q - |s|];
      assert q < |s| ==> all[q] == s[q] && all[q] in s;
    }
  }

  /** The blocks of a loop that was unrolled, or a single block: entered at the first
      one, which has the lowest rank, with all jumps inside going forward. */
  ghost predicate RegionOk(f: Fn, rank: seq<nat>, s: seq<nat>) {
    |rank| == |f| && s != [] && Distinct(s) && Natural(f, rank, LoopOf(s)) && Ordered(f, s, {})
  }

  ghost predicate Apart(s: seq<nat>, t: seq<nat>) {
    forall x :: x in s ==> x !in t
  }

  /** The lists of the members of loop `header`, and what is known of their jumps:
      apart from those to the header, they go up in rank. */
  ghost predicate BodyOk(f: Fn, rank: seq<nat>, header: nat, lists: seq<seq<nat>>) {
    && header < |f|
    && (forall i :: 0 <= i < |lists| ==> RegionOk(f, rank, lists[i]) && header !in lists[i])
    && (forall i, j :: 0 <= i < j < |lists| ==> Apart(lists[i], lists[j]))
    && (forall i, j, u: nat, v: nat {:trigger Jumps(f, lists, i, j, u, v)} :: Jumps(f, lists, i, j, u, v) ==> rank[u] < rank[v])
  }

  ghost predicate Jumps(f: Fn, lists: seq<seq<nat>>, i: int, j: int, u: nat, v: nat) {
    0 <= i < |lists| && 0 <= j < |lists| && u in lists[i] && v in lists[j] && u < |f| && v < |f| && Edge(f, u, v)
  }

  // ---------------------------------------------------------------------
  // The graph of the members
  // ---------------------------------------------------------------------

  /** Member `i` jumps to member `j`: itself, or if it is an inner loop, over one of
      the blocks it exits to. */
  predicate Leads(f: Fn, ms: seq<nat>, exits: map<nat, set<nat>>, i: nat, j: nat)
    requires i < |ms| && j < |ms|
  {
    Edge(f, ms[i], ms[j]) || (ms[i] in exits && ms[j] in exits[ms[i]])
  }

  function Targets(f: Fn, ms: seq<nat>, exits: map<nat, set<nat>>, i: nat, n: nat): seq<nat>
    requires i < |ms| && n <= |ms|
  {
    if n == 0 then []
    else Targets(f, ms, exits, i, n - 1) + (if Leads(f, ms, exits, i, n - 1) then [n - 1] else [])
  }

  lemma {:induction false} TargetsAre(f: Fn, ms: seq<nat>, exits: map<nat, set<nat>>, i: nat, n: nat, j: nat)
    requires i < |ms| && n <= |ms|
    ensures j in Targets(f, ms, exits, i, n) <==> j < n && Leads(f, ms, exits, i, j)
  {
    if n > 0 {
      TargetsAre(f, ms, exits, i, n - 1, j);
    }
  }

  function MemberGraph(f: Fn, ms: seq<nat>, exits: map<nat, set<nat>>): G.Cfg {
    seq(|ms|, i requires 0 <= i < |ms| => Targets(f, ms, exits, i, |ms|))
  }

  lemma MemberEdge(f: Fn, ms: seq<nat>, exits: map<nat, set<nat>>, i: nat, j: nat)
    requires i < |ms| && j < |ms|
    ensures G.Edge(MemberGraph(f, ms, exits), i, j) <==> Leads(f, ms, exits, i, j)
  {
    TargetsAre(f, ms, exits, i, |ms|, j);
  }

  /** The exit blocks of a member are the targets of its jumps that leave its list. */
  ghost predicate ExitsOk(f: Fn, lists: seq<seq<nat>>, exits: map<nat, set<nat>>) {
    forall i :: 0 <= i < |lists| ==> lists[i] != [] && ExitOk(f, lists[i], exits)
  }

  ghost predicate ExitOk(f: Fn, s: seq<nat>, exits: map<nat, set<nat>>)
    requires s != []
  {
    if s[0] in exits then forall v :: v in exits[s[0]] <==> v !in s && exists u :: u in s && Edge(f, u, v)
    else s == [s[0]]
  }

  function Heads(lists: seq<seq<nat>>): seq<nat>
    requires forall i :: 0 <= i < |lists| ==> lists[i] != []
  {
    seq(|lists|, i requires 0 <= i < |lists| => lists[i][0])
  }

  /** An edge between members stands for a jump from the one list to the head of the other. */
  lemma LeadsIff(f: Fn, rank: seq<nat>, header: nat, lists: seq<seq<nat>>, exits: map<nat, set<nat>>, i: nat, j: nat)
    requires BodyOk(f, rank, header, lists) && ExitsOk(f, lists, exits) && i < |lists| && j < |lists| && i != j
    ensures Leads(f, Heads(lists), exits, i, j) <==> exists u :: u in lists[i] && Edge(f, u, lists[j][0])
  {
    var s, v := lists[i], lists[j][0];
    assert RegionOk(f, rank, s) && ExitOk(f, s, exits);
    assert v in lists[j] && v !in s by { if i < j { assert Apart(lists[i], lists[j]); } else { assert Apart(lists[j], lists[i]); } }
    assert s[0] in s;
  }

  /** A jump from one list into another one leads to its head. */
  lemma EntersHead(f: Fn, rank: seq<nat>, header: nat, lists: seq<seq<nat>>, i: nat, j: nat, u: nat, v: nat)
    requires BodyOk(f, rank, header, lists) && i < |lists| && j < |lists| && i != j
    requires u in lists[i] && v in lists[j] && Edge(f, u, v)
    ensures v == lists[j][0]
  {
    assert RegionOk(f, rank, lists[j]) && Natural(f, rank, LoopOf(lists[j]));
    assert u !in lists[j] by { if i < j { assert Apart(lists[i], lists[j]); } else { assert Apart(lists[j], lists[i]); } }
  }

  /** The rank of the head goes up along edges between members. */
  lemma LeadsUp(f: Fn, rank: seq<nat>, header: nat, lists: seq<seq<nat>>, exits: map<nat, set<nat>>, i: nat, j: nat)
    requires BodyOk(f, rank, header, lists) && ExitsOk(f, lists, exits) && i < |lists| && j < |lists|
    requires Leads(f, Heads(lists), exits, i, j)
    ensures lists[i][0] < |rank| && lists[j][0] < |rank| && rank[lists[i][0]] < rank[lists[j][0]]
  {
    var s, v := lists[i], lists[j][0];
    assert RegionOk(f, rank, s) && RegionOk(f, rank, lists[j]) && ExitOk(f, s, exits);
    assert s[0] in s && v in lists[j];
    if i != j {
      LeadsIff(f, rank, header, lists, exits, i, j);
      var u :| u in s && Edge(f, u, v);
      assert Jumps(f, lists, i, j, u, v);
      assert u in LoopOf(s).blocks && (u != s[0] ==> rank[s[0]] < rank[u]);
    } else {
      assert false;
    }
  }

  lemma {:induction false} WalkUp(f: Fn, rank: seq<nat>, header: nat, lists: seq<seq<nat>>, exits: map<nat, set<nat>>, p: seq<nat>)
    requires BodyOk(f, rank, header, lists) && ExitsOk(f, lists, exits)
    requires G.IsWalk(MemberGraph(f, Heads(lists), exits), p)
    ensures var i, j := p[0], p[|p| - 1];
      i < |lists| && j < |lists| && lists[i][0] < |rank| && lists[j][0] < |rank| && rank[lists[i][0]] <= rank[lists[j][0]]
    decreases |p|
  {
    var n := |p| - 1;
    assert RegionOk(f, rank, lists[p[n]]) && lists[p[n]][0] in lists[p[n]];
    if n > 0 {
      assert G.IsWalk(MemberGraph(f, Heads(lists), exits), p[..n]);
      WalkUp(f, rank, header, lists, exits, p[..n]);
      assert G.Edge(MemberGraph(f, Heads(lists), exits), p[n - 1], p[n]);
      MemberEdge(f, Heads(lists), exits, p[n - 1], p[n]);
      LeadsUp(f, rank, header, lists, exits, p[n - 1], p[n]);
    }
  }

  /** So the sorted members have no edge that goes backwards. */
  lemma SortedUp(f: Fn, rank: seq<nat>, header: nat, lists: seq<seq<nat>>, exits: map<nat, set<nat>>, i: nat, j: nat)
    requires BodyOk(f, rank, header, lists) && ExitsOk(f, lists, exits) && i < |lists| && j < |lists|
    requires Leads(f, Heads(lists), exits, i, j)
    ensures !T.Leads(MemberGraph(f, Heads(lists), exits), j, i)
  {
    LeadsUp(f, rank, header, lists, exits, i, j);
    if T.Leads(MemberGraph(f, Heads(lists), exits), j, i) {
      var p :| G.WalkFromTo(MemberGraph(f, Heads(lists), exits), j, i, p);
      WalkUp(f, rank, header, lists, exits, p);
    }
  }

  // ---------------------------------------------------------------------
  // The list
  // ---------------------------------------------------------------------

  /** The lists in this order, one after the other. */
  function Flat(lists: seq<seq<nat>>, order: seq<nat>): seq<nat>
    requires forall i :: 0 <= i < |order| ==> order[i] < |lists|
  {
    if order == [] then []
    else Flat(lists, order[..|order| - 1]) + lists[order[|order| - 1]]
  }

  lemma {:induction false} FlatHas(lists: seq<seq<nat>>, order: seq<nat>, i: nat, x: nat)
    requires forall i :: 0 <= i < |order| ==> order[i] < |lists|
    requires i < |order| && x in lists[order[i]]
    ensures x in Flat(lists, order)
    decreases |order|
  {
    var n := |order| - 1;
    if i < n {
      assert order[..n][i] == order[i];
      FlatHas(lists, order[..n], i, x);
    }
  }

  lemma {:induction false} FlatFrom(lists: seq<seq<nat>>, order: seq<nat>, x: nat) returns (i: nat)
    requires forall i :: 0 <= i < |order| ==> order[i] < |lists|
    requires x in Flat(lists, order)
    ensures i < |order| && x in lists[order[i]]
    decreases |order|
  {
    var n := |order| - 1;
    i := n;
    if x !in lists[order[n]] {
      i := FlatFrom(lists, order[..n], x);
    }
  }

  lemma FlatIn(lists: seq<seq<nat>>, order: seq<nat>, x: nat)
    requires forall i :: 0 <= i < |order| ==> order[i] < |lists|
    ensures x in Flat(lists, order) <==> exists i :: 0 <= i < |order| && x in lists[order[i]]
  {
    if x in Flat(lists, order) {
      var i := FlatFrom(lists, order, x);
    } else if i :| 0 <= i < |order| && x in lists[order[i]] {
      FlatHas(lists, order, i, x);
    }
  }

  lemma NotBack(f: Fn, rank: seq<nat>, header: nat, lists: seq<seq<nat>>, exits: map<nat, set<nat>>, order: seq<nat>,
                a: nat, b: nat, u: nat, v: nat)
    requires BodyOk(f, rank, header, lists) && ExitsOk(f, lists, exits)
    requires T.Distinct(order, |lists|) && a < b < |order| && v in lists[order[a]] && u in lists[order[b]]
    requires !Leads(f, Heads(lists), exits, order[b], order[a])
    ensures !Edge(f, u, v)
  {
    if Edge(f, u, v) {
      EntersHead(f, rank, header, lists, order[b], order[a], u, v);
      LeadsIff(f, rank, header, lists, exits, order[b], order[a]);
    }
  }

  lemma {:induction false} FlatDistinct(lists: seq<seq<nat>>, order: seq<nat>)
    requires T.Distinct(order, |lists|)
    requires forall i :: 0 <= i < |lists| ==> Distinct(lists[i])
    requires forall i, j :: 0 <= i < j < |lists| ==> Apart(lists[i], lists[j])
    ensures Distinct(Flat(lists, order))
  {
    if order != [] {
      var n := |order| - 1;
      FlatDistinct(lists, order[..n]);
      forall x | x in Flat(lists, order[..n])
        ensures x !in lists[order[n]]
      {
        FlatIn(lists, order[..n], x);
        var i :| 0 <= i < n && x in lists[order[..n][i]];
        var a, b := order[i], order[n];
        if a < b { assert Apart(lists[a], lists[b]); } else { assert Apart(lists[b], lists[a]); }
      }
      DistinctConcat(Flat(lists, order[..n]), lists[order[n]]);
    }
  }

  lemma DistinctConcat(s: seq<nat>, t: seq<nat>)
    requires Distinct(s) && Distinct(t) && Apart(s, t)
    ensures Distinct(s + t)
  {
    var all := s + t;
    forall i, j | 0 <= i < j < |all|
      ensures all[i] != all[j]
    {
      assert i < |s| ==> all[i] == s[i] && all[i] in s;
      assert j < |s| ==> all[j] == s[j];
      assert i >= |s| ==> all[i] == t[i - |s|];
      assert j >= |s| ==> all[j] == t[j - |s|] && all[j] in t;
    }
  }

  lemma {:induction false} FlatOrdered(f: Fn, rank: seq<nat>, header: nat, lists: seq<seq<nat>>, exits: map<nat, set<nat>>,
                                       order: seq<nat>, n: nat)
    requires BodyOk(f, rank, header, lists) && ExitsOk(f, lists, exits) && n <= |order|
    requires T.Distinct(order, |lists|)
    requires forall a, b :: 0 <= a < |order| && 0 <= b < |order| && Leads(f, Heads(lists), exits, order[a], order[b]) ==> a < b
    ensures Ordered(f, Flat(lists, order[..n]), {})
  {
    if n > 0 {
      FlatOrdered(f, rank, header, lists, exits, order, n - 1);
      var s, t := Flat(lists, order[..n - 1]), lists[order[n - 1]];
      assert order[..n][..n - 1] == order[..n - 1];
      assert RegionOk(f, rank, t);
      forall u, v | u in t && v in s
        ensures !Edge(f, u, v)
      {
        FlatIn(lists, order[..n - 1], v);
        var i :| 0 <= i < n - 1 && v in lists[order[..n - 1][i]];
        NotBack(f, rank, header, lists, exits, order, i, n - 1, u, v);
      }
      OrderedConcat(f, s, t, {});
    }
  }

  /** The sorted members do not lead backwards. */
  method SortMembers(f: Fn, header: nat, lists: seq<seq<nat>>, exits: map<nat, set<nat>>, ghost rank: seq<nat>)
    returns (order: seq<nat>)
    requires BodyOk(f, rank, header, lists) && ExitsOk(f, lists, exits)
    ensures T.Permutes(order, |lists|)
    ensures forall a, b :: 0 <= a < |order| && 0 <= b < |order| && Leads(f, Heads(lists), exits, order[a], order[b]) ==> a < b
  {
    order := T.Sort(MemberGraph(f, Heads(lists), exits));
    forall a, b | 0 <= a < |order| && 0 <= b < |order| && Leads(f, Heads(lists), exits, order[a], order[b])
      ensures a < b
    {
      MemberEdge(f, Heads(lists), exits, order[a], order[b]);
      SortedUp(f, rank, header, lists, exits, order[a], order[b]);
      T.ComesBackLeads(MemberGraph(f, Heads(lists), exits), order, b, a);
    }
  }

  /** The list of blocks of a loop: the header, then the members in the order of
      `top_sort`, an inner loop as the list of all its blocks. Every jump inside the
      loop that does not lead to the header goes forward in it. */
  method LoopBlocks(f: Fn, header: nat, lists: seq<seq<nat>>, exits: map<nat, set<nat>>, ghost rank: seq<nat>)
    returns (bbs: seq<nat>)
    requires BodyOk(f, rank, header, lists) && ExitsOk(f, lists, exits)
    ensures bbs != [] && bbs[0] == header && Distinct(bbs) && Ordered(f, bbs, {header})
    ensures forall x: nat :: x in bbs <==> x == header || InSome(lists, x)
  {
    var order := SortMembers(f, header, lists, exits, rank);
    bbs := [header];
    for i := 0 to |order|
      invariant bbs == [header] + Flat(lists, order[..i])
    {
      assert order[..i + 1][..i] == order[..i];
      bbs := bbs + lists[order[i]];
    }
    assert order[..|order|] == order;
    ListOf(f, header, lists, exits, rank, order);
  }

  lemma ListOf(f: Fn, header: nat, lists: seq<seq<nat>>, exits: map<nat, set<nat>>, rank: seq<nat>, order: seq<nat>)
    requires BodyOk(f, rank, header, lists) && ExitsOk(f, lists, exits) && T.Permutes(order, |lists|)
    requires forall a, b :: 0 <= a < |order| && 0 <= b < |order| && Leads(f, Heads(lists), exits, order[a], order[b]) ==> a < b
    ensures var bbs := [header] + Flat(lists, order);
      && Distinct(bbs) && Ordered(f, bbs, {header})
      && forall x: nat :: x in bbs <==> x == header || InSome(lists, x)
  {
    var s := Flat(lists, order);
    assert order[..|order|] == order;
    FlatOrdered(f, rank, header, lists, exits, order, |order|);
    WithHeader(f, header, s);
    forall x: nat ensures x in s <==> InSome(lists, x) { AllListed(lists, order, x); }
    ListDistinct(f, rank, header, lists, order);
  }

  lemma ListDistinct(f: Fn, rank: seq<nat>, header: nat, lists: seq<seq<nat>>, order: seq<nat>)
    requires BodyOk(f, rank, header, lists) && T.Permutes(order, |lists|)
    requires forall x: nat :: x in Flat(lists, order) <==> InSome(lists, x)
    ensures Distinct([header] + Flat(lists, order))
  {
    forall i | 0 <= i < |lists| ensures Distinct(lists[i]) && header !in lists[i] { assert RegionOk(f, rank, lists[i]); }
    FlatDistinct(lists, order);
    DistinctConcat([header], Flat(lists, order));
  }

  predicate InSome(lists: seq<seq<nat>>, x: nat) {
    exists i :: 0 <= i < |lists| && x in lists[i]
  }

  lemma WithHeader(f: Fn, header: nat, s: seq<nat>)
    requires Ordered(f, s, {})
    ensures Ordered(f, [header] + s, {header})
  {
    assert Ordered(f, [header], {header});
    forall p, q | 0 <= p < |s| && 0 <= q < |s| && s[q] !in {header} && Edge(f, s[p], s[q]) ensures p < q { assert s[q] !in {}; }
    OrderedConcat(f, [header], s, {header});
  }

  lemma AllListed(lists: seq<seq<nat>>, order: seq<nat>, x: nat)
    requires T.Permutes(order, |lists|)
    ensures x in Flat(lists, order) <==> InSome(lists, x)
  {
    FlatIn(lists, order, x);
    if i: nat :| i < |lists| && x in lists[i] {
      assert i in order;
      var k :| 0 <= k < |order| && order[k] == i;
      assert x in lists[order[k]];
    }
  }

  // ---------------------------------------------------------------------
  // The list of an unrolled loop
  // ---------------------------------------------------------------------

  /** Copy `j` of every block. */
  function Round(bbs: seq<nat>, copies: Copies, j: nat): seq<nat> {
    seq(|bbs|, i requires 0 <= i < |bbs| => Place(copies, bbs[i], j))
  }

  function Rounds(bbs: seq<nat>, copies: Copies, k: nat): seq<nat> {
    if k == 0 then [] else Rounds(bbs, copies, k - 1) + Round(bbs, copies, k - 1)
  }

  /** `loop_nodes[header]`: the list, round by round, and the last copy of the header. */
  function UnrolledList(bbs: seq<nat>, copies: Copies, k: nat): seq<nat>
    requires bbs != []
  {
    Rounds(bbs, copies, k) + (if |bbs| > 1 then [Place(copies, bbs[0], k)] else [])
  }

  /** Every block of a round stands for its copy. */
  lemma RoundIs(f: Fn, f': Fn, bbs: seq<nat>, k: nat, copies: Copies, orig: Origin, j: nat, x: nat)
    requires bbs != [] && IsUnrolling(f, f', LoopOf(bbs), k, copies, orig) && j < k && x in Round(bbs, copies, j)
    ensures x < |f'| && orig[x].0 in bbs && orig[x].1 == j
  {
    var i :| 0 <= i < |bbs| && Place(copies, bbs[i], j) == x;
    assert bbs[i] in LoopOf(bbs).blocks;
  }

  /** A round holds every block that stands for its copy. */
  lemma RoundHas(f: Fn, f': Fn, bbs: seq<nat>, k: nat, copies: Copies, orig: Origin, j: nat, x: nat)
    requires bbs != [] && IsUnrolling(f, f', LoopOf(bbs), k, copies, orig) && x < |f'| && orig[x].0 in bbs && orig[x].1 == j
    ensures x in Round(bbs, copies, j)
  {
    PlaceOf(f, f', LoopOf(bbs), k, copies, orig, x);
    var i :| 0 <= i < |bbs| && bbs[i] == orig[x].0;
    assert Round(bbs, copies, j)[i] == x;
  }

  lemma {:induction false} RoundsIn(bbs: seq<nat>, copies: Copies, n: nat, x: nat)
    ensures x in Rounds(bbs, copies, n) <==> exists j: nat :: j < n && x in Round(bbs, copies, j)
  {
    if n > 0 {
      RoundsIn(bbs, copies, n - 1, x);
    }
  }

  lemma RoundsAre(f: Fn, f': Fn, bbs: seq<nat>, k: nat, copies: Copies, orig: Origin, n: nat, x: nat)
    requires bbs != [] && IsUnrolling(f, f', LoopOf(bbs), k, copies, orig) && n <= k
    ensures x in Rounds(bbs, copies, n) ==> x < |f'| && orig[x].0 in bbs && orig[x].1 < n
    ensures x < |f'| && orig[x].0 in bbs && orig[x].1 < n ==> x in Rounds(bbs, copies, n)
  {
    RoundsIn(bbs, copies, n, x);
    if j: nat :| j < n && x in Round(bbs, copies, j) { RoundIs(f, f', bbs, k, copies, orig, j, x); }
    if x < |f'| && orig[x].0 in bbs && orig[x].1 < n { RoundHas(f, f', bbs, k, copies, orig, orig[x].1, x); }
  }

  lemma RoundAt(f: Fn, f': Fn, bbs: seq<nat>, k: nat, copies: Copies, orig: Origin, j: nat, i: nat)
    requires bbs != [] && IsUnrolling(f, f', LoopOf(bbs), k, copies, orig) && j < k && i < |bbs|
    ensures Round(bbs, copies, j)[i] < |f'| && orig[Round(bbs, copies, j)[i]] == (bbs[i], j)
  {
    assert bbs[i] in LoopOf(bbs).blocks;
  }

  lemma RoundPair(f: Fn, f': Fn, bbs: seq<nat>, k: nat, copies: Copies, orig: Origin, j: nat, p: nat, q: nat)
    requires bbs != [] && IsUnrolling(f, f', LoopOf(bbs), k, copies, orig) && j < k && p < |bbs| && q < |bbs|
    requires Ordered(f, bbs, {bbs[0]}) && Edge(f', Round(bbs, copies, j)[p], Round(bbs, copies, j)[q])
    ensures p < q
  {
    RoundAt(f, f', bbs, k, copies, orig, j, p);
    RoundAt(f, f', bbs, k, copies, orig, j, q);
    EdgeProjects(f, f', LoopOf(bbs), k, copies, orig, Round(bbs, copies, j)[p], Round(bbs, copies, j)[q]);
    assert bbs[p] in LoopOf(bbs).blocks && bbs[q] in LoopOf(bbs).blocks;
    assert bbs[q] !in {bbs[0]};
  }

  lemma RoundOrdered(f: Fn, f': Fn, bbs: seq<nat>, k: nat, copies: Copies, orig: Origin, j: nat)
    requires bbs != [] && IsUnrolling(f, f', LoopOf(bbs), k, copies, orig) && j < k
    requires Distinct(bbs) && Ordered(f, bbs, {bbs[0]})
    ensures Ordered(f', Round(bbs, copies, j), {}) && Distinct(Round(bbs, copies, j))
  {
    var r := Round(bbs, copies, j);
    forall p, q | 0 <= p < |r| && 0 <= q < |r| && Edge(f', r[p], r[q])
      ensures p < q
    {
      RoundPair(f, f', bbs, k, copies, orig, j, p, q);
    }
    forall p, q | 0 <= p < q < |r|
      ensures r[p] != r[q]
    {
      RoundAt(f, f', bbs, k, copies, orig, j, p);
      RoundAt(f, f', bbs, k, copies, orig, j, q);
    }
  }

  /** No jump from a round to an earlier one. */
  lemma RoundsForward(f: Fn, f': Fn, bbs: seq<nat>, k: nat, copies: Copies, orig: Origin, u: nat, v: nat)
    requires bbs != [] && IsUnrolling(f, f', LoopOf(bbs), k, copies, orig) && u < |f'| && v < |f'|
    requires orig[u].0 in bbs && orig[v].0 in bbs && orig[v].1 < orig[u].1
    ensures !Edge(f', u, v)
  {
    if Edge(f', u, v) { EdgeProjects(f, f', LoopOf(bbs), k, copies, orig, u, v); }
  }

  lemma RoundsApart(f: Fn, f': Fn, bbs: seq<nat>, k: nat, copies: Copies, orig: Origin, i: nat, j: nat)
    requires bbs != [] && IsUnrolling(f, f', LoopOf(bbs), k, copies, orig) && i < j < k
    ensures NoJumps(f', Round(bbs, copies, j), Round(bbs, copies, i))
  {
    forall u, v | u in Round(bbs, copies, j) && v in Round(bbs, copies, i)
      ensures !Edge(f', u, v) && u != v
    {
      RoundIs(f, f', bbs, k, copies, orig, j, u);
      RoundIs(f, f', bbs, k, copies, orig, i, v);
      RoundsForward(f, f', bbs, k, copies, orig, u, v);
    }
  }

  ghost predicate NoJumps(f: Fn, t: seq<nat>, s: seq<nat>) {
    forall u, v :: u in t && v in s ==> !Edge(f, u, v) && u != v
  }

  /** Rounds that are in order one by one, none leading back to an earlier one, are in
      order together. */
  lemma {:induction false} RoundsJoin(f: Fn, bbs: seq<nat>, copies: Copies, n: nat)
    requires forall j: nat :: j < n ==> Ordered(f, Round(bbs, copies, j), {}) && Distinct(Round(bbs, copies, j))
    requires forall i: nat, j: nat :: i < j < n ==> NoJumps(f, Round(bbs, copies, j), Round(bbs, copies, i))
    ensures Ordered(f, Rounds(bbs, copies, n), {}) && Distinct(Rounds(bbs, copies, n))
  {
    if n > 0 {
      RoundsJoin(f, bbs, copies, n - 1);
      var s, t := Rounds(bbs, copies, n - 1), Round(bbs, copies, n - 1);
      forall u, v | u in t && v in s
        ensures !Edge(f, u, v) && u != v
      {
        RoundsIn(bbs, copies, n - 1, v);
        var i: nat :| i < n - 1 && v in Round(bbs, copies, i);
        assert NoJumps(f, t, Round(bbs, copies, i));
      }
      JoinOrdered(f, s, t);
    }
  }

  lemma RoundsOrdered(f: Fn, f': Fn, bbs: seq<nat>, k: nat, copies: Copies, orig: Origin)
    requires bbs != [] && IsUnrolling(f, f', LoopOf(bbs), k, copies, orig)
    requires Distinct(bbs) && Ordered(f, bbs, {bbs[0]})
    ensures Ordered(f', Rounds(bbs, copies, k), {}) && Distinct(Rounds(bbs, copies, k))
  {
    forall j: nat | j < k
      ensures Ordered(f', Round(bbs, copies, j), {}) && Distinct(Round(bbs, copies, j))
    {
      RoundOrdered(f, f', bbs, k, copies, orig, j);
    }
    forall i: nat, j: nat | i < j < k
      ensures NoJumps(f', Round(bbs, copies, j), Round(bbs, copies, i))
    {
      RoundsApart(f, f', bbs, k, copies, orig, i, j);
    }
    RoundsJoin(f', bbs, copies, k);
  }

  lemma JoinOrdered(f: Fn, s: seq<nat>, t: seq<nat>)
    requires Ordered(f, s, {}) && Distinct(s) && Ordered(f, t, {}) && Distinct(t)
    requires NoJumps(f, t, s)
    ensures Ordered(f, s + t, {}) && Distinct(s + t)
  {
    OrderedConcat(f, s, t, {});
    DistinctConcat(s, t);
  }

  /** After unrolling, every jump inside the loop goes forward in its list. */
  lemma UnrolledOrdered(f: Fn, f': Fn, bbs: seq<nat>, k: nat, copies: Copies, orig: Origin)
    requires bbs != [] && IsUnrolling(f, f', LoopOf(bbs), k, copies, orig)
    requires Distinct(bbs) && Ordered(f, bbs, {bbs[0]})
    ensures Ordered(f', UnrolledList(bbs, copies, k), {}) && Distinct(UnrolledList(bbs, copies, k))
    ensures forall x: nat :: x in UnrolledList(bbs, copies, k) <==> x < |orig| && orig[x].0 in bbs
    ensures UnrolledList(bbs, copies, k)[0] == bbs[0]
  {
    RoundsOrdered(f, f', bbs, k, copies, orig);
    LoopSize(bbs);
    assert bbs[0] in LoopOf(bbs).blocks;
    RoundZero(bbs, copies, k);
    if |bbs| > 1 {
      var x := Place(copies, bbs[0], k);
      assert orig[x] == (bbs[0], k);
      LastCopy(f, f', bbs, k, copies, orig, x);
    } else {
      forall x: nat
        ensures x in Rounds(bbs, copies, k) <==> x < |orig| && orig[x].0 in bbs
      {
        RoundsAre(f, f', bbs, k, copies, orig, k, x);
        if x < |orig| && orig[x].0 in bbs { PlaceOf(f, f', LoopOf(bbs), k, copies, orig, x); }
      }
      assert UnrolledList(bbs, copies, k) == Rounds(bbs, copies, k);
    }
  }

  lemma {:induction false} RoundZero(bbs: seq<nat>, copies: Copies, k: nat)
    requires bbs != [] && k > 0 && bbs[0] in copies && copies[bbs[0]] != [] && copies[bbs[0]][0] == bbs[0]
    ensures Rounds(bbs, copies, k) != [] && Rounds(bbs, copies, k)[0] == bbs[0]
  {
    if k > 1 { RoundZero(bbs, copies, k - 1); } else { assert Rounds(bbs, copies, 0) == []; }
  }

  /** The header alone has a copy behind all rounds. */
  lemma CopyNumber(f: Fn, f': Fn, bbs: seq<nat>, k: nat, copies: Copies, orig: Origin, x: nat, y: nat)
    requires |bbs| > 1 && IsUnrolling(f, f', LoopOf(bbs), k, copies, orig) && Distinct(bbs)
    requires x < |f'| && y < |f'| && orig[x] == (bbs[0], k) && orig[y].0 in bbs
    ensures orig[y].1 < k || y == x
  {
    var l := LoopOf(bbs);
    InBlocks(bbs, orig[y].0);
    InBlocks(bbs, bbs[0]);
    PlaceOf(f, f', l, k, copies, orig, y);
    PlaceOf(f, f', l, k, copies, orig, x);
    NumberIs(l, k, copies, orig[y].0, orig[y].1);
  }

  lemma InBlocks(bbs: seq<nat>, b: nat)
    requires bbs != []
    ensures b in bbs <==> b in LoopOf(bbs).blocks
  {
  }

  lemma NumberIs(l: Loop, k: nat, copies: Copies, b: nat, j: nat)
    requires j < NumCopies(l, k, b)
    ensures j < k || (b == l.header && j == k)
  {
  }

  /** It jumps to no round. */
  lemma LastIs(f: Fn, f': Fn, bbs: seq<nat>, k: nat, copies: Copies, orig: Origin, x: nat, y: nat)
    requires |bbs| > 1 && IsUnrolling(f, f', LoopOf(bbs), k, copies, orig) && Distinct(bbs)
    requires x < |f'| && orig[x] == (bbs[0], k) && orig[x].0 in bbs
    ensures y in Rounds(bbs, copies, k) ==> y != x && !Edge(f', x, y)
    ensures y in Rounds(bbs, copies, k) || y == x <==> y < |orig| && orig[y].0 in bbs
  {
    RoundsAre(f, f', bbs, k, copies, orig, k, y);
    if y < |f'| && orig[y].0 in bbs {
      CopyNumber(f, f', bbs, k, copies, orig, x, y);
      if orig[y].1 < k { RoundsForward(f, f', bbs, k, copies, orig, x, y); }
    }
  }

  lemma NoSelfJump(f: Fn, f': Fn, bbs: seq<nat>, k: nat, copies: Copies, orig: Origin, x: nat)
    requires bbs != [] && IsUnrolling(f, f', LoopOf(bbs), k, copies, orig) && x < |f'| && orig[x] == (bbs[0], k)
    ensures !Edge(f', x, x)
  {
    assert bbs[0] in LoopOf(bbs).blocks;
    if Edge(f', x, x) { EdgeProjects(f, f', LoopOf(bbs), k, copies, orig, x, x); }
  }

  lemma LastCopy(f: Fn, f': Fn, bbs: seq<nat>, k: nat, copies: Copies, orig: Origin, x: nat)
    requires |bbs| > 1 && IsUnrolling(f, f', LoopOf(bbs), k, copies, orig)
    requires Distinct(bbs) && Ordered(f', Rounds(bbs, copies, k), {}) && Distinct(Rounds(bbs, copies, k))
    requires x < |f'| && orig[x] == (bbs[0], k)
    ensures Ordered(f', Rounds(bbs, copies, k) + [x], {}) && Distinct(Rounds(bbs, copies, k) + [x])
    ensures forall y: nat :: y in Rounds(bbs, copies, k) + [x] <==> y < |orig| && orig[y].0 in bbs
  {
    var s := Rounds(bbs, copies, k);
    assert bbs[0] in bbs;
    forall y: nat
      ensures y in s ==> y != x && !Edge(f', x, y)
      ensures y in s + [x] <==> y < |orig| && orig[y].0 in bbs
    {
      LastIs(f, f', bbs, k, copies, orig, x, y);
    }
    NoSelfJump(f, f', bbs, k, copies, orig, x);
    OrderedConcat(f', s, [x], {});
    DistinctConcat(s, [x]);
  }
}
