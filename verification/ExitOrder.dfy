/** `Function::topSort`: besides the jumps it follows an edge from the header of an
    unrolled loop to each block the loop exits to. */
module ExitOrder {
  import opened BlockOrder
  import Dominators
  import opened Graph
  import opened TopSort

  /** The edges that are sorted. */
  function WithExits(g: Cfg, exits: seq<seq<nat>>): Cfg
    requires |exits| == |g|
  {
    seq(|g|, u requires 0 <= u < |g| => g[u] + exits[u])
  }

  lemma WithExitsEdge(g: Cfg, exits: seq<seq<nat>>, u: nat, v: nat)
    requires |exits| == |g|
    ensures Edge(WithExits(g, exits), u, v) <==> Edge(g, u, v) || (u < |g| && v in exits[u])
  {
    if u < |g| {
      var all := g[u] + exits[u];
      assert WithExits(g, exits)[u] == all;
      assert v in all <==> v in g[u] || v in exits[u];
    }
  }

  /** The blocks in `l` are entered at `q` alone. */
  ghost predicate EntersAt(h: Cfg, q: nat, l: set<nat>) {
    q in l && 0 !in l && forall u: nat, v: nat :: Edge(h, u, v) && v in l && v != q ==> u in l
  }

  /** Some block in `l` jumps to `x`. */
  ghost predicate JumpsOut(g: Cfg, l: set<nat>, x: nat) {
    x !in l && exists u: nat :: u in l && u < |g| && Edge(g, u, x)
  }

  /** Block `q` heads a loop from which some block jumps out to `x`. */
  ghost predicate ExitEdge(g: Cfg, h: Cfg, q: nat, x: nat) {
    exists l: set<nat> :: EntersAt(h, q, l) && JumpsOut(g, l, x)
  }

  /** Block `x` heads a loop that `q` is in. */
  ghost predicate BackEdge(h: Cfg, q: nat, x: nat) {
    exists l: set<nat> :: EntersAt(h, x, l) && q in l
  }

  /** What exit blocks are: of a loop, or the header of an outer one. */
  ghost predicate ExitsOk(g: Cfg, exits: seq<seq<nat>>) {
    |exits| == |g| && forall q: nat, x: nat :: q < |g| && x < |g| && x in exits[q] ==>
      ExitEdge(g, WithExits(g, exits), q, x) || BackEdge(WithExits(g, exits), q, x)
  }

  /** Among the blocks of a loop the header comes first. */
  lemma {:induction false} HeaderComesFirst(h: Cfg, order: seq<nat>, x: nat, l: set<nat>, j: nat, m: nat)
    requires Permutes(order, |h|) && EntersAt(h, x, l) && j < |h| && m < |h| && order[j] == x && order[m] in l
    requires forall n: nat :: n < |h| && order[n] != 0 ==> HasEarlierIn(h, order, n)
    ensures j <= m
    decreases m
  {
    if m != j {
      assert order[m] != order[j] && HasEarlierIn(h, order, m);
      var i :| 0 <= i < m && Edge(h, order[i], order[m]);
      HeaderComesFirst(h, order, x, l, j, i);
    }
  }

  /** A walk into a loop passes its header. */
  lemma {:induction false} WalkEnters(h: Cfg, q: nat, l: set<nat>, p: seq<nat>)
    requires EntersAt(h, q, l) && IsWalk(h, p) && p[0] !in l && p[|p| - 1] in l
    ensures q in p
    decreases |p|
  {
    var n := |p| - 1;
    assert p[n] != q ==> Edge(h, p[n - 1], p[n]) && p[n - 1] in l;
    if p[n] != q {
      assert IsWalk(h, p[..n]);
      WalkEnters(h, q, l, p[..n]);
      assert q in p[..n];
    }
  }

  /** Where an exit edge leads on, a jump from the loop does so too. */
  lemma ExitIsJump(g: Cfg, h: Cfg, order: seq<nat>, i: nat, j: nat)
    requires |h| == |g| && Permutes(order, |g|) && i < j < |g| && ExitEdge(g, h, order[i], order[j])
    requires forall u: nat, v: nat :: Edge(g, u, v) ==> Edge(h, u, v)
    requires forall a, b :: 0 <= a < |h| && 0 <= b < |h| && Edge(h, order[a], order[b]) ==> a < b || ComesBack(h, order, b, a)
    ensures HasEarlierIn(g, order, j)
  {
    var q, x := order[i], order[j];
    var l: set<nat> :| EntersAt(h, q, l) && JumpsOut(g, l, x);
    var u: nat :| u in l && u < |g| && Edge(g, u, x);
    assert u in order;
    var k :| 0 <= k < |order| && order[k] == u;
    if k > j {
      assert Edge(h, order[k], order[j]) && ComesBack(h, order, j, k);
      var p :| WalkFromTo(h, x, u, p) && forall m :: 0 <= m < |p| ==> AtOrBehind(order, j, p[m]);
      WalkEnters(h, q, l, p);
    }
  }

  lemma NoExitToFirst(g: Cfg, h: Cfg, q: nat)
    requires NoneInto(g, 0)
    ensures !ExitEdge(g, h, q, 0) && !BackEdge(h, q, 0)
  {
  }

  lemma ExitsIntoNone(g: Cfg, exits: seq<seq<nat>>)
    requires NoneInto(g, 0) && ExitsOk(g, exits)
    ensures NoneInto(WithExits(g, exits), 0)
  {
    forall p: nat
      ensures !Edge(WithExits(g, exits), p, 0)
    {
      WithExitsEdge(g, exits, p, 0);
      NoExitToFirst(g, WithExits(g, exits), p);
    }
  }

  /** If every block has an earlier predecessor in the graph with exit edges, then every
      block has one that jumps to it. */
  lemma JumpsEarlier(g: Cfg, exits: seq<seq<nat>>, order: seq<nat>, j: nat)
    requires ExitsOk(g, exits) && Permutes(order, |g|) && j < |g| && order[j] != 0
    requires forall n: nat :: n < |g| && order[n] != 0 ==> HasEarlierIn(WithExits(g, exits), order, n)
    requires forall a, b :: 0 <= a < |g| && 0 <= b < |g| && Edge(WithExits(g, exits), order[a], order[b]) ==>
      a < b || ComesBack(WithExits(g, exits), order, b, a)
    ensures HasEarlierIn(g, order, j)
  {
    var h := WithExits(g, exits);
    var i :| 0 <= i < j && Edge(h, order[i], order[j]);
    WithExitsEdge(g, exits, order[i], order[j]);
    if order[j] in exits[order[i]] {
      if BackEdge(h, order[i], order[j]) {
        var l: set<nat> :| EntersAt(h, order[j], l) && order[i] in l;
        HeaderComesFirst(h, order, order[j], l, j, i);
      } else {
        forall u: nat, v: nat | Edge(g, u, v) ensures Edge(h, u, v) { WithExitsEdge(g, exits, u, v); }
        ExitIsJump(g, h, order, i, j);
      }
    } else {
      assert Edge(g, order[i], order[j]);
    }
  }

  lemma MoreEdges(g: Cfg, exits: seq<seq<nat>>, order: seq<nat>, j: nat)
    requires |exits| == |g| && |order| == |g| && HasEarlierIn(g, order, j)
    ensures HasEarlierIn(WithExits(g, exits), order, j)
  {
    var i :| 0 <= i < j < |order| && Edge(g, order[i], order[j]);
    WithExitsEdge(g, exits, order[i], order[j]);
  }

  // ---------------------------------------------------------------------
  // Sorting a list of blocks
  // ---------------------------------------------------------------------

  /** The blocks of `list` in the order `s` of their places. */
  function Picked(list: seq<nat>, s: seq<nat>): seq<nat>
    requires Distinct(s, |list|)
  {
    seq(|s|, i requires 0 <= i < |s| => list[s[i]])
  }

  lemma PickedPermutes(list: seq<nat>, s: seq<nat>)
    requires Permutes(list, |list|) && Permutes(s, |list|)
    ensures Permutes(Picked(list, s), |list|)
  {
    forall x: nat | x < |list|
      ensures x in Picked(list, s)
    {
      assert x in list;
      var k :| 0 <= k < |list| && list[k] == x;
      assert k in s;
      var i :| 0 <= i < |s| && s[i] == k;
      assert Picked(list, s)[i] == x;
    }
  }

  lemma PickedEarlier(h: Cfg, list: seq<nat>, s: seq<nat>, j: nat)
    requires Permutes(list, |h|) && Permutes(s, |h|) && j < |h|
    ensures HasEarlierIn(h, Picked(list, s), j) <==> HasEarlierIn(Renamed(h, list), s, j)
  {
    var order := Picked(list, s);
    if HasEarlierIn(h, order, j) {
      var i :| 0 <= i < j && Edge(h, order[i], order[j]);
      RenamedEdge(h, list, s[i], s[j]);
    }
    if HasEarlierIn(Renamed(h, list), s, j) {
      var i :| 0 <= i < j && Edge(Renamed(h, list), s[i], s[j]);
      RenamedEdge(h, list, s[i], s[j]);
      assert Edge(h, order[i], order[j]);
    }
  }

  lemma PickedBack(h: Cfg, list: seq<nat>, s: seq<nat>, b: nat, a: nat)
    requires Permutes(list, |h|) && Permutes(s, |h|) && b < |h| && a < |h| && ComesBack(Renamed(h, list), s, b, a)
    ensures ComesBack(h, Picked(list, s), b, a)
  {
    var g, order := Renamed(h, list), Picked(list, s);
    var p :| WalkFromTo(g, s[b], s[a], p) && forall m :: 0 <= m < |p| ==> AtOrBehind(s, b, p[m]);
    var q := seq(|p|, m requires 0 <= m < |p| => list[p[m]]);
    forall m | 0 <= m < |q| - 1
      ensures Edge(h, q[m], q[m + 1])
    {
      assert Edge(g, p[m], p[m + 1]);
      RenamedEdge(h, list, p[m], p[m + 1]);
    }
    assert WalkFromTo(h, order[b], order[a], q);
    forall m | 0 <= m < |q|
      ensures AtOrBehind(order, b, q[m])
    {
      assert AtOrBehind(s, b, p[m]);
      var n :| b <= n < |s| && s[n] == p[m];
      assert order[n] == q[m];
    }
  }

  /** Every block of the list but the first has an earlier one that jumps to it. */
  ghost predicate InOrder(g: Cfg, order: seq<nat>) {
    && Permutes(order, |g|) && g != [] && order[0] == 0 && NoneInto(g, 0)
    && forall j: nat :: 0 < j < |g| ==> HasEarlierIn(g, order, j)
  }

  /** What `Sort` promises of the places of a list. */
  ghost predicate SortedPlaces(h: Cfg, s: seq<nat>) {
    && Permutes(s, |h|) && h != [] && s[0] == 0
    && (forall a, b :: 0 <= a < |h| && 0 <= b < |h| && Edge(h, s[a], s[b]) ==> a < b || ComesBack(h, s, b, a))
    && (forall j: nat :: j < |h| && s[j] != 0 ==> (HasEarlierIn(h, s, j) <==> Placed(h, s[j])))
  }

  lemma PickedForward(w: Cfg, list: seq<nat>, s: seq<nat>, a: nat, b: nat)
    requires Permutes(list, |w|) && SortedPlaces(Renamed(w, list), s) && a < |w| && b < |w|
    requires Edge(w, Picked(list, s)[a], Picked(list, s)[b])
    ensures a < b || ComesBack(w, Picked(list, s), b, a)
  {
    RenamedEdge(w, list, s[a], s[b]);
    if a >= b { PickedBack(w, list, s, b, a); }
  }

  lemma PickedPlaced(w: Cfg, list: seq<nat>, s: seq<nat>)
    requires Permutes(list, |w|) && SortedPlaces(Renamed(w, list), s)
    ensures (forall j: nat :: 0 < j < |w| ==> HasEarlierIn(w, Picked(list, s), j)) <==> AllPlaced(Renamed(w, list))
  {
    EarlierPlaced(Renamed(w, list), s);
    forall j: nat | j < |w|
      ensures HasEarlierIn(w, Picked(list, s), j) <==> HasEarlierIn(Renamed(w, list), s, j)
    {
      PickedEarlier(w, list, s, j);
    }
  }

  lemma JumpsInOrder(g: Cfg, exits: seq<seq<nat>>, order: seq<nat>)
    requires g != [] && NoneInto(g, 0) && ExitsOk(g, exits) && Permutes(order, |g|) && order[0] == 0
    requires forall j: nat :: 0 < j < |g| ==> HasEarlierIn(WithExits(g, exits), order, j)
    requires forall a, b :: 0 <= a < |g| && 0 <= b < |g| && Edge(WithExits(g, exits), order[a], order[b]) ==>
      a < b || ComesBack(WithExits(g, exits), order, b, a)
    ensures InOrder(g, order)
  {
    forall j: nat | 0 < j < |g|
      ensures HasEarlierIn(g, order, j)
    {
      assert order[j] != order[0];
      JumpsEarlier(g, exits, order, j);
    }
  }

  /** What the sort of the graph with the exit edges means for the list of blocks. */
  lemma SortedList(g: Cfg, exits: seq<seq<nat>>, list: seq<nat>, s: seq<nat>)
    requires g != [] && NoneInto(g, 0) && ExitsOk(g, exits) && Permutes(list, |g|) && list[0] == 0
    requires SortedPlaces(Renamed(WithExits(g, exits), list), s)
    ensures InOrder(g, Picked(list, s)) <==> AllPlaced(Renamed(WithExits(g, exits), list))
  {
    var w, order := WithExits(g, exits), Picked(list, s);
    PickedPermutes(list, s);
    PickedPlaced(w, list, s);
    if AllPlaced(Renamed(w, list)) {
      forall a, b | 0 <= a < |g| && 0 <= b < |g| && Edge(w, order[a], order[b])
        ensures a < b || ComesBack(w, order, b, a)
      {
        PickedForward(w, list, s, a, b);
      }
      JumpsInOrder(g, exits, order);
    } else if InOrder(g, order) {
      forall j: nat | 0 < j < |g| ensures HasEarlierIn(w, order, j) { MoreEdges(g, exits, order, j); }
    }
  }

  /** `Function::topSort`: sorts the list of blocks. Afterwards every block but the first
      has an earlier one that jumps to it exactly if all blocks are placed, by their
      places in the list before, in the graph with the exit edges. */
  method SortFunction(g: Cfg, exits: seq<seq<nat>>, list: seq<nat>) returns (order: seq<nat>)
    requires g != [] && NoneInto(g, 0) && ExitsOk(g, exits) && Permutes(list, |g|) && list[0] == 0
    ensures Permutes(order, |g|)
    ensures InOrder(g, order) <==> AllPlaced(Renamed(WithExits(g, exits), list))
  {
    var h := Renamed(WithExits(g, exits), list);
    ExitsIntoNone(g, exits);
    EntryRenamed(WithExits(g, exits), list);
    var s := Sort(h);
    order := Picked(list, s);
    PickedPermutes(list, s);
    SortedList(g, exits, list, s);
  }

  /** Then the dominator tree may rely on the function in that order. */
  lemma InOrderIff(g: Cfg, order: seq<nat>)
    requires g != [] && NoneInto(g, 0) && Permutes(order, |g|) && order[0] == 0
    ensures InOrder(g, order) <==> Dominators.Ordered(Renamed(g, order))
  {
    OrderedIn(g, order);
  }

  /** Sorting a list that is in order keeps it in order, whatever exit edges are followed. */
  lemma InOrderPlaced(g: Cfg, exits: seq<seq<nat>>, list: seq<nat>)
    requires InOrder(g, list) && ExitsOk(g, exits)
    ensures AllPlaced(Renamed(WithExits(g, exits), list))
  {
    var w := WithExits(g, exits);
    var h := Renamed(w, list);
    ExitsIntoNone(g, exits);
    EntryRenamed(w, list);
    forall x: nat | 0 < x < |h|
      ensures Placed(h, x)
    {
      assert HasEarlierIn(g, list, x);
      var i :| 0 <= i < x && Edge(g, list[i], list[x]);
      WithExitsEdge(g, exits, list[i], list[x]);
      RenamedEdge(w, list, i, x);
      EarlierPlaces(h, i, x);
    }
  }
}
