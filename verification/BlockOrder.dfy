/** The order of a function's blocks, as `llvm2alive` creates and `Function::topSort`
    restores it, and the order the dominator tree relies on. */
module BlockOrder {
  import opened Dominators
  import opened Graph
  import opened TopSort

  function IndexOf(s: seq<nat>, x: nat): (k: nat)
    requires x in s
    ensures k < |s| && s[k] == x
  {
    if s[0] == x then 0 else 1 + IndexOf(s[1..], x)
  }

  /** The place of a target in the order; the sink keeps its place after all blocks. */
  function Place(order: seq<nat>, t: nat): nat {
    if t in order then IndexOf(order, t) else |order|
  }

  /** The graph whose block `k` is block `order[k]` of `g`. */
  function Renamed(g: Cfg, order: seq<nat>): Cfg
    requires Distinct(order, |g|)
  {
    seq(|order|, k requires 0 <= k < |order| =>
      seq(|g[order[k]]|, i requires 0 <= i < |g[order[k]]| => Place(order, g[order[k]][i])))
  }

  lemma PlaceOfBlock(order: seq<nat>, n: nat, b: nat)
    requires Permutes(order, n) && b < n
    ensures Place(order, order[b]) == b
  {
    assert order[b] in order;
  }

  lemma RenamedEdge(g: Cfg, order: seq<nat>, a: nat, b: nat)
    requires Permutes(order, |g|) && a < |g| && b < |g|
    ensures Edge(Renamed(g, order), a, b) <==> Edge(g, order[a], order[b])
  {
    var h := Renamed(g, order);
    var ts := g[order[a]];
    assert |h[a]| == |ts| && forall i :: 0 <= i < |ts| ==> h[a][i] == Place(order, ts[i]);
    if Edge(h, a, b) {
      var i :| 0 <= i < |h[a]| && h[a][i] == b;
      assert ts[i] in order;
    }
    if Edge(g, order[a], order[b]) {
      var i :| 0 <= i < |ts| && ts[i] == order[b];
      PlaceOfBlock(order, |g|, b);
      assert h[a][i] == b;
    }
  }

  lemma RenamedWellFormed(g: Cfg, order: seq<nat>)
    requires Permutes(order, |g|) && g != []
    ensures WellFormed(Renamed(g, order))
  {
  }

  ghost predicate AllPlaced(g: Cfg) {
    forall x: nat :: 0 < x < |g| ==> Placed(g, x)
  }

  /** A function is in order exactly if every block but the first has an earlier
      predecessor in the list. */
  lemma OrderedIn(g: Cfg, order: seq<nat>)
    requires g != [] && NoneInto(g, 0) && Permutes(order, |g|) && order[0] == 0
    ensures Ordered(Renamed(g, order)) <==> forall j: nat :: 0 < j < |g| ==> HasEarlierIn(g, order, j)
  {
    var h := Renamed(g, order);
    RenamedWellFormed(g, order);
    EntryRenamed(g, order);
    forall j: nat | 0 < j < |g|
      ensures HasEarlier(h, j) <==> HasEarlierIn(g, order, j)
    {
      EarlierRenamed(g, order, j);
    }
  }

  /** What `top_sort` does is what the dominator tree needs exactly if all blocks are placed. */
  lemma OrderedIff(g: Cfg, order: seq<nat>)
    requires g != [] && NoneInto(g, 0) && Permutes(order, |g|) && order[0] == 0
    requires forall j: nat :: j < |g| && order[j] != 0 ==> (HasEarlierIn(g, order, j) <==> Placed(g, order[j]))
    ensures Ordered(Renamed(g, order)) <==> AllPlaced(g)
  {
    OrderedIn(g, order);
    EarlierPlaced(g, order);
  }

  lemma EarlierPlaced(g: Cfg, order: seq<nat>)
    requires g != [] && Permutes(order, |g|) && order[0] == 0
    requires forall j: nat :: j < |g| && order[j] != 0 ==> (HasEarlierIn(g, order, j) <==> Placed(g, order[j]))
    ensures (forall j: nat :: 0 < j < |g| ==> HasEarlierIn(g, order, j)) <==> AllPlaced(g)
  {
    forall j: nat | 0 < j < |g|
      ensures HasEarlierIn(g, order, j) <==> Placed(g, order[j])
    {
      assert order[j] != order[0];
    }
    if forall j: nat :: 0 < j < |g| ==> HasEarlierIn(g, order, j) {
      forall x: nat | 0 < x < |g|
        ensures Placed(g, x)
      {
        assert x in order;
        var j := IndexOf(order, x);
        assert HasEarlierIn(g, order, j);
      }
    }
  }

  lemma EarlierRenamed(g: Cfg, order: seq<nat>, j: nat)
    requires Permutes(order, |g|) && j < |g|
    ensures HasEarlier(Renamed(g, order), j) <==> HasEarlierIn(g, order, j)
  {
    var h := Renamed(g, order);
    if HasEarlier(h, j) {
      var i: nat :| i < j && Edge(h, i, j);
      RenamedEdge(g, order, i, j);
    }
    if HasEarlierIn(g, order, j) {
      var i :| 0 <= i < j < |order| && Edge(g, order[i], order[j]);
      RenamedEdge(g, order, i, j);
    }
  }

  /** `top_sort` on the blocks of a function. */
  method SortBlocks(g: Cfg) returns (h: Cfg, ghost order: seq<nat>)
    requires WellFormed(g) && NoneInto(g, 0)
    ensures Permutes(order, |g|) && order[0] == 0 && h == Renamed(g, order)
    ensures Ordered(h) <==> AllPlaced(g)
  {
    var o := Sort(g);
    order := o;
    OrderedIff(g, o);
    h := Renamed(g, o);
  }

  /** Sorting blocks that are in order keeps them in order. */
  lemma OrderedPlaced(g: Cfg)
    requires Ordered(g)
    ensures AllPlaced(g)
  {
    forall x: nat | 0 < x < |g|
      ensures Placed(g, x)
    {
      assert HasEarlier(g, x);
      var p: nat :| p < x && Edge(g, p, x);
      EarlierPlaces(g, p, x);
    }
  }

  /** A block with an earlier predecessor is placed. */
  lemma EarlierPlaces(g: Cfg, p: nat, x: nat)
    requires NoneInto(g, 0) && p < x < |g| && Edge(g, p, x)
    ensures Placed(g, x)
  {
    if p == 0 {
      NotLedToEntry(g, x);
    } else {
      LeadsSelf(g, p);
      LeadsEdge(g, p, p, x);
    }
  }

  /** Without cycles, every numbering will do. */
  lemma AcyclicPlaced(g: Cfg)
    requires forall u: nat, v: nat :: v < |g| && Edge(g, u, v) ==> !Leads(g, v, u)
    requires forall x: nat :: 0 < x < |g| ==> !NoneInto(g, x)
    ensures AllPlaced(g)
  {
    forall x: nat | 0 < x < |g|
      ensures Placed(g, x)
    {
      assert !NoneInto(g, x);
      var p: nat :| Edge(g, p, x);
      assert !Leads(g, x, p);
    }
  }

  /** The targets of the first block have the smallest numbers. */
  ghost predicate TargetsFirst(g: Cfg) {
    forall j: nat, k: nat :: Edge(g, 0, j) && 0 < k < |g| && !Edge(g, 0, k) ==> j < k
  }

  lemma TargetsFirstPlaced(g: Cfg)
    requires NoneInto(g, 0) && TargetsFirst(g)
    requires forall x: nat :: x < |g| ==> Leads(g, 0, x)
    ensures AllPlaced(g)
  {
    forall x: nat | 0 < x < |g|
      ensures Placed(g, x)
    {
      NotLedToEntry(g, x);
      if !Edge(g, 0, x) {
        assert Leads(g, 0, x);
        var p :| WalkFromTo(g, 0, x, p);
        assert Edge(g, p[0], p[1]);
        assert WalkFromTo(g, p[1], x, p[1..]);
        assert Leads(g, p[1], x);
      }
    }
  }

  ghost predicate HasFirst(s: seq<nat>, ts: seq<nat>, i: nat)
    requires i <= |ts|
  {
    forall j :: 0 <= j < i ==> ts[j] in s
  }

  /** Apart from its first block the list has only blocks of `ts`. */
  ghost predicate RestFrom(s: seq<nat>, ts: seq<nat>) {
    forall k :: 0 < k < |s| ==> s[k] in ts
  }

  lemma KeepsFirst(s: seq<nat>, t: seq<nat>, ts: seq<nat>, i: nat)
    requires i < |ts| && s <= t && HasFirst(s, ts, i) && ts[i] in t
    ensures HasFirst(t, ts, i + 1)
  {
    forall j | 0 <= j < i
      ensures ts[j] in t
    {
      var k :| 0 <= k < |s| && s[k] == ts[j];
      assert t[k] == ts[j];
    }
  }

  /** The number of a block of the LLVM function: the next one when it is seen first. */
  method BlockNumber(bbs: seq<nat>, b: nat, ghost n: nat) returns (bbs': seq<nat>)
    requires Distinct(bbs, n) && b < n
    ensures Distinct(bbs', n) && bbs <= bbs' && b in bbs'
    ensures forall k :: |bbs| <= k < |bbs'| ==> bbs'[k] == b
  {
    bbs' := if b in bbs then bbs else bbs + [b];
    assert b !in bbs ==> bbs'[|bbs|] == b;
  }

  /** A block and its targets get their numbers. */
  method NumberTargets(g: Cfg, bbs: seq<nat>, b: nat) returns (bbs': seq<nat>)
    requires b < |g| && Distinct(bbs, |g|) && forall i :: 0 <= i < |g[b]| ==> g[b][i] < |g|
    ensures Distinct(bbs', |g|) && bbs <= bbs' && b in bbs' && HasFirst(bbs', g[b], |g[b]|)
    ensures bbs == [] ==> bbs'[0] == b && RestFrom(bbs', g[b])
  {
    bbs' := BlockNumber(bbs, b, |g|);
    ghost var mine := bbs';
    for i := 0 to |g[b]|
      invariant Distinct(bbs', |g|) && bbs <= mine <= bbs' && b in mine
      invariant HasFirst(bbs', g[b], i)
      invariant bbs == [] ==> bbs'[0] == b && RestFrom(bbs', g[b])
    {
      ghost var seen := bbs';
      bbs' := BlockNumber(bbs', g[b][i], |g|);
      KeepsFirst(seen, bbs', g[b], i);
    }
    InPrefixList(mine, bbs', b);
  }

  lemma InPrefixList(s: seq<nat>, t: seq<nat>, x: nat)
    requires s <= t && x in s
    ensures x in t
  {
    assert t == s + t[|s|..];
  }

  /** The numbers the blocks of an LLVM function get, `g` being its layout: each
      block is followed by those of its targets that were not seen before. */
  method NumberBlocks(g: Cfg) returns (bbs: seq<nat>)
    requires g != [] && NoneInto(g, 0) && forall u, i :: 0 <= u < |g| && 0 <= i < |g[u]| ==> g[u][i] < |g|
    ensures Permutes(bbs, |g|) && bbs[0] == 0 && TargetsFirst(Renamed(g, bbs))
  {
    bbs := [];
    ghost var first := [];
    for b := 0 to |g|
      invariant Distinct(bbs, |g|) && forall x: nat :: x < b ==> x in bbs
      invariant if b == 0 then bbs == [] else FirstTargets(g, first) && first <= bbs
    {
      ghost var before := bbs;
      bbs := NumberTargets(g, bbs, b);
      forall x: nat | x < b
        ensures x in bbs
      {
        InPrefixList(before, bbs, x);
      }
      if b == 0 { first := bbs; }
    }
    DistinctSize(bbs, UpTo(|g|));
    FirstTargetsFirst(g, first, bbs);
  }

  /** The first block and after it exactly its targets. */
  ghost predicate FirstTargets(g: Cfg, first: seq<nat>)
    requires g != []
  {
    && first != [] && first[0] == 0
    && (forall k :: 0 < k < |first| ==> first[k] in g[0])
    && (forall t :: t in g[0] ==> t in first)
  }

  lemma FirstTargetsFirst(g: Cfg, first: seq<nat>, bbs: seq<nat>)
    requires g != [] && Permutes(bbs, |g|) && FirstTargets(g, first) && first <= bbs && NoneInto(g, 0)
    requires forall u, i :: 0 <= u < |g| && 0 <= i < |g[u]| ==> g[u][i] < |g|
    ensures TargetsFirst(Renamed(g, bbs))
  {
    var h := Renamed(g, bbs);
    forall j: nat, k: nat | Edge(h, 0, j) && 0 < k < |g| && !Edge(h, 0, k)
      ensures j < k
    {
      TargetPlace(g, bbs, j);
      RenamedEdge(g, bbs, 0, j);
      RenamedEdge(g, bbs, 0, k);
      assert first == bbs[..|first|];
      assert bbs[j] in first;
      var i :| 0 <= i < |first| && first[i] == bbs[j];
      assert bbs[i] == bbs[j];
    }
  }

  lemma TargetPlace(g: Cfg, bbs: seq<nat>, j: nat)
    requires g != [] && Permutes(bbs, |g|) && Edge(Renamed(g, bbs), 0, j)
    requires forall u, i :: 0 <= u < |g| && 0 <= i < |g[u]| ==> g[u][i] < |g|
    ensures j < |g|
  {
    var h := Renamed(g, bbs);
    var i :| 0 <= i < |h[0]| && h[0][i] == j;
    assert h[0][i] == Place(bbs, g[bbs[0]][i]);
    assert g[bbs[0]][i] in bbs;
  }

  lemma RenamedLeads(g: Cfg, order: seq<nat>, a: nat, x: nat)
    requires Permutes(order, |g|) && a < |g| && x < |g| && Leads(g, order[a], order[x])
    ensures Leads(Renamed(g, order), a, x)
  {
    var h := Renamed(g, order);
    var p :| WalkFromTo(g, order[a], order[x], p);
    assert forall i :: 0 <= i < |p| ==> p[i] in order;
    var q := seq(|p|, i requires 0 <= i < |p| => IndexOf(order, p[i]));
    forall i | 0 <= i < |q| - 1
      ensures Edge(h, q[i], q[i + 1])
    {
      assert Edge(g, p[i], p[i + 1]);
      RenamedEdge(g, order, q[i], q[i + 1]);
    }
    assert order[q[0]] == order[a] && order[q[|q| - 1]] == order[x];
    assert WalkFromTo(h, a, x, q);
  }

  /** The order in which `llvm2alive` creates the blocks: if all of them are
      reachable, the dominator tree may rely on it. */
  method CreateBlocks(g: Cfg) returns (h: Cfg)
    requires g != [] && NoneInto(g, 0) && forall u, i :: 0 <= u < |g| && 0 <= i < |g[u]| ==> g[u][i] < |g|
    ensures |h| == |g|
    ensures (forall x: nat :: x < |g| ==> Leads(g, 0, x)) ==> Ordered(h)
  {
    var bbs := NumberBlocks(g);
    var numbered := Renamed(g, bbs);
    RenamedWellFormed(g, bbs);
    EntryRenamed(g, bbs);
    ghost var order;
    h, order := SortBlocks(numbered);
    if forall x: nat :: x < |g| ==> Leads(g, 0, x) {
      forall x: nat | x < |g|
        ensures Leads(numbered, 0, x)
      {
        RenamedLeads(g, bbs, 0, x);
      }
      TargetsFirstPlaced(numbered);
    }
  }

  lemma EntryRenamed(g: Cfg, order: seq<nat>)
    requires g != [] && NoneInto(g, 0) && Permutes(order, |g|) && order[0] == 0
    ensures NoneInto(Renamed(g, order), 0)
  {
    forall p: nat | p < |g|
      ensures !Edge(Renamed(g, order), p, 0)
    {
      RenamedEdge(g, order, p, 0);
    }
  }

  /** A natural loop 2, 3, 1 entered at block 2. */
  const LATCH_FIRST: Cfg := [[2], [2], [3], [1]]

  /** Numbered like this, block 1 comes before its only predecessor. */
  method LatchFirst() returns (h: Cfg, ghost order: seq<nat>)
    ensures Permutes(order, 4) && h == Renamed(LATCH_FIRST, order)
    ensures !Ordered(h) && !AllPlaced(LATCH_FIRST) && !Placed(LATCH_FIRST, 1)
  {
    var g := LATCH_FIRST;
    h, order := SortBlocks(g);
    assert Edge(g, 1, 2) && Edge(g, 2, 3);
    assert WalkFromTo(g, 1, 3, [1, 2, 3]);
    assert !Placed(g, 1) by {
      assert forall p: nat :: p < 4 && Edge(g, p, 1) ==> p == 3;
      assert Leads(g, 1, 3);
    }
  }
}
