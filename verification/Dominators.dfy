/** The iterative dominator tree of `DomTree` (Cooper, Harvey and Kennedy 2001):
    it terminates, and `dominates` is exactly dominance in the graph. */
module Dominators {
  import opened Graph

  /** The null `dominator` pointer of a node that was not visited yet. */
  const NULL := -1

  // ---------------------------------------------------------------------
  // Partial dominator trees: `dom[x]` is the parent of block `x`
  // ---------------------------------------------------------------------

  /** Blocks below `lim` have a parent with a smaller index; the others have none. */
  ghost predicate Tree(dom: seq<int>, lim: nat) {
    && 0 < lim <= |dom|
    && dom[0] == 0
    && (forall x :: 0 < x < lim ==> 0 <= dom[x] < x)
    && (forall x :: lim <= x < |dom| ==> dom[x] == NULL)
  }

  /** `z` is on the chain from `x` to the root. */
  ghost predicate Anc(dom: seq<int>, lim: nat, z: nat, x: nat)
    requires Tree(dom, lim) && x < lim
  {
    z == x || (x > 0 && Anc(dom, lim, z, dom[x]))
  }

  lemma AncBelow(dom: seq<int>, lim: nat, z: nat, x: nat)
    requires Tree(dom, lim) && x < lim && Anc(dom, lim, z, x)
    ensures z <= x
  {
  }

  lemma AncTrans(dom: seq<int>, lim: nat, a: nat, b: nat, c: nat)
    requires Tree(dom, lim) && b < lim && c < lim
    requires Anc(dom, lim, a, b) && Anc(dom, lim, b, c)
    ensures Anc(dom, lim, a, c)
  {
  }

  /** Two blocks on one chain are on each other's chain. */
  lemma AncLinear(dom: seq<int>, lim: nat, a: nat, b: nat, c: nat)
    requires Tree(dom, lim) && c < lim && b < lim && a <= b
    requires Anc(dom, lim, a, c) && Anc(dom, lim, b, c)
    ensures Anc(dom, lim, a, b)
  {
    if b != c {
      AncBelow(dom, lim, b, c);
      AncLinear(dom, lim, a, b, dom[c]);
    }
  }

  // ---------------------------------------------------------------------
  // Forward walks: edges that go to a later block of the order
  // ---------------------------------------------------------------------

  ghost predicate Forward(g: Cfg, y: nat, x: nat)
    decreases x
  {
    y == x || exists p :: ForwardStep(g, y, p, x) && Forward(g, y, p)
  }

  ghost predicate ForwardStep(g: Cfg, y: nat, p: nat, x: nat) {
    y <= p < x && Edge(g, p, x)
  }

  lemma ForwardTrans(g: Cfg, a: nat, b: nat, c: nat)
    requires Forward(g, a, b) && Forward(g, b, c) && a <= b <= c
    ensures Forward(g, a, c)
    decreases c
  {
    if b != c {
      var p :| ForwardStep(g, b, p, c) && Forward(g, b, p);
      ForwardTrans(g, a, b, p);
      assert ForwardStep(g, a, p, c);
    }
  }

  /** A forward walk from `v` avoids every block before `v`. */
  lemma DominatesForward(g: Cfg, d: nat, v: nat, c: nat)
    requires Forward(g, v, c) && d < v <= c < |g| && Dominates(g, d, c)
    ensures Dominates(g, d, v)
    decreases c
  {
    if v != c {
      var p :| ForwardStep(g, v, p, c) && Forward(g, v, p);
      DominatesPredecessor(g, d, p, c);
      DominatesForward(g, d, v, p);
    }
  }

  // ---------------------------------------------------------------------
  // The invariant of the sweeps
  // ---------------------------------------------------------------------

  /** `z` is on the chain of every visited predecessor of `x`. */
  ghost predicate Common(g: Cfg, dom: seq<int>, lim: nat, x: nat, z: nat)
    requires Tree(dom, lim)
  {
    forall p: nat :: p < lim && Edge(g, p, x) ==> Anc(dom, lim, z, p)
  }

  /** What holds while a sweep stands before block `v` and the blocks below
      `lim` have been visited at least once. */
  ghost predicate Inv(g: Cfg, dom: seq<int>, v: nat, lim: nat) {
    && Tree(dom, lim) && |dom| == |g| && v <= lim
       // a tree edge is witnessed by a forward walk of the graph
    && (forall x :: 0 < x < lim ==> Forward(g, dom[x], x))
       // blocks behind the sweep agree with their earlier predecessors
    && (forall x: nat, p: nat :: 0 < x < v && p < x && Edge(g, p, x) ==> Anc(dom, lim, dom[x], p))
       // recomputing a parent can only move it towards the root
    && (forall x: nat, z: nat :: 0 < x < lim && Common(g, dom, lim, x, z) ==> z <= dom[x])
       // chains contain all the true dominators
    && (forall x: nat, d: nat :: x < lim && Dominates(g, d, x) ==> Anc(dom, lim, d, x))
  }

  ghost predicate HasEarlier(g: Cfg, x: nat) {
    exists p: nat :: p < x && Edge(g, p, x)
  }

  /** What the block order must provide: the first block has no predecessor and
      every other block has an earlier one. */
  ghost predicate Ordered(g: Cfg) {
    && WellFormed(g)
    && (forall p: nat :: !Edge(g, p, 0))
    && (forall x: nat :: 0 < x < |g| ==> HasEarlier(g, x))
  }

  lemma AncForward(g: Cfg, dom: seq<int>, v: nat, lim: nat, z: nat, x: nat)
    requires Inv(g, dom, v, lim) && x < lim && Anc(dom, lim, z, x)
    ensures z <= x && Forward(g, z, x)
    decreases x
  {
    if z != x {
      AncForward(g, dom, v, lim, z, dom[x]);
      ForwardTrans(g, z, dom[x], x);
    }
  }

  /** Behind the sweep, chains are inherited along forward walks. */
  lemma AncAlongForward(g: Cfg, dom: seq<int>, v: nat, lim: nat, z: nat, y: nat, p: nat)
    requires Inv(g, dom, v, lim) && p < v && z <= y <= p
    requires Forward(g, y, p) && Anc(dom, lim, z, p)
    ensures Anc(dom, lim, z, y)
    decreases p
  {
    if y != p {
      var q :| ForwardStep(g, y, q, p) && Forward(g, y, q);
      AncTrans(dom, lim, z, dom[p], q);
      AncAlongForward(g, dom, v, lim, z, y, q);
    }
  }

  /** A recomputed parent is on the chain of the old one. */
  lemma NewParentAbove(g: Cfg, dom: seq<int>, v: nat, lim: nat, y: nat)
    requires Ordered(g) && Inv(g, dom, v, lim) && 0 < v < lim
    requires Common(g, dom, lim, v, y)
    ensures Anc(dom, lim, y, dom[v])
  {
    var p :| ForwardStep(g, dom[v], p, v) && Forward(g, dom[v], p);
    AncAlongForward(g, dom, v, lim, y, dom[v], p);
  }

  // Chains after the parent of `v` is set to `y`

  lemma AncUnaffected(dom: seq<int>, dom': seq<int>, lim: nat, lim': nat, v: nat, z: nat, c: nat)
    requires Tree(dom, lim) && Tree(dom', lim') && v <= lim && c < lim <= lim'
    requires |dom| == |dom'| && forall x :: 0 <= x < lim && x != v ==> dom'[x] == dom[x]
    requires c < v || z >= v || !Anc(dom, lim, v, c)
    ensures Anc(dom', lim', z, c) <==> Anc(dom, lim, z, c)
    decreases c
  {
    if c > 0 && c != v {
      AncUnaffected(dom, dom', lim, lim', v, z, dom[c]);
    } else if c == v && z != v {
      if Anc(dom, lim, z, c) { AncBelow(dom, lim, z, c); }
      if Anc(dom', lim', z, c) { AncBelow(dom', lim', z, c); }
    }
  }

  lemma AncShrinks(dom: seq<int>, dom': seq<int>, lim: nat, v: nat, z: nat, c: nat)
    requires Tree(dom, lim) && Tree(dom', lim) && 0 < v < lim && c < lim
    requires |dom| == |dom'| && forall x :: 0 <= x < lim && x != v ==> dom'[x] == dom[x]
    requires Anc(dom, lim, dom'[v], dom[v])
    requires Anc(dom', lim, z, c)
    ensures Anc(dom, lim, z, c)
    decreases c
  {
    if z != c {
      AncShrinks(dom, dom', lim, v, z, dom'[c]);
      if c == v {
        AncTrans(dom, lim, z, dom'[v], dom[v]);
      }
    }
  }

  lemma DominatorsKept(g: Cfg, dom: seq<int>, dom': seq<int>, v: nat, lim: nat, lim': nat, d: nat, c: nat)
    requires Ordered(g) && Inv(g, dom, v, lim) && 0 < v < |g|
    requires lim' == (if v < lim then lim else v + 1)
    requires Tree(dom', lim') && dom' == dom[v := dom'[v]] && c < lim'
    requires forall z: nat :: Common(g, dom, lim, v, z) ==> Anc(dom, lim, z, dom'[v])
    requires Dominates(g, d, c)
    ensures Anc(dom', lim', d, c)
  {
    if c == v {
      if d != v {
        forall p: nat | p < lim && Edge(g, p, v)
          ensures Anc(dom, lim, d, p)
        {
          DominatesPredecessor(g, d, p, v);
        }
        AncUnaffected(dom, dom', lim, lim', v, d, dom'[v]);
      }
    } else if c < v || d >= v || !Anc(dom, lim, v, c) {
      AncUnaffected(dom, dom', lim, lim', v, d, c);
    } else {
      AncForward(g, dom, v, lim, v, c);
      DominatesForward(g, d, v, c);
      DominatorsKept(g, dom, dom', v, lim, lim', d, v);
      AncUnaffected(dom, dom', lim, lim', v, v, c);
      AncTrans(dom', lim', d, v, c);
    }
  }

  /** One step of a sweep keeps the invariant and never moves a parent away from the root. */
  lemma StepKeepsInv(g: Cfg, dom: seq<int>, v: nat, lim: nat, y: nat) returns (lim': nat)
    requires Ordered(g) && Inv(g, dom, v, lim) && 0 < v < |g|
    requires y < v && Common(g, dom, lim, v, y)
    requires forall z: nat :: Common(g, dom, lim, v, z) ==> Anc(dom, lim, z, y)
    ensures lim' == (if v < lim then lim else v + 1)
    ensures Inv(g, dom[v := y], v + 1, lim')
    ensures v < lim ==> y <= dom[v]
  {
    lim' := if v < lim then lim else v + 1;
    var dom' := dom[v := y];
    if v < lim {
      NewParentAbove(g, dom, v, lim, y);
      AncBelow(dom, lim, y, dom[v]);
    }
    assert Tree(dom', lim');
    // a forward walk witnesses the new tree edge
    assert HasEarlier(g, v);
    var f: nat :| f < v && Edge(g, f, v);
    AncForward(g, dom, v, lim, y, f);
    assert ForwardStep(g, y, f, v);
    forall x: nat, p: nat | 0 < x < v + 1 && p < x && Edge(g, p, x)
      ensures Anc(dom', lim', dom'[x], p)
    {
      AncUnaffected(dom, dom', lim, lim', v, dom'[x], p);
    }
    forall x: nat, z: nat | 0 < x < lim' && Common(g, dom', lim', x, z)
      ensures z <= dom'[x]
    {
      forall p: nat | p < lim && Edge(g, p, x)
        ensures Anc(dom, lim, z, p)
      {
        if v < lim { AncShrinks(dom, dom', lim, v, z, p); }
        else { AncUnaffected(dom, dom', lim, lim', v, z, p); }
      }
      assert Common(g, dom, lim, x, z);
      if x == v { AncBelow(dom, lim, z, y); }
    }
    forall x: nat, d: nat | x < lim' && Dominates(g, d, x)
      ensures Anc(dom', lim', d, x)
    {
      DominatorsKept(g, dom, dom', v, lim, lim', d, x);
    }
  }

  // ---------------------------------------------------------------------
  // The fixpoint is exact
  // ---------------------------------------------------------------------

  /** Every parent is on the chain of every predecessor. */
  ghost predicate Stable(g: Cfg, dom: seq<int>, v: nat)
    requires Tree(dom, |dom|) && |dom| == |g|
  {
    forall x: nat, p: nat :: 0 < x < v && x < |g| && p < |g| && Edge(g, p, x) ==> Anc(dom, |dom|, dom[x], p)
  }

  lemma {:induction false} StableChainOnWalk(g: Cfg, dom: seq<int>, a: nat, x: nat, p: seq<nat>)
    requires Ordered(g) && Tree(dom, |dom|) && |dom| == |g| && Stable(g, dom, |g|)
    requires WalkFromTo(g, 0, x, p) && Anc(dom, |dom|, a, x)
    ensures a in p
    decreases |p|
  {
    if a != x {
      if |p| > 1 {
        var q := p[|p| - 2];
        assert Edge(g, q, p[|p| - 2 + 1]);
        AncTrans(dom, |dom|, a, dom[x], q);
        assert WalkFromTo(g, 0, q, p[..|p| - 1]);
        StableChainOnWalk(g, dom, a, q, p[..|p| - 1]);
      }
    }
  }

  /** A stable tree that still contains all dominators is exact. */
  lemma StableIsExact(g: Cfg, dom: seq<int>, v: nat)
    requires Ordered(g) && Inv(g, dom, v, |g|) && Stable(g, dom, |g|)
    ensures forall a: nat, b: nat :: b < |g| ==> (Anc(dom, |g|, a, b) <==> Dominates(g, a, b))
  {
    forall a: nat, b: nat | b < |g| && Anc(dom, |g|, a, b)
      ensures Dominates(g, a, b)
    {
      forall p | WalkFromTo(g, 0, b, p)
        ensures a in p
      {
        StableChainOnWalk(g, dom, a, b, p);
      }
    }
  }

  /** Sum of the parent indices; an unvisited block counts `|g|`. */
  ghost function Weight(dom: seq<int>): (w: nat)
    requires forall i :: 0 <= i < |dom| ==> NULL <= dom[i]
    decreases |dom|
  {
    if dom == [] then 0
    else Weight(dom[..|dom| - 1]) + (if dom[|dom| - 1] == NULL then |dom| else dom[|dom| - 1])
  }

  lemma WeightDrops(dom: seq<int>, v: nat, y: nat)
    requires v < |dom| && forall i :: 0 <= i < |dom| ==> NULL <= dom[i]
    requires y <= v && (dom[v] == NULL || y < dom[v])
    ensures Weight(dom[v := y]) < Weight(dom)
    decreases |dom|
  {
    var last := |dom| - 1;
    if v == last {
      assert dom[v := y][..last] == dom[..last];
    } else {
      WeightDrops(dom[..last], v, y);
      assert dom[v := y][..last] == dom[..last][v := y];
    }
  }

  // ---------------------------------------------------------------------
  // The analysis
  // ---------------------------------------------------------------------

  class DomTree {
    const g: Cfg
    var preds: array<seq<nat>>
    var dominator: array<int>

    ghost predicate Shape()
      reads this
    {
      preds.Length == |g| + 1 && dominator.Length == |g|
    }

    /** `preds[t]` lists the sources of the edges into `t`, in block order. */
    ghost predicate PredsOk()
      reads this, preds
      requires Shape()
    {
      && (forall t: nat, p: nat :: 0 <= t <= |g| ==> (p in preds[t] <==> Edge(g, p, t)))
      && (forall t: nat, i: nat, j: nat :: 0 <= t <= |g| && 0 <= i <= j < |preds[t]| ==> preds[t][i] <= preds[t][j])
    }

    /** The finished tree answers dominance exactly. */
    ghost predicate Valid()
      reads this, preds, dominator
    {
      && Shape() && PredsOk() && Ordered(g)
      && Tree(dominator[..], |g|)
      && forall a: nat, b: nat :: b < |g| ==> (Anc(dominator[..], |g|, a, b) <==> Dominates(g, a, b))
    }

    /** Position used by `intersect`: later blocks have smaller numbers. */
    function Order(b: nat): int { |g| - b }

    constructor (g0: Cfg)
      requires Ordered(g0)
      ensures g == g0 && Valid() && fresh(preds) && fresh(dominator)
    {
      g := g0;
      preds := new seq<nat>[|g0| + 1](i => []);
      dominator := new int[|g0|](i => NULL);
      new;
      BuildPredecessors();
      BuildDominators();
    }

    method BuildPredecessors()
      requires Shape() && WellFormed(g) && forall t :: 0 <= t <= |g| ==> preds[t] == []
      modifies preds
      ensures PredsOk()
    {
      for src := 0 to |g|
        invariant forall t: nat, p: nat :: 0 <= t <= |g| ==> (p in preds[t] <==> p < src && Edge(g, p, t))
        invariant forall t: nat, i: nat, j: nat :: 0 <= t <= |g| && 0 <= i <= j < |preds[t]| ==> preds[t][i] <= preds[t][j]
      {
        for k := 0 to |g[src]|
          invariant forall t: nat, p: nat :: 0 <= t <= |g| ==>
            (p in preds[t] <==> (p < src && Edge(g, p, t)) || (p == src && t in g[src][..k]))
          invariant forall t: nat, i: nat, j: nat :: 0 <= t <= |g| && 0 <= i <= j < |preds[t]| ==> preds[t][i] <= preds[t][j]
        {
          var tgt := g[src][k];
          assert forall i :: 0 <= i < |preds[tgt]| ==> preds[tgt][i] in preds[tgt];
          preds[tgt] := preds[tgt] + [src];
        }
      }
    }

    /** The latest block on both chains. */
    method Intersect(b1: nat, b2: nat, ghost lim: nat) returns (f1: nat)
      requires Shape() && Tree(dominator[..], lim) && b1 < lim && b2 < lim
      ensures f1 <= b1 && f1 <= b2
      ensures forall z: nat :: Anc(dominator[..], lim, z, f1)
                     <==> Anc(dominator[..], lim, z, b1) && Anc(dominator[..], lim, z, b2)
    {
      ghost var dom := dominator[..];
      f1 := b1;
      var f2: nat := b2;
      while Order(f1) != Order(f2)
        invariant f1 <= b1 && f2 <= b2
        invariant Anc(dom, lim, f1, b1) && Anc(dom, lim, f2, b2)
        invariant forall z: nat :: Anc(dom, lim, z, b1) && Anc(dom, lim, z, b2)
                         ==> Anc(dom, lim, z, f1) && Anc(dom, lim, z, f2)
        decreases f1 + f2
      {
        ghost var d1, d2 := f1, f2;
        while Order(f1) < Order(f2)
          invariant f1 <= d1
          invariant Anc(dom, lim, f1, b1)
          invariant forall z: nat :: Anc(dom, lim, z, b1) && Anc(dom, lim, z, b2)
                           ==> Anc(dom, lim, z, f1) && Anc(dom, lim, z, f2)
          invariant f1 == d1 ==> f1 > f2 || f1 < f2
          decreases f1
        {
          forall z: nat | Anc(dom, lim, z, b1) && Anc(dom, lim, z, b2)
            ensures Anc(dom, lim, z, dom[f1])
          {
            AncBelow(dom, lim, z, f2);
          }
          AncTrans(dom, lim, dom[f1], f1, b1);
          f1 := dominator[f1];
        }
        while Order(f2) < Order(f1)
          invariant f1 <= d1 && f2 <= d2
          invariant Anc(dom, lim, f2, b2)
          invariant forall z: nat :: Anc(dom, lim, z, b1) && Anc(dom, lim, z, b2)
                           ==> Anc(dom, lim, z, f1) && Anc(dom, lim, z, f2)
          invariant f1 == d1 && f2 == d2 ==> f1 < f2
          decreases f2
        {
          forall z: nat | Anc(dom, lim, z, b1) && Anc(dom, lim, z, b2)
            ensures Anc(dom, lim, z, dom[f2])
          {
            AncBelow(dom, lim, z, f1);
          }
          AncTrans(dom, lim, dom[f2], f2, b2);
          f2 := dominator[f2];
        }
      }
      forall z: nat | Anc(dom, lim, z, f1)
        ensures Anc(dom, lim, z, b1) && Anc(dom, lim, z, b2)
      {
        AncTrans(dom, lim, z, f1, b1);
        AncTrans(dom, lim, z, f1, b2);
      }
    }

    /** Folds `intersect` over the visited predecessors of `b`, starting from the first one. */
    method CommonParent(b: nat, ghost lim: nat) returns (newIdom: nat)
      requires Shape() && PredsOk() && Ordered(g) && 0 < b < |g| && b <= lim
      requires Tree(dominator[..], lim)
      ensures newIdom < b
      ensures forall z: nat :: Common(g, dominator[..], lim, b, z) <==> Anc(dominator[..], lim, z, newIdom)
    {
      ghost var dom := dominator[..];
      var ps := preds[b];
      assert HasEarlier(g, b);
      ghost var f: nat :| f < b && Edge(g, f, b);
      assert f in ps;
      newIdom := ps[0];
      for i := 0 to |ps|
        invariant newIdom < b
        invariant forall z: nat :: Anc(dom, lim, z, newIdom) <==>
          Anc(dom, lim, z, ps[0]) && (forall j :: 0 <= j < i && ps[j] < lim ==> Anc(dom, lim, z, ps[j]))
      {
        assert ps[i] in ps;
        if dominator[ps[i]] != NULL {
          newIdom := Intersect(ps[i], newIdom, lim);
        }
      }
      forall z: nat
        ensures Common(g, dom, lim, b, z) <==> Anc(dom, lim, z, newIdom)
      {
        if Anc(dom, lim, z, newIdom) {
          forall p: nat | p < lim && Edge(g, p, b)
            ensures Anc(dom, lim, z, p)
          {
            assert p in ps;
          }
        }
      }
    }

    lemma OnlyEntryLacksPreds(b: nat)
      requires Shape() && PredsOk() && Ordered(g) && b < |g|
      ensures preds[b] == [] <==> b == 0
    {
      if preds[b] != [] { assert preds[b][0] in preds[b]; }
      if b > 0 {
        assert HasEarlier(g, b);
        var f: nat :| f < b && Edge(g, f, b);
        assert f in preds[b];
      }
    }

    /** One pass over the blocks; reports whether a parent changed. */
    method Sweep(ghost lim0: nat) returns (changed: bool)
      requires Shape() && PredsOk() && Ordered(g)
      requires Inv(g, dominator[..], 0, lim0)
      modifies dominator
      ensures Inv(g, dominator[..], |g|, |g|)
      ensures changed ==> Weight(dominator[..]) < Weight(old(dominator[..]))
      ensures !changed ==> Stable(g, dominator[..], |g|)
    {
      changed := false;
      ghost var lim: nat := lim0;
      ghost var start := dominator[..];
      for b := 0 to |g|
        invariant Inv(g, dominator[..], b, lim)
        invariant !changed ==> dominator[..] == start && lim == lim0
        invariant !changed && lim == |g| ==> Stable(g, dominator[..], b)
        invariant changed ==> Weight(dominator[..]) < Weight(start)
        invariant b <= lim
      {
        OnlyEntryLacksPreds(b);
        if preds[b] == [] {
          continue;
        }
        var newIdom := CommonParent(b, lim);
        ghost var dom := dominator[..];
        ghost var lim' := StepKeepsInv(g, dom, b, lim, newIdom);
        if dominator[b] != newIdom {
          WeightDrops(dom, b, newIdom);
          dominator[b] := newIdom;
          changed := true;
          assert dominator[..] == dom[b := newIdom];
        } else {
          assert dom[b := newIdom] == dom;
        }
        lim := lim';
      }
    }

    method BuildDominators()
      requires Shape() && PredsOk() && Ordered(g)
      requires forall b :: 0 <= b < |g| ==> dominator[b] == NULL
      modifies dominator
      ensures Valid()
    {
      dominator[0] := 0;
      ghost var lim: nat := 1;
      InitialInv(g, dominator[..]);
      var changed := true;
      while changed
        invariant Inv(g, dominator[..], 0, lim)
        invariant !changed ==> lim == |g| && Stable(g, dominator[..], |g|)
        decreases changed, Weight(dominator[..])
      {
        changed := Sweep(lim);
        lim := |g|;
      }
      StableIsExact(g, dominator[..], 0);
    }

    /** `a` dominates `b`. */
    method DominatesQuery(a: nat, b: nat) returns (r: bool)
      requires Valid() && a < |g| && b < |g|
      ensures r <==> Dominates(g, a, b)
    {
      ghost var dom := dominator[..];
      var x: nat := b;
      while true
        invariant x < |g|
        invariant Anc(dom, |g|, a, b) <==> Anc(dom, |g|, a, x)
        decreases x
      {
        if x == a { return true; }
        if x == dominator[x] { break; }
        x := dominator[x];
      }
      r := false;
    }

    /** The immediate dominator: the strict dominator that all strict dominators dominate. */
    method GetIDominator(b: nat) returns (d: nat)
      requires Valid() && 0 < b < |g|
      ensures d != b && Dominates(g, d, b)
      ensures forall z: nat :: z != b && Dominates(g, z, b) ==> Dominates(g, z, d)
    {
      ghost var dom := dominator[..];
      d := dominator[b];
      assert Anc(dom, |g|, d, b);
      forall z: nat | z != b && Dominates(g, z, b)
        ensures Dominates(g, z, d)
      {
        assert Anc(dom, |g|, z, b);
        assert Anc(dom, |g|, z, d);
      }
    }
  }

  lemma InitialInv(g: Cfg, dom: seq<int>)
    requires Ordered(g) && |dom| == |g| && Tree(dom, 1)
    ensures Inv(g, dom, 0, 1)
  {
    forall x: nat, d: nat | x < 1 && Dominates(g, d, x)
      ensures Anc(dom, 1, d, x)
    {
      assert WalkFromTo(g, 0, 0, [0]);
      assert d in [0];
    }
  }
}
