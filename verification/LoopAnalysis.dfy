/** `LoopAnalysis::run`: the Tarjan-Havlak loop forest. */
module LoopAnalysis {
  import opened Graph
  import opened SpanningTree
  import opened LoopNesting
  import opened UnionFinds

  // ---------------------------------------------------------------------
  // Classes of collapsed nodes
  // ---------------------------------------------------------------------

  /** The nodes collapsed into `r`. */
  ghost function Class(f: Flow, rep: seq<nat>, r: nat): set<nat>
    requires |f.par| <= |rep|
  {
    set u | u in Range(|f.par|) && u < |rep| && rep[u] == r
  }

  /** The nodes collapsed into `w` or one of `ps`. */
  ghost function Region(f: Flow, rep: seq<nat>, ps: set<nat>, w: nat): set<nat>
    requires |f.par| <= |rep|
  {
    set u | u in Range(|f.par|) && u < |rep| && (rep[u] in ps || rep[u] == w)
  }

  /** The partition after `ps` joined `w`. */
  ghost function Collapse(rep: seq<nat>, ps: set<nat>, w: nat): seq<nat> {
    seq(|rep|, u requires 0 <= u < |rep| => if rep[u] in ps then w else rep[u])
  }

  /** An edge leads from the class of `y` to the class of `x`. */
  ghost predicate Linked(f: Flow, rep: seq<nat>, y: nat, x: nat)
    requires FlowOk(f) && |f.par| <= |rep| && y < |rep| && x < |rep|
  {
    exists a, b :: LinkBy(f, rep, y, x, a, b)
  }

  ghost predicate LinkBy(f: Flow, rep: seq<nat>, y: nat, x: nat, a: nat, b: nat)
    requires FlowOk(f) && |f.par| <= |rep| && y < |rep| && x < |rep|
  {
    b < |f.par| && a in f.preds[b] && rep[a] == rep[y] && rep[b] == rep[x]
  }

  /** The edge from `a` to `b` goes into a header that is yet to come, or is
      accounted for among the other predecessors of the class of `b`. */
  ghost predicate EdgeKnown(f: Flow, rep: seq<nat>, nbp: seq<set<nat>>, next: nat, a: nat, b: nat)
    requires FlowOk(f) && |f.par| <= |rep| == |nbp| && Partition(rep) && a < |f.par| && b < |f.par|
  {
    || rep[a] == rep[b]
    || (b == rep[b] && b < next && Anc(f.par, b, a))
    || ListsClass(rep, nbp[rep[b]], rep[a])
  }

  ghost predicate ListsClass(rep: seq<nat>, ys: set<nat>, r: nat) {
    exists y :: y in ys && y < |rep| && rep[y] == r
  }

  // ---------------------------------------------------------------------
  // The invariant: all numbers from `next` on have been processed
  // ---------------------------------------------------------------------

  ghost predicate Shape(f: Flow, rep: seq<nat>, header: seq<nat>, nbp: seq<set<nat>>, next: nat) {
    && FlowOk(f) && |f.par| <= |rep| == |header| == |nbp| && Partition(rep)
    && HeadersOk(header, next) && HeadersOk(header, 0)
    && (forall u :: 0 <= u < |rep| ==> rep[u] == Top(header, u))
    && (forall x, y :: 0 <= x < |nbp| && y in nbp[x] ==> y < |f.par|)
  }

  /** Classes: below their representative, closed under tree parents, leading back to it. */
  ghost predicate ClassOk(f: Flow, rep: seq<nat>, u: nat)
    requires FlowOk(f) && |f.par| <= |rep| && u < |f.par|
  {
    && Anc(f.par, rep[u], u)
    && (rep[u] != u ==> rep[f.par[u]] == rep[u])
    && Reach(f, Class(f, rep, rep[u]), u, rep[u])
  }

  ghost predicate ClassesOk(f: Flow, rep: seq<nat>)
    requires FlowOk(f) && |f.par| <= |rep|
  {
    forall u {:trigger ClassOk(f, rep, u)} :: 0 <= u < |f.par| ==> ClassOk(f, rep, u)
  }

  ghost predicate PredsSound(f: Flow, rep: seq<nat>, nbp: seq<set<nat>>)
    requires FlowOk(f) && |f.par| <= |rep| == |nbp| && (forall x, y :: 0 <= x < |nbp| && y in nbp[x] ==> y < |f.par|)
  {
    forall x, y {:trigger Linked(f, rep, y, x)} :: 0 <= x < |nbp| && y in nbp[x] ==> Linked(f, rep, y, x)
  }

  ghost predicate PredsComplete(f: Flow, rep: seq<nat>, nbp: seq<set<nat>>, next: nat)
    requires FlowOk(f) && |f.par| <= |rep| == |nbp| && Partition(rep)
  {
    forall a, b {:trigger EdgeKnown(f, rep, nbp, next, a, b)} ::
      0 <= b < |f.par| && a in f.preds[b] ==> EdgeKnown(f, rep, nbp, next, a, b)
  }

  ghost predicate LoopsDone(f: Flow, header: seq<nat>, types: seq<NodeType>, next: nat)
    requires FlowOk(f) && HeadersOk(header, 0) && |f.par| <= |header| == |types|
  {
    forall v {:trigger LoopDone(f, header, types, v)} :: next <= v < |f.par| ==> LoopDone(f, header, types, v)
  }

  ghost predicate LoopDone(f: Flow, header: seq<nat>, types: seq<NodeType>, v: nat)
    requires FlowOk(f) && HeadersOk(header, 0) && |f.par| <= |header| == |types| && v < |f.par|
  {
    LoopOk(f, v, Body(f, header, v), types[v])
  }

  ghost predicate Inv(f: Flow, rep: seq<nat>, header: seq<nat>, types: seq<NodeType>, nbp: seq<set<nat>>, next: nat) {
    && Shape(f, rep, header, nbp, next) && |types| == |header|
    && ClassesOk(f, rep) && PredsSound(f, rep, nbp) && PredsComplete(f, rep, nbp, next)
    && LoopsDone(f, header, types, next)
  }

  // ---------------------------------------------------------------------
  // What the body search finds
  // ---------------------------------------------------------------------

  ghost predicate InSubtree(f: Flow, rep: seq<nat>, w: nat, y: nat)
    requires FlowOk(f) && |f.par| <= |rep| && y < |f.par|
  {
    rep[y] < |f.par| && Anc(f.par, w, rep[y])
  }

  /** A collapsed node that belongs to the loop of `w`. */
  ghost predicate Member(f: Flow, rep: seq<nat>, ps: set<nat>, w: nat, x: nat)
    requires FlowOk(f) && |f.par| <= |rep|
  {
    x < |f.par| && rep[x] == x && x != w && Anc(f.par, w, x) && Reach(f, Region(f, rep, ps, w), x, w)
  }

  /** Predecessor `y` of a member is a member, the header, or noted as a side entry. */
  ghost predicate Treated(f: Flow, rep: seq<nat>, ps: set<nat>, w: nat, ys: set<nat>, y: nat)
    requires FlowOk(f) && |f.par| <= |rep| && y < |f.par|
  {
    if InSubtree(f, rep, w, y) then rep[y] in ps || rep[y] == w else rep[y] in ys
  }

  /** `yy` is a predecessor of a member that is not in the subtree of `w`. */
  ghost predicate SideClass(f: Flow, rep: seq<nat>, ps: set<nat>, w: nat, nbp: seq<set<nat>>, yy: nat)
    requires FlowOk(f) && |f.par| <= |rep| == |nbp|
  {
    && yy < |f.par| && rep[yy] == yy && !Anc(f.par, w, yy)
    && exists x, y :: x in ps && x < |nbp| && y in nbp[x] && y < |f.par| && rep[y] == yy
  }

  /** The search for the body of `w` is done with the members `ps`, the header's
      other predecessors `ys` and type `t`. */
  ghost predicate Found(f: Flow, rep: seq<nat>, nbp: seq<set<nat>>, w: nat, ps: set<nat>, ys: set<nat>, t: NodeType)
    requires FlowOk(f) && |f.par| <= |rep| == |nbp| && w < |f.par|
    requires forall x, y :: 0 <= x < |nbp| && y in nbp[x] ==> y < |f.par|
  {
    && (forall x {:trigger Member(f, rep, ps, w, x)} :: x in ps ==> Member(f, rep, ps, w, x))
    && (forall v: nat {:trigger IsBack(f, v, w)} :: IsBack(f, v, w) && v != w ==> v < |rep| && rep[v] in ps)
    && (ps != {} ==> exists v :: IsBack(f, v, w) && v != w)
    && (forall x, y {:trigger Treated(f, rep, ps, w, ys, y), nbp[x]} :: x in ps && x < |nbp| && y in nbp[x] ==> Treated(f, rep, ps, w, ys, y))
    && nbp[w] <= ys
    && (forall yy {:trigger SideClass(f, rep, ps, w, nbp, yy)} :: yy in ys && yy !in nbp[w] ==> SideClass(f, rep, ps, w, nbp, yy))
    && (ps == {} ==> t == if IsBack(f, w, w) then SelfLoop else NonHeader)
    && (ps != {} ==> t == Reducible || t == Irreducible)
    && (t == Irreducible ==> exists yy :: SideClass(f, rep, ps, w, nbp, yy))
    && (t == Reducible ==> forall x, y :: x in ps && x < |nbp| && y in nbp[x] ==> InSubtree(f, rep, w, y))
  }

  // ---------------------------------------------------------------------
  // One header: the invariant goes from `w + 1` to `w`
  // ---------------------------------------------------------------------

  /** Collapsed nodes are the numbers already processed. */
  lemma RepLarge(f: Flow, rep: seq<nat>, header: seq<nat>, nbp: seq<set<nat>>, next: nat, u: nat)
    requires Shape(f, rep, header, nbp, next) && u < |rep|
    ensures rep[u] == u || rep[u] >= next
  {
    TopLarge(header, next, u);
  }

  /** The next header is still alone. */
  lemma HeaderAlone(f: Flow, rep: seq<nat>, header: seq<nat>, nbp: seq<set<nat>>, w: nat)
    requires Shape(f, rep, header, nbp, w + 1) && ClassesOk(f, rep) && w < |f.par|
    ensures rep[w] == w && header[w] == 0
    ensures forall u: nat :: u < |rep| && rep[u] == w ==> u == w
  {
    RepLarge(f, rep, header, nbp, w + 1, w);
    assert ClassOk(f, rep, w);
    AncBelow(f.par, rep[w], w);
    forall u: nat | u < |rep| && rep[u] == w ensures u == w { RepLarge(f, rep, header, nbp, w + 1, u); }
  }

  /** A node is in the subtree of the next header exactly if its representative is. */
  lemma SubtreeSame(f: Flow, rep: seq<nat>, header: seq<nat>, nbp: seq<set<nat>>, w: nat, a: nat)
    requires Shape(f, rep, header, nbp, w + 1) && ClassesOk(f, rep) && a < |f.par|
    ensures InSubtree(f, rep, w, a) <==> Anc(f.par, w, a)
  {
    assert ClassOk(f, rep, a);
    AncBelow(f.par, rep[a], a);
    if Anc(f.par, w, a) {
      RepLarge(f, rep, header, nbp, w + 1, a);
      AncBelow(f.par, w, a);
      AncChain(f.par, w, rep[a], a);
    } else if Anc(f.par, w, rep[a]) {
      AncTrans(f.par, w, rep[a], a);
    }
  }

  /** An edge into a member from outside its class starts at a listed predecessor. */
  lemma MemberEdge(f: Flow, rep: seq<nat>, header: seq<nat>, nbp: seq<set<nat>>, w: nat, ps: set<nat>, ys: set<nat>, t: NodeType,
                   a: nat, b: nat) returns (y: nat)
    requires Shape(f, rep, header, nbp, w + 1) && PredsComplete(f, rep, nbp, w + 1) && w < |f.par|
    requires Found(f, rep, nbp, w, ps, ys, t)
    requires b < |f.par| && a in f.preds[b] && rep[b] in ps && rep[a] != rep[b]
    ensures y in nbp[rep[b]] && y < |f.par| && rep[y] == rep[a] && Treated(f, rep, ps, w, ys, y)
  {
    assert Member(f, rep, ps, w, rep[b]);
    AncBelow(f.par, w, rep[b]);
    assert EdgeKnown(f, rep, nbp, w + 1, a, b);
    y :| y in nbp[rep[b]] && y < |rep| && rep[y] == rep[a];
  }

  /** So it starts in the loop, or it is a side entry. */
  lemma MemberEdgeFrom(f: Flow, rep: seq<nat>, header: seq<nat>, nbp: seq<set<nat>>, w: nat, ps: set<nat>, ys: set<nat>, t: NodeType,
                       a: nat, b: nat)
    requires Shape(f, rep, header, nbp, w + 1) && ClassesOk(f, rep) && PredsComplete(f, rep, nbp, w + 1) && w < |f.par|
    requires Found(f, rep, nbp, w, ps, ys, t)
    requires b < |f.par| && a in f.preds[b] && rep[b] in ps
    ensures if Anc(f.par, w, a) then rep[a] in ps || rep[a] == w else ListsClass(rep, ys, rep[a])
    ensures t == Reducible ==> Anc(f.par, w, a)
  {
    SubtreeSame(f, rep, header, nbp, w, a);
    if rep[a] != rep[b] {
      var y := MemberEdge(f, rep, header, nbp, w, ps, ys, t, a, b);
      SubtreeSame(f, rep, header, nbp, w, y);
      if !InSubtree(f, rep, w, a) { assert rep[a] in ys && rep[rep[a]] == rep[a]; }
    } else {
      assert Member(f, rep, ps, w, rep[b]);
    }
  }

  lemma HeaderOut(f: Flow, rep: seq<nat>, nbp: seq<set<nat>>, w: nat, ps: set<nat>, ys: set<nat>, t: NodeType)
    requires FlowOk(f) && |f.par| <= |rep| == |nbp| && w < |f.par|
    requires forall x, y :: 0 <= x < |nbp| && y in nbp[x] ==> y < |f.par|
    requires Found(f, rep, nbp, w, ps, ys, t)
    ensures w !in ps
  {
    assert w in ps ==> Member(f, rep, ps, w, w);
  }

  lemma CollapsedRegion(f: Flow, rep: seq<nat>, ps: set<nat>, w: nat)
    requires |f.par| <= |rep|
    ensures Class(f, Collapse(rep, ps, w), w) == Region(f, rep, ps, w)
  {
  }

  lemma CollapsedPartition(f: Flow, rep: seq<nat>, nbp: seq<set<nat>>, w: nat, ps: set<nat>)
    requires Partition(rep) && w < |rep| && rep[w] == w && w !in ps
    ensures Partition(Collapse(rep, ps, w))
  {
  }

  lemma ShapeStep(f: Flow, rep: seq<nat>, header: seq<nat>, nbp: seq<set<nat>>, w: nat, ps: set<nat>, ys: set<nat>, t: NodeType,
                  header': seq<nat>)
    requires Shape(f, rep, header, nbp, w + 1) && ClassesOk(f, rep) && w < |f.par|
    requires Found(f, rep, nbp, w, ps, ys, t) && Adds(header, header', ps, w)
    requires forall y :: y in ys ==> y < |f.par|
    ensures Shape(f, Collapse(rep, ps, w), header', nbp[w := ys], w)
  {
    HeaderAlone(f, rep, header, nbp, w);
    HeaderOut(f, rep, nbp, w, ps, ys, t);
    CollapsedPartition(f, rep, nbp, w, ps);
    forall x | 0 <= x < |header'| && header'[x] != 0
      ensures w <= header'[x] < x
    {
      if x in ps { assert Member(f, rep, ps, w, x); AncBelow(f.par, w, x); }
    }
    forall u | 0 <= u < |rep|
      ensures Collapse(rep, ps, w)[u] == Top(header', u)
    {
      if ps == {} {
        assert header' == header;
      } else {
        AddsTop(header, header', ps, w, u);
      }
    }
  }

  lemma ParentInLoop(f: Flow, rep: seq<nat>, header: seq<nat>, nbp: seq<set<nat>>, w: nat, ps: set<nat>, ys: set<nat>, t: NodeType, u: nat)
    requires Shape(f, rep, header, nbp, w + 1) && ClassesOk(f, rep) && PredsComplete(f, rep, nbp, w + 1) && w < |f.par|
    requires Found(f, rep, nbp, w, ps, ys, t) && u in ps
    ensures 0 < u < |f.par| && (rep[f.par[u]] in ps || rep[f.par[u]] == w)
  {
    assert Member(f, rep, ps, w, u);
    AncBelow(f.par, w, u);
    MemberEdgeFrom(f, rep, header, nbp, w, ps, ys, t, f.par[u], u);
  }

  lemma ClassStep(f: Flow, rep: seq<nat>, header: seq<nat>, nbp: seq<set<nat>>, w: nat, ps: set<nat>, ys: set<nat>, t: NodeType, u: nat)
    requires Shape(f, rep, header, nbp, w + 1) && ClassesOk(f, rep) && PredsComplete(f, rep, nbp, w + 1) && w < |f.par|
    requires Found(f, rep, nbp, w, ps, ys, t) && u < |f.par|
    ensures ClassOk(f, Collapse(rep, ps, w), u)
  {
    var now := Collapse(rep, ps, w);
    HeaderAlone(f, rep, header, nbp, w);
    CollapsedRegion(f, rep, ps, w);
    assert ClassOk(f, rep, u);
    var x := rep[u];
    if x in ps {
      assert Member(f, rep, ps, w, x);
      AncTrans(f.par, w, x, u);
      if u == x { ParentInLoop(f, rep, header, nbp, w, ps, ys, t, u); }
      ReachMore(f, Class(f, rep, x), Region(f, rep, ps, w), u, x);
      ReachTrans(f, Region(f, rep, ps, w), u, x, w);
    } else {
      ReachMore(f, Class(f, rep, x), Class(f, now, x), u, x);
    }
  }

  lemma SoundStep(f: Flow, rep: seq<nat>, header: seq<nat>, nbp: seq<set<nat>>, w: nat, ps: set<nat>, ys: set<nat>, t: NodeType)
    requires Shape(f, rep, header, nbp, w + 1) && ClassesOk(f, rep) && PredsSound(f, rep, nbp) && w < |f.par|
    requires Found(f, rep, nbp, w, ps, ys, t) && (forall y :: y in ys ==> y < |f.par|)
    ensures PredsSound(f, Collapse(rep, ps, w), nbp[w := ys])
  {
    var now := Collapse(rep, ps, w);
    HeaderAlone(f, rep, header, nbp, w);
    forall x: nat, y: nat | x < |nbp| && y in nbp[w := ys][x]
      ensures Linked(f, now, y, x)
    {
      if x == w && y !in nbp[w] {
        assert SideClass(f, rep, ps, w, nbp, y);
        var x0, y0 :| x0 in ps && x0 < |nbp| && y0 in nbp[x0] && y0 < |f.par| && rep[y0] == y;
        assert Linked(f, rep, y0, x0);
        assert Member(f, rep, ps, w, x0);
        var a, b :| LinkBy(f, rep, y0, x0, a, b);
        assert LinkBy(f, now, y, x, a, b);
      } else {
        assert Linked(f, rep, y, x);
        var a, b :| LinkBy(f, rep, y, x, a, b);
        assert LinkBy(f, now, y, x, a, b);
      }
    }
  }

  lemma CompleteStep(f: Flow, rep: seq<nat>, header: seq<nat>, nbp: seq<set<nat>>, w: nat, ps: set<nat>, ys: set<nat>, t: NodeType,
                     a: nat, b: nat)
    requires Shape(f, rep, header, nbp, w + 1) && ClassesOk(f, rep) && PredsComplete(f, rep, nbp, w + 1) && w < |f.par|
    requires Found(f, rep, nbp, w, ps, ys, t) && Partition(Collapse(rep, ps, w))
    requires b < |f.par| && a in f.preds[b]
    ensures EdgeKnown(f, Collapse(rep, ps, w), nbp[w := ys], w, a, b)
  {
    var now := Collapse(rep, ps, w);
    HeaderAlone(f, rep, header, nbp, w);
    if now[a] != now[b] {
      if rep[b] in ps {
        MemberEdgeFrom(f, rep, header, nbp, w, ps, ys, t, a, b);
        CollapseLists(rep, ps, w, ys, rep[a]);
      } else {
        assert EdgeKnown(f, rep, nbp, w + 1, a, b);
        if ListsClass(rep, nbp[rep[b]], rep[a]) {
          CollapseLists(rep, ps, w, nbp[rep[b]], rep[a]);
          var y :| y in nbp[rep[b]] && y < |now| && now[y] == now[a];
          assert y in nbp[w := ys][now[b]];
        } else {
          assert b == w ==> IsBack(f, a, w);
        }
      }
    }
  }

  lemma CollapseLists(rep: seq<nat>, ps: set<nat>, w: nat, ys: set<nat>, r: nat)
    requires ListsClass(rep, ys, r)
    ensures ListsClass(Collapse(rep, ps, w), ys, if r in ps then w else r)
  {
    var y :| y in ys && y < |rep| && rep[y] == r;
    assert Collapse(rep, ps, w)[y] == if r in ps then w else r;
  }

  // ---------------------------------------------------------------------
  // The loop that was found
  // ---------------------------------------------------------------------

  lemma NewBody(f: Flow, rep: seq<nat>, header: seq<nat>, nbp: seq<set<nat>>, w: nat)
    requires Shape(f, rep, header, nbp, w) && w < |f.par| && header[w] == 0
    ensures Body(f, header, w) == Class(f, rep, w)
  {
    forall u: nat | u < |f.par|
      ensures InLoop(header, u, w) <==> rep[u] == w
    {
      TopInLoop(header, u, w);
    }
    RangeSize(|f.par|);
  }

  /** The region of the members is a loop. */
  lemma LoopFound(f: Flow, rep: seq<nat>, header: seq<nat>, nbp: seq<set<nat>>, w: nat, ps: set<nat>, ys: set<nat>, t: NodeType)
    requires Shape(f, rep, header, nbp, w + 1) && ClassesOk(f, rep) && PredsComplete(f, rep, nbp, w + 1) && PredsSound(f, rep, nbp)
    requires w < |f.par| && Found(f, rep, nbp, w, ps, ys, t)
    ensures LoopOk(f, w, Region(f, rep, ps, w), t)
  {
    var b := Region(f, rep, ps, w);
    HeaderAlone(f, rep, header, nbp, w);
    RangeSize(|f.par|);
    forall u | u in b
      ensures u < |f.par| && Anc(f.par, w, u) && Reach(f, b, u, w) && (u != w ==> f.par[u] in b)
    {
      RegionNode(f, rep, header, nbp, w, ps, ys, t, u);
    }
    RegionSize(f, rep, header, nbp, w, ps, ys, t);
    RegionClosed(f, rep, header, nbp, w, ps, ys, t);
    if t == Reducible { RegionOneEntry(f, rep, header, nbp, w, ps, ys, t); }
    if t == Irreducible { RegionSideEntry(f, rep, header, nbp, w, ps, ys, t); }
  }

  /** Predecessors of members inside the subtree are members. */
  lemma RegionClosed(f: Flow, rep: seq<nat>, header: seq<nat>, nbp: seq<set<nat>>, w: nat, ps: set<nat>, ys: set<nat>, t: NodeType)
    requires Shape(f, rep, header, nbp, w + 1) && ClassesOk(f, rep) && PredsComplete(f, rep, nbp, w + 1) && PredsSound(f, rep, nbp)
    requires w < |f.par| && Found(f, rep, nbp, w, ps, ys, t)
    requires forall y :: y in Region(f, rep, ps, w) ==> y < |f.par|
    ensures forall x: nat, y: nat :: y in Region(f, rep, ps, w) && y != w && x in f.preds[y] && x < |f.par| && Anc(f.par, w, x) ==>
              x in Region(f, rep, ps, w)
  {
    HeaderAlone(f, rep, header, nbp, w);
    RangeSize(|f.par|);
    forall x: nat, y: nat | y in Region(f, rep, ps, w) && y != w && x in f.preds[y] && x < |f.par| && Anc(f.par, w, x)
      ensures x in Region(f, rep, ps, w)
    {
      MemberEdgeFrom(f, rep, header, nbp, w, ps, ys, t, x, y);
    }
  }

  lemma RegionNode(f: Flow, rep: seq<nat>, header: seq<nat>, nbp: seq<set<nat>>, w: nat, ps: set<nat>, ys: set<nat>, t: NodeType, u: nat)
    requires Shape(f, rep, header, nbp, w + 1) && ClassesOk(f, rep) && PredsComplete(f, rep, nbp, w + 1)
    requires w < |f.par| && Found(f, rep, nbp, w, ps, ys, t) && u in Region(f, rep, ps, w)
    ensures u < |f.par| && Anc(f.par, w, u) && Reach(f, Region(f, rep, ps, w), u, w) && (u != w ==> f.par[u] in Region(f, rep, ps, w))
  {
    RangeSize(|f.par|);
    HeaderAlone(f, rep, header, nbp, w);
    ClassStep(f, rep, header, nbp, w, ps, ys, t, u);
    CollapsedRegion(f, rep, ps, w);
    var now := Collapse(rep, ps, w);
    assert now[u] == w;
    assert u != w ==> now[f.par[u]] == w;
  }

  lemma RegionSize(f: Flow, rep: seq<nat>, header: seq<nat>, nbp: seq<set<nat>>, w: nat, ps: set<nat>, ys: set<nat>, t: NodeType)
    requires Shape(f, rep, header, nbp, w + 1) && ClassesOk(f, rep) && w < |f.par| && Found(f, rep, nbp, w, ps, ys, t)
    ensures w in Region(f, rep, ps, w)
    ensures Region(f, rep, ps, w) == {w} <==> ps == {}
    ensures forall v: nat :: IsBack(f, v, w) ==> v in Region(f, rep, ps, w)
    ensures ps == {} <==> !(exists v: nat :: IsBack(f, v, w) && v != w)
  {
    HeaderAlone(f, rep, header, nbp, w);
    RangeSize(|f.par|);
    if x :| x in ps {
      assert Member(f, rep, ps, w, x);
      assert x in Region(f, rep, ps, w);
    }
  }

  lemma RegionOneEntry(f: Flow, rep: seq<nat>, header: seq<nat>, nbp: seq<set<nat>>, w: nat, ps: set<nat>, ys: set<nat>, t: NodeType)
    requires Shape(f, rep, header, nbp, w + 1) && ClassesOk(f, rep) && PredsComplete(f, rep, nbp, w + 1)
    requires w < |f.par| && Found(f, rep, nbp, w, ps, ys, t) && t == Reducible
    ensures OneEntry(f, Region(f, rep, ps, w), w)
  {
    HeaderAlone(f, rep, header, nbp, w);
    RangeSize(|f.par|);
    forall x: nat, y: nat | y in Region(f, rep, ps, w) && y != w && y < |f.preds| && x in f.preds[y]
      ensures x in Region(f, rep, ps, w)
    {
      MemberEdgeFrom(f, rep, header, nbp, w, ps, ys, t, x, y);
    }
  }

  lemma RegionSideEntry(f: Flow, rep: seq<nat>, header: seq<nat>, nbp: seq<set<nat>>, w: nat, ps: set<nat>, ys: set<nat>, t: NodeType)
    requires Shape(f, rep, header, nbp, w + 1) && ClassesOk(f, rep) && PredsSound(f, rep, nbp)
    requires w < |f.par| && Found(f, rep, nbp, w, ps, ys, t) && t == Irreducible
    ensures SideEntry(f, Region(f, rep, ps, w), w)
  {
    assert forall x :: x in ps ==> Member(f, rep, ps, w, x);
    var yy: nat :| SideClass(f, rep, ps, w, nbp, yy);
    var x: nat, y: nat :| x in ps && x < |nbp| && y in nbp[x] && y < |f.par| && rep[y] == yy;
    SideEdge(f, rep, header, nbp, w, ps, x, y);
  }

  lemma SideEdge(f: Flow, rep: seq<nat>, header: seq<nat>, nbp: seq<set<nat>>, w: nat, ps: set<nat>, x: nat, y: nat)
    requires Shape(f, rep, header, nbp, w + 1) && ClassesOk(f, rep) && PredsSound(f, rep, nbp) && w < |f.par|
    requires x in ps && Member(f, rep, ps, w, x) && x < |nbp| && y in nbp[x] && rep[y] < |f.par| && !Anc(f.par, w, rep[y])
    ensures SideEntry(f, Region(f, rep, ps, w), w)
  {
    assert Linked(f, rep, y, x);
    var a: nat, b: nat :| LinkBy(f, rep, y, x, a, b);
    HeaderAlone(f, rep, header, nbp, w);
    SubtreeSame(f, rep, header, nbp, w, a);
    RangeSize(|f.par|);
    assert b in Region(f, rep, ps, w) && b != w && a in f.preds[b] && !Anc(f.par, w, a);
  }

  /** Loops found before keep their bodies. */
  lemma OldLoops(f: Flow, rep: seq<nat>, header: seq<nat>, nbp: seq<set<nat>>, types: seq<NodeType>, w: nat, ps: set<nat>, header': seq<nat>, t: NodeType, v: nat)
    requires Shape(f, rep, header, nbp, w + 1) && |types| == |header| && LoopsDone(f, header, types, w + 1)
    requires HeadersOk(header', 0) && Adds(header, header', ps, w) && w < v < |f.par|
    ensures LoopDone(f, header', types[w := t], v)
  {
    assert LoopDone(f, header, types, v);
    forall u: nat | u < |f.par|
      ensures InLoop(header', u, v) <==> InLoop(header, u, v)
    {
      AddsInLoop(header, header', ps, w, u, v);
    }
    RangeSize(|f.par|);
    assert Body(f, header', v) == Body(f, header, v);
  }

  lemma Step(f: Flow, rep: seq<nat>, header: seq<nat>, types: seq<NodeType>, nbp: seq<set<nat>>, w: nat,
             ps: set<nat>, ys: set<nat>, t: NodeType, header': seq<nat>)
    requires Inv(f, rep, header, types, nbp, w + 1) && w < |f.par|
    requires Found(f, rep, nbp, w, ps, ys, t) && Adds(header, header', ps, w) && (forall y :: y in ys ==> y < |f.par|)
    ensures Inv(f, Collapse(rep, ps, w), header', types[w := t], nbp[w := ys], w)
  {
    var now := Collapse(rep, ps, w);
    ShapeStep(f, rep, header, nbp, w, ps, ys, t, header');
    forall u: nat | u < |f.par| ensures ClassOk(f, now, u) { ClassStep(f, rep, header, nbp, w, ps, ys, t, u); }
    SoundStep(f, rep, header, nbp, w, ps, ys, t);
    forall a: nat, b: nat | b < |f.par| && a in f.preds[b]
      ensures EdgeKnown(f, now, nbp[w := ys], w, a, b)
    {
      CompleteStep(f, rep, header, nbp, w, ps, ys, t, a, b);
    }
    forall v: nat {:trigger LoopDone(f, header', types[w := t], v)} | w <= v < |f.par|
      ensures LoopDone(f, header', types[w := t], v)
    {
      if v == w {
        HeaderAlone(f, rep, header, nbp, w);
        HeaderOut(f, rep, nbp, w, ps, ys, t);
        LoopFound(f, rep, header, nbp, w, ps, ys, t);
        CollapsedRegion(f, rep, ps, w);
        NewBody(f, now, header', nbp[w := ys], w);
      } else {
        OldLoops(f, rep, header, nbp, types, w, ps, header', t, v);
      }
    }
  }

  // ---------------------------------------------------------------------
  // The analysis
  // ---------------------------------------------------------------------

  ghost function PredsOf(g: Cfg, node: seq<nat>, m: nat, v: nat): set<nat>
    requires v < |node|
  {
    set u | u in Range(m) && u < |node| && node[v] in Targets(g, node[u])
  }

  /** The flow graph of the numbered blocks. */
  ghost function FlowOf(g: Cfg, node: seq<nat>, par: seq<nat>): Flow
    requires |par| <= |node|
  {
    Flow(par, seq(|par|, v requires 0 <= v < |par| <= |node| => PredsOf(g, node, |par|, v)))
  }

  lemma PredIs(g: Cfg, node: seq<nat>, m: nat, v: nat, u: nat)
    requires v < |node| && m <= |node|
    ensures u in PredsOf(g, node, m, v) <==> u < m && node[v] in Targets(g, node[u])
  {
    RangeSize(m);
  }

  lemma FlowOfOk(g: Cfg, node: seq<nat>, par: seq<nat>)
    requires EntryFirst(g) && IsTree(par) && 0 < |par| <= |node| && node[0] == 0
    requires forall v :: 0 < v < |par| ==> node[v] in Targets(g, node[par[v]])
    ensures FlowOk(FlowOf(g, node, par))
  {
    var f := FlowOf(g, node, par);
    forall u: nat ensures u !in f.preds[0] { PredIs(g, node, |par|, 0, u); }
    assert f.preds[0] == {};
    forall v: nat | 0 < v < |par| ensures par[v] in f.preds[v] { PredIs(g, node, |par|, v, par[v]); }
    forall v: nat, u: nat | v < |par| && u in f.preds[v] ensures u < |par| { PredIs(g, node, |par|, v, u); }
  }

  /** Every block can be reached from the first one. */
  ghost predicate AllReachable(g: Cfg) {
    forall b :: 0 <= b < |g| ==> Reachable(g, b)
  }

  ghost predicate Reachable(g: Cfg, b: nat) {
    exists p :: WalkFromTo(g, 0, b, p)
  }

  lemma {:induction false} WalkNumbered(g: Cfg, node: seq<nat>, number: map<nat, nat>, last: seq<nat>, par: seq<nat>, p: seq<nat>)
    requires EntryFirst(g) && IsSpanning(g, node, number, last, par) && IsWalk(g, p) && p[0] == 0
    ensures p[|p| - 1] in number
  {
    var n := |p| - 1;
    if n > 0 {
      WalkNumbered(g, node, number, last, par, p[..n]);
      assert Edge(g, p[n - 1], p[n]);
      assert p[n] in Targets(g, node[number[p[n - 1]]]);
    }
  }

  // ---------------------------------------------------------------------
  // The search for the body of a loop
  // ---------------------------------------------------------------------

  ghost predicate AllMembers(f: Flow, rep: seq<nat>, ps: set<nat>, w: nat)
    requires FlowOk(f) && |f.par| <= |rep|
  {
    forall x {:trigger Member(f, rep, ps, w, x)} :: x in ps ==> Member(f, rep, ps, w, x)
  }

  lemma RegionGrows(f: Flow, rep: seq<nat>, ps: set<nat>, qs: set<nat>, w: nat)
    requires FlowOk(f) && |f.par| <= |rep| && ps <= qs
    ensures Region(f, rep, ps, w) <= Region(f, rep, qs, w)
  {
  }

  /** A class with an edge from it into the loop joins the loop. */
  lemma Joins(f: Flow, rep: seq<nat>, header: seq<nat>, nbp: seq<set<nat>>, w: nat, ps: set<nat>, a: nat, b: nat)
    requires Shape(f, rep, header, nbp, w + 1) && ClassesOk(f, rep) && w < |f.par| && AllMembers(f, rep, ps, w)
    requires b < |f.par| && a in f.preds[b] && (b == w || rep[b] in ps)
    requires rep[a] < |f.par| && Anc(f.par, w, rep[a]) && rep[a] != w
    ensures AllMembers(f, rep, ps + {rep[a]}, w)
  {
    var yy := rep[a];
    var qs := ps + {yy};
    var r := Region(f, rep, qs, w);
    HeaderAlone(f, rep, header, nbp, w);
    RangeSize(|f.par|);
    RegionGrows(f, rep, ps, qs, w);
    assert ClassOk(f, rep, a);
    AncBelow(f.par, yy, a);
    ClassReach(f, rep, yy, a);
    ReachMore(f, Class(f, rep, yy), r, yy, a);
    ReachEdge(f, r, a, b);
    if b == w {
      ReachTrans(f, r, yy, a, w);
    } else {
      assert ClassOk(f, rep, b);
      ReachMore(f, Class(f, rep, rep[b]), r, b, rep[b]);
      assert Member(f, rep, ps, w, rep[b]);
      ReachMore(f, Region(f, rep, ps, w), r, rep[b], w);
      ReachTrans(f, r, yy, a, b);
      ReachTrans(f, r, yy, b, rep[b]);
      ReachTrans(f, r, yy, rep[b], w);
    }
    forall x | x in qs
      ensures Member(f, rep, qs, w, x)
    {
      if x != yy {
        assert Member(f, rep, ps, w, x);
        ReachMore(f, Region(f, rep, ps, w), r, x, w);
      }
    }
  }

  lemma ClassReach(f: Flow, rep: seq<nat>, r: nat, u: nat)
    requires FlowOk(f) && |f.par| <= |rep| && ClassesOk(f, rep) && u < |f.par| && rep[u] == r
    ensures Reach(f, Class(f, rep, r), r, u)
  {
    RangeSize(|f.par|);
    assert ClassOk(f, rep, u);
    forall x | x in Class(f, rep, r) && x != r
      ensures x < |f.par| && f.par[x] in Class(f, rep, r)
    {
      assert ClassOk(f, rep, x);
    }
    TreeReach(f, Class(f, rep, r), r, u);
  }

  /** The state of the search: the predecessors of members in `work`, and those of
      `cur` in `rest`, are yet to be looked at. */
  ghost predicate Searching(f: Flow, rep: seq<nat>, nbp: seq<set<nat>>, w: nat, ps: set<nat>, work: set<nat>,
                            cur: nat, rest: set<nat>, ys: set<nat>, t: NodeType)
    requires FlowOk(f) && |f.par| <= |rep| == |nbp| && w < |f.par|
    requires forall x, y :: 0 <= x < |nbp| && y in nbp[x] ==> y < |f.par|
  {
    && AllMembers(f, rep, ps, w) && work <= ps
    && (forall v: nat {:trigger IsBack(f, v, w)} :: IsBack(f, v, w) && v != w ==> v < |rep| && rep[v] in ps)
    && (ps != {} ==> exists v: nat :: IsBack(f, v, w) && v != w)
    && (forall x, y {:trigger LookedAt(f, rep, nbp, w, ps, work, cur, rest, ys, t, x, y)} ::
          x in ps && x < |nbp| && y in nbp[x] ==> LookedAt(f, rep, nbp, w, ps, work, cur, rest, ys, t, x, y))
    && nbp[w] <= ys
    && (forall yy {:trigger SideClass(f, rep, ps, w, nbp, yy)} :: yy in ys && yy !in nbp[w] ==> SideClass(f, rep, ps, w, nbp, yy))
    && (t == Reducible || t == Irreducible)
    && (t == Irreducible ==> exists yy :: SideClass(f, rep, ps, w, nbp, yy))
  }

  ghost predicate LookedAt(f: Flow, rep: seq<nat>, nbp: seq<set<nat>>, w: nat, ps: set<nat>, work: set<nat>,
                           cur: nat, rest: set<nat>, ys: set<nat>, t: NodeType, x: nat, y: nat)
    requires FlowOk(f) && |f.par| <= |rep| == |nbp| && y < |f.par|
  {
    x in work || (x == cur && y in rest) || (Treated(f, rep, ps, w, ys, y) && (t == Reducible ==> InSubtree(f, rep, w, y)))
  }

  lemma SearchDone(f: Flow, rep: seq<nat>, nbp: seq<set<nat>>, w: nat, ps: set<nat>, cur: nat, ys: set<nat>, t: NodeType)
    requires FlowOk(f) && |f.par| <= |rep| == |nbp| && w < |f.par|
    requires forall x, y :: 0 <= x < |nbp| && y in nbp[x] ==> y < |f.par|
    requires Searching(f, rep, nbp, w, ps, {}, cur, {}, ys, t) && ps != {}
    ensures Found(f, rep, nbp, w, ps, ys, t)
  {
    forall x, y | x in ps && x < |nbp| && y in nbp[x]
      ensures Treated(f, rep, ps, w, ys, y) && (t == Reducible ==> InSubtree(f, rep, w, y))
    {
      assert LookedAt(f, rep, nbp, w, ps, {}, cur, {}, ys, t, x, y);
    }
  }

  lemma SideMore(f: Flow, rep: seq<nat>, ps: set<nat>, qs: set<nat>, w: nat, nbp: seq<set<nat>>, yy: nat)
    requires FlowOk(f) && |f.par| <= |rep| == |nbp| && ps <= qs && SideClass(f, rep, ps, w, nbp, yy)
    ensures SideClass(f, rep, qs, w, nbp, yy)
  {
  }

  /** Predecessor `y` of `cur` lies outside the subtree. */
  lemma Reject(f: Flow, rep: seq<nat>, header: seq<nat>, nbp: seq<set<nat>>, w: nat, ps: set<nat>, work: set<nat>,
               cur: nat, rest: set<nat>, ys: set<nat>, t: NodeType, y: nat)
    requires Shape(f, rep, header, nbp, w + 1) && w < |f.par| && y < |rep| && rep[y] < |f.par| && cur in ps && cur < |nbp|
    requires Searching(f, rep, nbp, w, ps, work, cur, rest, ys, t) && y in rest && rest <= nbp[cur]
    requires !Anc(f.par, w, rep[y])
    ensures Searching(f, rep, nbp, w, ps, work, cur, rest - {y}, ys + {rep[y]}, Irreducible)
  {
    assert SideClass(f, rep, ps, w, nbp, rep[y]);
    forall x: nat, z: nat | x in ps && x < |nbp| && z in nbp[x]
      ensures LookedAt(f, rep, nbp, w, ps, work, cur, rest - {y}, ys + {rep[y]}, Irreducible, x, z)
    {
      assert LookedAt(f, rep, nbp, w, ps, work, cur, rest, ys, t, x, z);
    }
  }

  /** Predecessor `y` of `cur` belongs to a class that is known already. */
  lemma Skip(f: Flow, rep: seq<nat>, header: seq<nat>, nbp: seq<set<nat>>, w: nat, ps: set<nat>, work: set<nat>,
             cur: nat, rest: set<nat>, ys: set<nat>, t: NodeType, y: nat)
    requires Shape(f, rep, header, nbp, w + 1) && w < |f.par| && y < |rep| && rep[y] < |f.par| && cur in ps && cur < |nbp|
    requires Searching(f, rep, nbp, w, ps, work, cur, rest, ys, t) && y in rest && rest <= nbp[cur]
    requires Anc(f.par, w, rep[y]) && (rep[y] == w || rep[y] in ps)
    ensures Searching(f, rep, nbp, w, ps, work, cur, rest - {y}, ys, t)
  {
    forall x: nat, z: nat | x in ps && x < |nbp| && z in nbp[x]
      ensures LookedAt(f, rep, nbp, w, ps, work, cur, rest - {y}, ys, t, x, z)
    {
      assert LookedAt(f, rep, nbp, w, ps, work, cur, rest, ys, t, x, z);
    }
  }

  /** The class of predecessor `y` of `cur` is a new member. */
  lemma Accept(f: Flow, rep: seq<nat>, header: seq<nat>, nbp: seq<set<nat>>, w: nat, ps: set<nat>, work: set<nat>,
               cur: nat, rest: set<nat>, ys: set<nat>, t: NodeType, y: nat)
    requires Shape(f, rep, header, nbp, w + 1) && ClassesOk(f, rep) && PredsSound(f, rep, nbp)
    requires w < |f.par| && y < |rep| && rep[y] < |f.par| && cur in ps && cur < |nbp|
    requires Searching(f, rep, nbp, w, ps, work, cur, rest, ys, t) && y in rest && rest <= nbp[cur]
    requires Anc(f.par, w, rep[y]) && rep[y] != w
    ensures Searching(f, rep, nbp, w, ps + {rep[y]}, work + {rep[y]}, cur, rest - {y}, ys, t)
  {
    var qs := ps + {rep[y]};
    AcceptMember(f, rep, header, nbp, w, ps, cur, y);
    forall x: nat, z: nat | x in qs && x < |nbp| && z in nbp[x]
      ensures LookedAt(f, rep, nbp, w, qs, work + {rep[y]}, cur, rest - {y}, ys, t, x, z)
    {
      if x in ps { assert LookedAt(f, rep, nbp, w, ps, work, cur, rest, ys, t, x, z); }
    }
    forall yy | SideClass(f, rep, ps, w, nbp, yy) ensures SideClass(f, rep, qs, w, nbp, yy) { SideMore(f, rep, ps, qs, w, nbp, yy); }
  }

  lemma AcceptMember(f: Flow, rep: seq<nat>, header: seq<nat>, nbp: seq<set<nat>>, w: nat, ps: set<nat>, cur: nat, y: nat)
    requires Shape(f, rep, header, nbp, w + 1) && ClassesOk(f, rep) && PredsSound(f, rep, nbp) && AllMembers(f, rep, ps, w)
    requires w < |f.par| && cur in ps && cur < |nbp| && y in nbp[cur] && y < |rep| && rep[y] < |f.par|
    requires Anc(f.par, w, rep[y]) && rep[y] != w
    ensures AllMembers(f, rep, ps + {rep[y]}, w)
  {
    assert Member(f, rep, ps, w, cur);
    assert Linked(f, rep, y, cur);
    var a: nat, b: nat :| LinkBy(f, rep, y, cur, a, b);
    Joins(f, rep, header, nbp, w, ps, a, b);
  }

  /** The representatives of the sources of the back edges. */
  method BackMembers(ghost f: Flow, w: nat, backs: set<nat>, uf: UnionFind, ghost header: seq<nat>, ghost nbp: seq<set<nat>>)
    returns (ps: set<nat>, t: NodeType)
    requires uf.Valid() && Shape(f, uf.rep, header, nbp, w + 1) && ClassesOk(f, uf.rep) && w < |f.par|
    requires forall v: nat :: v in backs <==> IsBack(f, v, w)
    modifies uf`id
    ensures uf.Valid() && AllMembers(f, uf.rep, ps, w)
    ensures forall v: nat {:trigger IsBack(f, v, w)} :: IsBack(f, v, w) && v != w ==> v < |uf.rep| && uf.rep[v] in ps
    ensures ps != {} ==> exists v: nat :: IsBack(f, v, w) && v != w
    ensures t == if w in backs then SelfLoop else NonHeader
  {
    ghost var rep := uf.rep;
    ps, t := {}, NonHeader;
    var rest := backs;
    while rest != {}
      invariant uf.Valid() && uf.rep == rep && rest <= backs && AllMembers(f, rep, ps, w)
      invariant forall v: nat :: v in backs && v !in rest && v != w ==> v < |rep| && rep[v] in ps
      invariant ps != {} ==> exists v: nat :: IsBack(f, v, w) && v != w
      invariant t == if w in backs - rest then SelfLoop else NonHeader
    {
      var v :| v in rest;
      rest := rest - {v};
      assert IsBack(f, v, w);
      if v != w {
        var x := uf.Find(v);
        SubtreeSame(f, rep, header, nbp, w, v);
        HeaderAlone(f, rep, header, nbp, w);
        Joins(f, rep, header, nbp, w, ps, v, w);
        ps := ps + {x};
      } else {
        t := SelfLoop;
      }
    }
  }

  /** The body of the loop of `w`. */
  method FindBody(ghost f: Flow, w: nat, last: seq<nat>, backs: set<nat>, nbp: seq<set<nat>>, uf: UnionFind, ghost header: seq<nat>)
    returns (ps: set<nat>, t: NodeType, ys: set<nat>)
    requires uf.Valid() && Shape(f, uf.rep, header, nbp, w + 1) && ClassesOk(f, uf.rep) && PredsSound(f, uf.rep, nbp)
    requires w < |f.par| <= |last|
    requires Intervals(f.par, last)
    requires forall v: nat :: v in backs <==> IsBack(f, v, w)
    modifies uf`id
    ensures uf.Valid() && Found(f, uf.rep, nbp, w, ps, ys, t) && (forall y :: y in ys ==> y < |f.par|)
  {
    ghost var rep := uf.rep;
    ps, t := BackMembers(f, w, backs, uf, header, nbp);
    ys := nbp[w];
    if ps != {} {
      t := Reducible;
      var work := ps;
      ghost var cur: nat := 0;
      StartSearch(f, rep, nbp, w, ps, ys, t);
      while work != {}
        invariant uf.Valid() && uf.rep == rep && ps != {} && (forall y :: y in ys ==> y < |f.par|)
        invariant Searching(f, rep, nbp, w, ps, work, cur, {}, ys, t)
        decreases Range(|f.par|) - ps, work
      {
        ghost var ps0 := ps;
        var x :| x in work;
        assert Member(f, rep, ps, w, x);
        TakeOne(f, rep, nbp, w, ps, work, cur, ys, t, x);
        cur := x;
        ps, work, ys, t := LookAt(f, w, last, nbp, uf, header, x, ps, work - {x}, ys, t);
        Shrinks(f, rep, w, ps0, ps);
      }
      SearchDone(f, rep, nbp, w, ps, cur, ys, t);
    }
  }

  /** Look at the predecessors of member `x`. */
  method LookAt(ghost f: Flow, w: nat, last: seq<nat>, nbp: seq<set<nat>>, uf: UnionFind, ghost header: seq<nat>,
                x: nat, ps0: set<nat>, work0: set<nat>, ys0: set<nat>, t0: NodeType)
    returns (ps: set<nat>, work: set<nat>, ys: set<nat>, t: NodeType)
    requires uf.Valid() && Shape(f, uf.rep, header, nbp, w + 1) && ClassesOk(f, uf.rep) && PredsSound(f, uf.rep, nbp)
    requires w < |f.par| <= |last| && (forall y :: y in ys0 ==> y < |f.par|) && x in ps0 && x < |nbp|
    requires Intervals(f.par, last)
    requires Searching(f, uf.rep, nbp, w, ps0, work0, x, nbp[x], ys0, t0)
    modifies uf`id
    ensures uf.Valid() && (forall y :: y in ys ==> y < |f.par|)
    ensures Searching(f, uf.rep, nbp, w, ps, work, x, {}, ys, t)
    ensures ps0 <= ps && (ps == ps0 ==> work == work0)
  {
    ghost var rep := uf.rep;
    ps, work, ys, t := ps0, work0, ys0, t0;
    var rest := nbp[x];
    while rest != {}
      invariant uf.Valid() && uf.rep == rep && x in ps && rest <= nbp[x] && (forall y :: y in ys ==> y < |f.par|)
      invariant Searching(f, rep, nbp, w, ps, work, x, rest, ys, t)
      invariant ps0 <= ps && (ps == ps0 ==> work == work0)
      decreases rest
    {
      var y :| y in rest;
      var yy := uf.Find(y);
      assert ClassOk(f, rep, y);
      AncBelow(f.par, rep[y], y);
      if !(w <= yy && yy <= last[w]) {
        Reject(f, rep, header, nbp, w, ps, work, x, rest, ys, t, y);
        t := Irreducible;
        ys := ys + {yy};
      } else if yy != w && yy !in ps {
        Accept(f, rep, header, nbp, w, ps, work, x, rest, ys, t, y);
        ps := ps + {yy};
        work := work + {yy};
      } else {
        Skip(f, rep, header, nbp, w, ps, work, x, rest, ys, t, y);
      }
      rest := rest - {y};
    }
  }

  lemma StartSearch(f: Flow, rep: seq<nat>, nbp: seq<set<nat>>, w: nat, ps: set<nat>, ys: set<nat>, t: NodeType)
    requires FlowOk(f) && |f.par| <= |rep| == |nbp| && w < |f.par| && AllMembers(f, rep, ps, w)
    requires forall x, y :: 0 <= x < |nbp| && y in nbp[x] ==> y < |f.par|
    requires forall v: nat {:trigger IsBack(f, v, w)} :: IsBack(f, v, w) && v != w ==> v < |rep| && rep[v] in ps
    requires ps != {} ==> exists v: nat :: IsBack(f, v, w) && v != w
    requires ys == nbp[w] && t == Reducible
    ensures Searching(f, rep, nbp, w, ps, ps, 0, {}, ys, t)
  {
  }

  lemma TakeOne(f: Flow, rep: seq<nat>, nbp: seq<set<nat>>, w: nat, ps: set<nat>, work: set<nat>, cur: nat, ys: set<nat>, t: NodeType, x: nat)
    requires FlowOk(f) && |f.par| <= |rep| == |nbp| && w < |f.par| && x < |nbp|
    requires forall x, y :: 0 <= x < |nbp| && y in nbp[x] ==> y < |f.par|
    requires Searching(f, rep, nbp, w, ps, work, cur, {}, ys, t) && x in work
    ensures Searching(f, rep, nbp, w, ps, work - {x}, x, nbp[x], ys, t)
  {
    forall z: nat, y: nat | z in ps && z < |nbp| && y in nbp[z]
      ensures LookedAt(f, rep, nbp, w, ps, work - {x}, x, nbp[x], ys, t, z, y)
    {
      assert LookedAt(f, rep, nbp, w, ps, work, cur, {}, ys, t, z, y);
    }
  }

  /** New members use up the nodes that are left. */
  lemma Shrinks(f: Flow, rep: seq<nat>, w: nat, ps: set<nat>, qs: set<nat>)
    requires FlowOk(f) && |f.par| <= |rep| && AllMembers(f, rep, qs, w) && ps <= qs
    ensures Range(|f.par|) - qs <= Range(|f.par|) - ps
    ensures ps != qs ==> Range(|f.par|) - qs < Range(|f.par|) - ps
  {
    if x :| x in qs && x !in ps {
      assert Member(f, rep, qs, w, x);
      RangeSize(|f.par|);
      assert x in Range(|f.par|) - ps && x !in Range(|f.par|) - qs;
    }
  }

  // ---------------------------------------------------------------------
  // The run
  // ---------------------------------------------------------------------

  /** The members get header `w` and are merged into it. */
  method MergeBody(w: nat, ps: set<nat>, header0: seq<nat>, uf: UnionFind) returns (header: seq<nat>)
    requires uf.Valid() && w < |header0| == |uf.rep| && uf.rep[w] == w && w !in ps
    requires forall x :: x in ps ==> x < |header0| && uf.rep[x] == x && header0[x] == 0
    modifies uf
    ensures uf.Valid() && uf.rep == Collapse(old(uf.rep), ps, w) && Adds(header0, header, ps, w)
  {
    header := header0;
    ghost var rep := uf.rep;
    var rest := ps;
    assert uf.rep == Collapse(rep, {}, w);
    while rest != {}
      invariant uf.Valid() && rest <= ps && uf.rep == Collapse(rep, ps - rest, w)
      invariant |header| == |header0| && forall x :: 0 <= x < |header| ==> header[x] == if x in ps - rest then w else header0[x]
    {
      var x :| x in rest;
      header := header[x := w];
      var j := uf.Merge(x, w);
      assert j == w;
      MergeOne(rep, ps - rest, w, x);
      rest := rest - {x};
      assert ps - rest == ps - (rest + {x}) + {x};
    }
    assert ps - rest == ps;
  }

  lemma MergeOne(rep: seq<nat>, done: set<nat>, w: nat, x: nat)
    requires w < |rep| && x < |rep| && rep[w] == w && rep[x] == x && x != w && x !in done && w !in done
    requires Partition(rep)
    ensures Merged(Collapse(rep, done, w), x, w) == Collapse(rep, done + {x}, w)
  {
  }

  /** Before the first header nothing is collapsed. */
  lemma InitInv(f: Flow, n: nat, nbp: seq<set<nat>>)
    requires FlowOk(f) && |f.par| <= n == |nbp|
    requires forall b :: 0 <= b < |f.par| ==> forall a :: a in nbp[b] <==> a in f.preds[b] && !Anc(f.par, b, a)
    requires forall b :: |f.par| <= b < n ==> nbp[b] == {}
    ensures Inv(f, seq(n, i => i), seq(n, _ => 0), seq(n, _ => NonHeader), nbp, n)
  {
    var rep, header := seq(n, i => i), seq(n, _ => 0);
    RangeSize(|f.par|);
    forall u: nat | u < |f.par|
      ensures ClassOk(f, rep, u)
    {
      assert u in Class(f, rep, u);
      ReachSelf(f, Class(f, rep, u), u);
    }
    forall x: nat, y: nat | x < |nbp| && y in nbp[x]
      ensures y < |f.par| && Linked(f, rep, y, x)
    {
      assert LinkBy(f, rep, y, x, y, x);
    }
    forall a: nat, b: nat | b < |f.par| && a in f.preds[b]
      ensures EdgeKnown(f, rep, nbp, n, a, b)
    {
      if a in nbp[b] { assert a < |rep| && rep[a] == rep[a]; }
    }
  }

  /** The numbers in use are as many as the blocks that have one. */
  lemma NumberCount(g: Cfg, node: seq<nat>, number: map<nat, nat>, last: seq<nat>, par: seq<nat>)
    requires IsSpanning(g, node, number, last, par)
    ensures |number| == |par|
  {
    CountImage(node[..|par|]);
    assert number.Keys == SetOf(node[..|par|]);
  }

  /** Blocks `u` and `t` with an edge among the first `n` blocks and the first `i` targets of the next. */
  ghost predicate SeenEdge(g: Cfg, n: nat, i: nat, u: nat, t: nat)
    requires n <= |g| && (n < |g| ==> i <= |g[n]|)
  {
    (u < n && t in g[u]) || (u == n < |g| && t in g[n][..i])
  }

  ghost predicate Split(g: Cfg, f: Flow, node: seq<nat>, backs: seq<set<nat>>, nbp: seq<set<nat>>, n: nat, i: nat)
    requires n <= |g| && (n < |g| ==> i <= |g[n]|) && FlowOk(f) && |f.par| <= |node| == |backs| == |nbp|
  {
    forall b: nat, a: nat {:trigger Sorted(g, f, node, backs, nbp, n, i, b, a)} ::
      b < |backs| ==> Sorted(g, f, node, backs, nbp, n, i, b, a)
  }

  ghost predicate Sorted(g: Cfg, f: Flow, node: seq<nat>, backs: seq<set<nat>>, nbp: seq<set<nat>>, n: nat, i: nat, b: nat, a: nat)
    requires n <= |g| && (n < |g| ==> i <= |g[n]|) && FlowOk(f) && |f.par| <= |node| == |backs| == |nbp| && b < |backs|
  {
    if a < |f.par| && b < |f.par| then
      && (a in backs[b] <==> SeenEdge(g, n, i, node[a], node[b]) && Anc(f.par, b, a))
      && (a in nbp[b] <==> SeenEdge(g, n, i, node[a], node[b]) && !Anc(f.par, b, a))
    else a !in backs[b] && a !in nbp[b]
  }

  /** Sort the predecessors of every node. */
  method SplitEdges(g: Cfg, node: seq<nat>, number: map<nat, nat>, last: seq<nat>, ghost par: seq<nat>)
    returns (backs: seq<set<nat>>, nbp: seq<set<nat>>)
    requires EntryFirst(g) && IsSpanning(g, node, number, last, par) && (forall b :: 0 <= b < |g| ==> b in number)
    requires FlowOk(FlowOf(g, node, par))
    ensures |backs| == |nbp| == |g| + 1 && Split(g, FlowOf(g, node, par), node, backs, nbp, |g|, 0)
  {
    ghost var f := FlowOf(g, node, par);
    backs, nbp := seq(|g| + 1, _ => {}), seq(|g| + 1, _ => {});
    forall b: nat, a: nat | b < |backs| ensures Sorted(g, f, node, backs, nbp, 0, 0, b, a) {}
    for n := 0 to |g|
      invariant |backs| == |nbp| == |g| + 1 && Split(g, f, node, backs, nbp, n, 0)
    {
      for i := 0 to |g[n]|
        invariant |backs| == |nbp| == |g| + 1 && Split(g, f, node, backs, nbp, n, i)
      {
        EdgeNumbers(g, node, number, last, par, n, i);
        var v, w := number[n], number[g[n][i]];
        if w <= v && v <= last[w] {
          SplitStep(g, f, node, backs, nbp, n, i, v, w, backs[w := backs[w] + {v}], nbp);
          backs := backs[w := backs[w] + {v}];
        } else {
          SplitStep(g, f, node, backs, nbp, n, i, v, w, backs, nbp[w := nbp[w] + {v}]);
          nbp := nbp[w := nbp[w] + {v}];
        }
      }
      SplitNext(g, f, node, backs, nbp, n);
    }
  }

  ghost predicate Injective(node: seq<nat>, m: nat) {
    m <= |node| && forall i, j :: 0 <= i < j < m ==> node[i] != node[j]
  }

  lemma EdgeNumbers(g: Cfg, node: seq<nat>, number: map<nat, nat>, last: seq<nat>, par: seq<nat>, n: nat, i: nat)
    requires IsSpanning(g, node, number, last, par) && n < |g| && n in number && i < |g[n]|
    ensures g[n][i] in number && number[n] < |par| && number[g[n][i]] < |par|
    ensures node[number[n]] == n && node[number[g[n][i]]] == g[n][i]
    ensures Anc(par, number[g[n][i]], number[n]) <==> number[g[n][i]] <= number[n] <= last[number[g[n][i]]]
    ensures Injective(node, |par|)
  {
    assert g[n][i] in Targets(g, node[number[n]]);
  }

  lemma SplitNext(g: Cfg, f: Flow, node: seq<nat>, backs: seq<set<nat>>, nbp: seq<set<nat>>, n: nat)
    requires n < |g| && FlowOk(f) && |f.par| <= |node| == |backs| == |nbp| && Split(g, f, node, backs, nbp, n, |g[n]|)
    ensures Split(g, f, node, backs, nbp, n + 1, 0)
  {
    assert g[n][..|g[n]|] == g[n];
    forall b: nat, a: nat {:trigger Sorted(g, f, node, backs, nbp, n + 1, 0, b, a)} | b < |backs|
      ensures Sorted(g, f, node, backs, nbp, n + 1, 0, b, a)
    {
      assert Sorted(g, f, node, backs, nbp, n, |g[n]|, b, a);
    }
  }

  lemma SplitStep(g: Cfg, f: Flow, node: seq<nat>, backs: seq<set<nat>>, nbp: seq<set<nat>>, n: nat, i: nat,
                  v: nat, w: nat, backs': seq<set<nat>>, nbp': seq<set<nat>>)
    requires n < |g| && i < |g[n]| && FlowOk(f) && |f.par| <= |node| == |backs| == |nbp| && Split(g, f, node, backs, nbp, n, i)
    requires v < |f.par| && w < |f.par| && node[v] == n && node[w] == g[n][i] && Injective(node, |f.par|)
    requires backs' == (if Anc(f.par, w, v) then backs[w := backs[w] + {v}] else backs)
    requires nbp' == (if Anc(f.par, w, v) then nbp else nbp[w := nbp[w] + {v}])
    ensures Split(g, f, node, backs', nbp', n, i + 1)
  {
    assert g[n][..i + 1] == g[n][..i] + [g[n][i]];
    forall b: nat, a: nat {:trigger Sorted(g, f, node, backs', nbp', n, i + 1, b, a)} | b < |backs|
      ensures Sorted(g, f, node, backs', nbp', n, i + 1, b, a)
    {
      assert Sorted(g, f, node, backs, nbp, n, i, b, a);
      if a < |f.par| && b < |f.par| {
        assert SeenEdge(g, n, i + 1, node[a], node[b]) <==> SeenEdge(g, n, i, node[a], node[b]) || (a == v && b == w);
      }
    }
  }

  /** All edges are sorted: the lists are what the invariant starts from. */
  lemma SplitDone(g: Cfg, f: Flow, node: seq<nat>, par: seq<nat>, backs: seq<set<nat>>, nbp: seq<set<nat>>)
    requires |par| <= |node| && f == FlowOf(g, node, par) && FlowOk(f) && |node| == |backs| == |nbp|
    requires Split(g, f, node, backs, nbp, |g|, 0)
    ensures forall b: nat, a: nat :: b < |f.par| ==> (a in backs[b] <==> IsBack(f, a, b))
    ensures Inv(f, seq(|nbp|, i => i), seq(|nbp|, _ => 0), seq(|nbp|, _ => NonHeader), nbp, |nbp|)
  {
    forall b: nat, a: nat | b < |f.par|
      ensures a in backs[b] <==> IsBack(f, a, b)
      ensures a in nbp[b] <==> a in f.preds[b] && !Anc(f.par, b, a)
    {
      PredIs(g, node, |par|, b, a);
      assert Sorted(g, f, node, backs, nbp, |g|, 0, b, a);
    }
    forall b: nat, a: nat | |f.par| <= b < |nbp| ensures a !in nbp[b] { assert Sorted(g, f, node, backs, nbp, |g|, 0, b, a); }
    assert forall b: nat :: |f.par| <= b < |nbp| ==> nbp[b] == {};
    InitInv(f, |nbp|, nbp);
  }

  /** One round of the main loop. */
  method ProcessHeader(ghost f: Flow, w: nat, last: seq<nat>, backs: set<nat>, uf: UnionFind,
                       header0: seq<nat>, types0: seq<NodeType>, nbp0: seq<set<nat>>)
    returns (header: seq<nat>, types: seq<NodeType>, nbp: seq<set<nat>>)
    requires uf.Valid() && Inv(f, uf.rep, header0, types0, nbp0, w + 1) && w < |f.par| <= |last|
    requires Intervals(f.par, last)
    requires forall v: nat :: v in backs <==> IsBack(f, v, w)
    modifies uf
    ensures uf.Valid() && Inv(f, uf.rep, header, types, nbp, w) && |header| == |header0|
  {
    var ps, t, ys := FindBody(f, w, last, backs, nbp0, uf, header0);
    ghost var rep := uf.rep;
    HeaderAlone(f, rep, header0, nbp0, w);
    HeaderOut(f, rep, nbp0, w, ps, ys, t);
    MembersFree(f, rep, header0, nbp0, w, ps);
    header := MergeBody(w, ps, header0, uf);
    Step(f, rep, header0, types0, nbp0, w, ps, ys, t, header);
    types := types0[w := t];
    nbp := nbp0[w := ys];
  }

  lemma NoNode(f: Flow, rep: seq<nat>, header: seq<nat>, types: seq<NodeType>, nbp: seq<set<nat>>, w: nat)
    requires Inv(f, rep, header, types, nbp, w + 1) && w >= |f.par|
    ensures Inv(f, rep, header, types, nbp, w)
  {
    forall a: nat, b: nat | b < |f.par| && a in f.preds[b]
      ensures EdgeKnown(f, rep, nbp, w, a, b)
    {
      assert EdgeKnown(f, rep, nbp, w + 1, a, b);
    }
  }

  /** The main loop, from the largest number down; numbers from `count` on belong to no block and have no edges. */
  method AllHeaders(ghost f: Flow, count: nat, last: seq<nat>, backs: seq<set<nat>>, nbp0: seq<set<nat>>)
    returns (header: seq<nat>, types: seq<NodeType>)
    requires FlowOk(f) && Intervals(f.par, last) && |f.par| == count <= |nbp0| == |backs|
    requires forall b: nat, a: nat :: b < |f.par| ==> (a in backs[b] <==> IsBack(f, a, b))
    requires Inv(f, seq(|nbp0|, i => i), seq(|nbp0|, _ => 0), seq(|nbp0|, _ => NonHeader), nbp0, |nbp0|)
    ensures |header| == |types| == |nbp0| && HeadersOk(header, 0) && LoopsDone(f, header, types, 0)
  {
    var nbp := nbp0;
    header, types := seq(|nbp0|, _ => 0), seq(|nbp0|, _ => NonHeader);
    var uf := new UnionFind(|nbp0|);
    for w := |nbp0| downto 0
      invariant fresh(uf) && uf.Valid() && |header| == |nbp0|
      invariant Inv(f, uf.rep, header, types, nbp, w)
    {
      if w < count {
        header, types, nbp := ProcessHeader(f, w, last, backs[w], uf, header, types, nbp);
      } else {
        NoNode(f, uf.rep, header, types, nbp, w);
      }
    }
  }

  method FindLoops(g: Cfg, node: seq<nat>, number: map<nat, nat>, last: seq<nat>, ghost par: seq<nat>)
    returns (header: seq<nat>, types: seq<NodeType>)
    requires EntryFirst(g) && AllReachable(g) && IsSpanning(g, node, number, last, par)
    ensures FlowOk(FlowOf(g, node, par)) && |header| == |types| == |g| + 1 && HeadersOk(header, 0)
    ensures LoopsDone(FlowOf(g, node, par), header, types, 0)
  {
    ghost var f := FlowOf(g, node, par);
    FlowOfOk(g, node, par);
    NumberCount(g, node, number, last, par);
    AllNumbered(g, node, number, last, par);
    var backs, nbp := SplitEdges(g, node, number, last, par);
    SplitDone(g, f, node, par, backs, nbp);
    header, types := AllHeaders(f, |number|, last, backs, nbp);
  }

  lemma AllNumbered(g: Cfg, node: seq<nat>, number: map<nat, nat>, last: seq<nat>, par: seq<nat>)
    requires EntryFirst(g) && AllReachable(g) && IsSpanning(g, node, number, last, par)
    ensures forall b :: 0 <= b < |g| ==> b in number
  {
    forall b: nat | b < |g|
      ensures b in number
    {
      assert Reachable(g, b);
      var p :| WalkFromTo(g, 0, b, p);
      WalkNumbered(g, node, number, last, par, p);
    }
  }

  /** Parents and roots by block. */
  method Forest(node: seq<nat>, number: map<nat, nat>, header: seq<nat>, types: seq<NodeType>)
    returns (parent: map<nat, nat>, roots: seq<nat>)
    requires |number| <= |node| == |header| == |types| && (forall i :: 0 <= i < |header| ==> header[i] < |node|)
    requires forall k :: 0 <= k < |number| ==> node[k] in number && number[node[k]] == k
    requires forall b :: b in number ==> number[b] < |number| && node[number[b]] == b
    ensures forall b :: b in parent <==> b in number && header[number[b]] != 0
    ensures forall b :: b in parent ==> parent[b] == node[header[number[b]]]
    ensures forall b :: b in roots <==> b in number && header[number[b]] == 0 && types[number[b]] != NonHeader
  {
    parent, roots := map[], [];
    for i := 0 to |number|
      invariant forall b :: b in parent <==> b in number && number[b] < i && header[number[b]] != 0
      invariant forall b :: b in parent ==> parent[b] == node[header[number[b]]]
      invariant forall b :: b in roots <==> b in number && number[b] < i && header[number[b]] == 0 && types[number[b]] != NonHeader
    {
      var h := header[i];
      if h == 0 && types[i] != NonHeader {
        roots := roots + [node[i]];
      } else if h != 0 || types[i] != NonHeader {
        parent := parent[node[i] := node[h]];
      }
    }
  }

  class Analysis {
    const g: Cfg
    var node: seq<nat>
    var number: map<nat, nat>
    var last: seq<nat>
    var header: seq<nat>
    var types: seq<NodeType>
    var parent: map<nat, nat>
    var roots: seq<nat>
    ghost var par: seq<nat>

    /** The numbering and the loops found on it. */
    ghost predicate Valid()
      reads this
    {
      && EntryFirst(g) && IsSpanning(g, node, number, last, par) && FlowOk(FlowOf(g, node, par))
      && |header| == |types| == |g| + 1 && HeadersOk(header, 0)
      && LoopsDone(FlowOf(g, node, par), header, types, 0)
    }

    constructor (g: Cfg)
      requires EntryFirst(g) && AllReachable(g)
      ensures this.g == g && Valid() && ForestOk()
    {
      ghost var par;
      var node, number, last;
      node, number, last, par := DepthFirst(g);
      var header, types := FindLoops(g, node, number, last, par);
      NumberCount(g, node, number, last, par);
      this.g, this.node, this.number, this.last, this.par := g, node, number, last, par;
      this.header, this.types := header, types;
      var parent, roots := Forest(node, number, header, types);
      this.parent, this.roots := parent, roots;
    }

    /** A block's parent is the header of the innermost loop around it; the roots
        are the headers that are in no other loop. */
    ghost predicate ForestOk()
      requires Valid()
      reads this
    {
      && (forall b :: b in parent <==> b in number && header[number[b]] != 0)
      && (forall b :: b in parent ==> parent[b] == node[header[number[b]]])
      && (forall b :: b in roots <==> b in number && header[number[b]] == 0 && types[number[b]] != NonHeader)
    }

    method GetParent(b: nat) returns (r: nat)
      requires Valid() && ForestOk()
      ensures r == if b in number && header[number[b]] != 0 then node[header[number[b]]] else NullBlock(g)
    {
      r := if b in parent then parent[b] else NullBlock(g);
    }
  }

  /** Members have no header yet. */
  lemma MembersFree(f: Flow, rep: seq<nat>, header: seq<nat>, nbp: seq<set<nat>>, w: nat, ps: set<nat>)
    requires Shape(f, rep, header, nbp, w + 1) && w < |f.par| && AllMembers(f, rep, ps, w)
    ensures forall x :: x in ps ==> x < |header| && rep[x] == x && header[x] == 0
  {
    forall x | x in ps
      ensures x < |header| && rep[x] == x && header[x] == 0
    {
      assert Member(f, rep, ps, w, x);
      if header[x] != 0 { TopSmaller(header, x); }
    }
  }

  lemma {:induction false} TopSmaller(h: seq<nat>, u: nat)
    requires HeadersOk(h, 0) && u < |h|
    ensures Top(h, u) <= u && (h[u] != 0 ==> Top(h, u) < u)
    decreases u
  {
    if h[u] != 0 { TopSmaller(h, h[u]); }
  }

  // ---------------------------------------------------------------------
  // What the result means for the blocks
  // ---------------------------------------------------------------------

  /** Guarding by numbers is dominating by blocks. */
  lemma GuardsIsDominates(g: Cfg, node: seq<nat>, number: map<nat, nat>, last: seq<nat>, par: seq<nat>, w: nat, u: nat)
    requires EntryFirst(g) && IsSpanning(g, node, number, last, par) && FlowOk(FlowOf(g, node, par))
    requires w < |par| && u < |par| && node[w] < |g| && node[u] < |g|
    ensures Guards(FlowOf(g, node, par), w, u) <==> Dominates(g, node[w], node[u])
  {
    var f := FlowOf(g, node, par);
    if Guards(f, w, u) {
      forall p | WalkFromTo(g, 0, node[u], p)
        ensures node[w] in p
      {
        var q := NumberWalk(g, node, number, last, par, p);
        assert w in q;
        var i :| 0 <= i < |q| && q[i] == w;
        assert p[i] == node[w];
      }
    }
    if Dominates(g, node[w], node[u]) {
      forall q | PathFromTo(f, Nodes(f), 0, u, q)
        ensures w in q
      {
        var p := BlockWalk(g, node, number, last, par, q);
        assert node[w] in p;
        var i :| 0 <= i < |p| && p[i] == node[w];
        assert number[p[i]] == q[i];
      }
    }
  }

  /** The target of a numbered block has a number, and the flow graph has the edge. */
  lemma TargetNumbered(g: Cfg, node: seq<nat>, number: map<nat, nat>, last: seq<nat>, par: seq<nat>, k: nat, t: nat)
    requires IsSpanning(g, node, number, last, par) && k < |par| && t in Targets(g, node[k])
    ensures t in number && number[t] < |par| && node[number[t]] == t && k in FlowOf(g, node, par).preds[number[t]]
  {
    PredIs(g, node, |par|, number[t], k);
  }

  lemma {:induction false} StepNumbered(g: Cfg, node: seq<nat>, number: map<nat, nat>, last: seq<nat>, par: seq<nat>, p: seq<nat>, i: nat)
    requires IsSpanning(g, node, number, last, par) && IsWalk(g, p) && p[0] in number && i < |p|
    ensures p[i] in number && number[p[i]] < |par| && node[number[p[i]]] == p[i]
    decreases i
  {
    if i > 0 {
      StepNumbered(g, node, number, last, par, p, i - 1);
      assert Edge(g, p[i - 1], p[i]);
      TargetNumbered(g, node, number, last, par, number[p[i - 1]], p[i]);
    }
  }

  lemma NumberWalk(g: Cfg, node: seq<nat>, number: map<nat, nat>, last: seq<nat>, par: seq<nat>, p: seq<nat>)
    returns (q: seq<nat>)
    requires EntryFirst(g) && IsSpanning(g, node, number, last, par) && FlowOk(FlowOf(g, node, par))
    requires IsWalk(g, p) && p[0] in number
    ensures |q| == |p| && IsPath(FlowOf(g, node, par), Nodes(FlowOf(g, node, par)), q)
    ensures forall i :: 0 <= i < |p| ==> q[i] < |par| && node[q[i]] == p[i]
  {
    forall i | 0 <= i < |p|
      ensures p[i] in number && number[p[i]] < |par| && node[number[p[i]]] == p[i]
    {
      StepNumbered(g, node, number, last, par, p, i);
    }
    q := seq(|p|, i requires 0 <= i < |p| => number[p[i]]);
    forall i | 0 <= i < |q| - 1
      ensures q[i] in FlowOf(g, node, par).preds[q[i + 1]]
    {
      assert Edge(g, p[i], p[i + 1]);
      TargetNumbered(g, node, number, last, par, q[i], p[i + 1]);
    }
    RangeSize(|par|);
  }

  lemma BlockEdge(g: Cfg, node: seq<nat>, number: map<nat, nat>, last: seq<nat>, par: seq<nat>, x: nat, y: nat)
    requires IsSpanning(g, node, number, last, par) && y < |par| && x in FlowOf(g, node, par).preds[y]
    ensures x < |par| && node[x] < |g| && Edge(g, node[x], node[y])
  {
    PredIs(g, node, |par|, y, x);
  }

  lemma BlockWalk(g: Cfg, node: seq<nat>, number: map<nat, nat>, last: seq<nat>, par: seq<nat>, q: seq<nat>)
    returns (p: seq<nat>)
    requires EntryFirst(g) && IsSpanning(g, node, number, last, par) && FlowOk(FlowOf(g, node, par))
    requires IsPath(FlowOf(g, node, par), Nodes(FlowOf(g, node, par)), q)
    requires q[|q| - 1] < |par| && node[q[|q| - 1]] < |g|
    ensures |p| == |q| && IsWalk(g, p)
    ensures forall i :: 0 <= i < |p| ==> q[i] < |par| && node[q[i]] == p[i]
  {
    forall i | 0 <= i < |q| - 1
      ensures q[i] < |par| && node[q[i]] < |g| && Edge(g, node[q[i]], node[q[i + 1]])
    {
      BlockEdge(g, node, number, last, par, q[i], q[i + 1]);
    }
    p := seq(|q|, i requires 0 <= i < |q| && q[i] < |par| => node[q[i]]);
  }

  /** A member of a loop with another member than its header is a real block. */
  lemma MemberIsBlock(g: Cfg, node: seq<nat>, number: map<nat, nat>, last: seq<nat>, par: seq<nat>,
                      w: nat, b: set<nat>, t: NodeType, u: nat)
    requires EntryFirst(g) && IsSpanning(g, node, number, last, par) && FlowOk(FlowOf(g, node, par))
    requires w < |par| && LoopOk(FlowOf(g, node, par), w, b, t) && b != {w} && u in b
    ensures u < |par| && node[u] < |g|
  {
    var y := LeavesMember(FlowOf(g, node, par), w, b, t, u);
    BlockEdge(g, node, number, last, par, u, y);
  }

  lemma LeavesMember(f: Flow, w: nat, b: set<nat>, t: NodeType, u: nat) returns (y: nat)
    requires FlowOk(f) && w < |f.par| && LoopOk(f, w, b, t) && b != {w} && u in b
    ensures y < |f.par| && u in f.preds[y]
  {
    var v :| v in b && v != u;
    LoopConnected(f, w, b, t, u, v);
    var p :| PathFromTo(f, b, u, v, p);
    assert p[0] in f.preds[p[1]];
    y := p[1];
  }

  /** A header with another block in its loop is marked reducible exactly if it
      dominates all blocks of the loop. */
  lemma ReducibleDominates(a: Analysis, w: nat)
    requires a.Valid() && w < |a.par|
    requires Body(FlowOf(a.g, a.node, a.par), a.header, w) != {w}
    ensures a.types[w] == Reducible <==>
            forall u :: u in Body(FlowOf(a.g, a.node, a.par), a.header, w) ==> u < |a.par| && Dominates(a.g, a.node[w], a.node[u])
  {
    var f := FlowOf(a.g, a.node, a.par);
    var b := Body(f, a.header, w);
    assert LoopDone(f, a.header, a.types, w);
    ReducibleIff(f, w, b, a.types[w]);
    forall u | u in b
      ensures u < |a.par| && (Guards(f, w, u) <==> Dominates(a.g, a.node[w], a.node[u]))
    {
      MemberIsBlock(a.g, a.node, a.number, a.last, a.par, w, b, a.types[w], u);
      MemberIsBlock(a.g, a.node, a.number, a.last, a.par, w, b, a.types[w], w);
      GuardsIsDominates(a.g, a.node, a.number, a.last, a.par, w, u);
    }
  }

  lemma NoBackNode(a: Analysis, x: nat)
    requires a.Valid() && x < |a.par|
    requires forall v: nat, w: nat :: w < |a.par| ==> !IsBack(FlowOf(a.g, a.node, a.par), v, w)
    ensures a.header[x] == 0 && a.types[x] == NonHeader
  {
    var f := FlowOf(a.g, a.node, a.par);
    var h := a.header[x];
    RangeSize(|a.par|);
    assert LoopDone(f, a.header, a.types, x) && LoopDone(f, a.header, a.types, h);
    assert x in Body(f, a.header, h) <==> InLoop(a.header, x, h);
  }

  /** Without back edges no block has a parent and there are no roots. */
  lemma NoBackNoLoop(a: Analysis)
    requires a.Valid() && a.ForestOk()
    requires forall v: nat, w: nat :: w < |a.par| ==> !IsBack(FlowOf(a.g, a.node, a.par), v, w)
    ensures a.parent == map[] && a.roots == []
  {
    assert a.roots != [] ==> a.roots[0] in a.roots;
    forall b | b in a.number
      ensures b !in a.parent && b !in a.roots
    {
      NoBackNode(a, a.number[b]);
    }
    assert forall b :: b !in a.parent;
    assert forall b :: b !in a.roots;
  }
}
