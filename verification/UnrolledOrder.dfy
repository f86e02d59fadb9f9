/** Sorting the blocks after a loop was unrolled: the clones stand behind all other
    blocks, outer loops are still cyclic, and loop headers count their exit blocks as
    targets. */
module UnrolledOrder {
  import opened BlockOrder
  import Dominators
  import ExitOrder
  import opened Graph
  import opened TopSort
  import U = Unroll

  function CfgOf(f: U.Fn): Cfg {
    seq(|f|, u requires 0 <= u < |f| => seq(|f[u]|, i requires 0 <= i < |f[u]| => if f[u][i].To? then f[u][i].b else |f|))
  }

  lemma CfgEdge(f: U.Fn, u: nat, v: nat)
    requires v < |f|
    ensures Edge(CfgOf(f), u, v) <==> U.Edge(f, u, v)
  {
    if U.Edge(f, u, v) {
      var i :| 0 <= i < |f[u]| && f[u][i] == U.To(v);
      assert CfgOf(f)[u][i] == v;
    }
  }

  /** The blocks of `f` in an order in which each but the first has an earlier one that
      jumps to it; nothing leads to the first. */
  ghost predicate Listed(f: U.Fn, order: seq<nat>) {
    U.Closed(f) && ExitOrder.InOrder(CfgOf(f), order)
  }

  /** A natural loop with a back edge. */
  ghost predicate Natural(f: U.Fn, l: U.Loop) {
    && l.header in l.blocks && 0 !in l.blocks && (forall b :: b in l.blocks ==> b < |f|)
    && (forall u: nat, v: nat :: U.Edge(f, u, v) && v in l.blocks && v != l.header ==> u in l.blocks)
    && (exists u: nat :: u in l.blocks && U.Edge(f, u, l.header))
  }

  lemma EarlierBlock(f: U.Fn, order: seq<nat>, x: nat) returns (p: nat)
    requires Listed(f, order) && 0 < x < |f|
    ensures p < |f| && U.Edge(f, p, x) && IndexOf(order, p) < IndexOf(order, x)
  {
    var j := IndexOf(order, x);
    assert HasEarlierIn(CfgOf(f), order, j);
    var i :| 0 <= i < j && Edge(CfgOf(f), order[i], order[j]);
    p := order[i];
    CfgEdge(f, p, x);
  }

  lemma InnerBlock(f: U.Fn, order: seq<nat>, l: U.Loop, c: nat) returns (p: nat)
    requires Listed(f, order) && Natural(f, l) && c in l.blocks && c != l.header
    ensures p in l.blocks && U.Edge(f, p, c) && IndexOf(order, p) < IndexOf(order, c)
  {
    p := EarlierBlock(f, order, c);
  }

  /** The header is the first block of the loop. */
  lemma {:induction false} HeaderFirst(f: U.Fn, order: seq<nat>, l: U.Loop, x: nat)
    requires Listed(f, order) && Natural(f, l) && x in l.blocks
    ensures IndexOf(order, l.header) <= IndexOf(order, x)
    decreases IndexOf(order, x)
  {
    if x != l.header {
      var p := InnerBlock(f, order, l, x);
      HeaderFirst(f, order, l, p);
    }
  }

  /** A block has a jump to it from the same copy of an earlier predecessor. */
  lemma EdgeKept(f: U.Fn, f': U.Fn, l: U.Loop, k: nat, copies: U.Copies, orig: U.Origin, p: nat, x: nat)
    requires U.IsUnrolling(f, f', l, k, copies, orig) && U.Edge(f, p, x)
    requires x == l.header ==> p !in l.blocks
    requires x in l.blocks && x != l.header ==> p in l.blocks
    ensures U.Edge(f', p, x)
  {
    assert orig[p] == (p, 0);
    var i :| 0 <= i < |f[p]| && f[p][i] == U.To(x);
    if p in l.blocks {
      assert f'[p][i] == U.Redirect(copies, l.header, 0, U.To(x));
      assert x in l.blocks ==> copies[x][0] == x && |copies[x]| > 0;
    }
  }

  /** The copy of a jump inside the loop. */
  lemma CopyEdge(f: U.Fn, f': U.Fn, l: U.Loop, k: nat, copies: U.Copies, orig: U.Origin, u: nat, v: nat, j: nat)
    requires U.IsUnrolling(f, f', l, k, copies, orig) && U.Edge(f, u, v) && u in l.blocks && v in l.blocks
    requires j < U.NumCopies(l, k, u) && U.NextCopy(l, u, j, v) < U.NumCopies(l, k, v)
    ensures U.Edge(f', U.Place(copies, u, j), U.Place(copies, v, U.NextCopy(l, u, j, v)))
  {
    var x := U.Place(copies, u, j);
    assert orig[x] == (u, j);
    var i :| 0 <= i < |f[u]| && f[u][i] == U.To(v);
    assert f'[x][i] == U.Redirect(copies, l.header, j, U.To(v));
  }

  /** The graph that is sorted: all jumps, and maybe more edges, none to the first block. */
  ghost predicate Extends(g: Cfg, f: U.Fn) {
    && |g| == |f| && NoneInto(g, 0)
    && forall u: nat, v: nat :: u < |f| && v < |f| && U.Edge(f, u, v) ==> Edge(g, u, v)
  }

  /** The header leads to every copy of every block of its loop. */
  lemma {:induction false} HeaderLeads(f: U.Fn, f': U.Fn, l: U.Loop, k: nat, copies: U.Copies, orig: U.Origin, order: seq<nat>, g: Cfg,
                                       c: nat, j: nat)
    requires Listed(f, order) && Natural(f, l) && U.IsUnrolling(f, f', l, k, copies, orig) && Extends(g, f')
    requires c in l.blocks && j < U.NumCopies(l, k, c)
    ensures Leads(g, l.header, U.Place(copies, c, j))
    decreases j, IndexOf(order, c)
  {
    if c != l.header {
      var p := InnerBlock(f, order, l, c);
      CopiesToo(l, k, p, c, j);
      HeaderLeads(f, f', l, k, copies, orig, order, g, p, j);
      StepLeads(f, f', l, k, copies, orig, g, p, c, j);
    } else if j > 0 {
      BackLeads(f, f', l, k, copies, orig, order, g, j);
    } else {
      assert copies[c][0] == c;
      OldBlock(f, f', l, k, copies, orig, c);
      LeadsSelf(g, c);
    }
  }

  lemma CopiesToo(l: U.Loop, k: nat, p: nat, c: nat, j: nat)
    requires p in l.blocks && c in l.blocks && c != l.header && j < U.NumCopies(l, k, c)
    ensures j < U.NumCopies(l, k, p)
  {
  }

  lemma StepLeads(f: U.Fn, f': U.Fn, l: U.Loop, k: nat, copies: U.Copies, orig: U.Origin, g: Cfg, p: nat, c: nat, j: nat)
    requires U.IsUnrolling(f, f', l, k, copies, orig) && Extends(g, f') && U.Edge(f, p, c)
    requires p in l.blocks && c in l.blocks && c != l.header && j < U.NumCopies(l, k, p) && j < U.NumCopies(l, k, c)
    requires Leads(g, l.header, U.Place(copies, p, j))
    ensures Leads(g, l.header, U.Place(copies, c, j))
  {
    PlaceIn(f, f', l, k, copies, orig, p, j);
    PlaceIn(f, f', l, k, copies, orig, c, j);
    CopyEdge(f, f', l, k, copies, orig, p, c, j);
    LeadsEdge(g, l.header, U.Place(copies, p, j), U.Place(copies, c, j));
  }

  lemma {:induction false} BackLeads(f: U.Fn, f': U.Fn, l: U.Loop, k: nat, copies: U.Copies, orig: U.Origin, order: seq<nat>, g: Cfg, j: nat)
    requires Listed(f, order) && Natural(f, l) && U.IsUnrolling(f, f', l, k, copies, orig) && Extends(g, f')
    requires 0 < j < U.NumCopies(l, k, l.header)
    ensures Leads(g, l.header, U.Place(copies, l.header, j))
    decreases j - 1, |f|
  {
    var b: nat :| b in l.blocks && U.Edge(f, b, l.header);
    EnoughCopies(l, k, b, j);
    PlaceIn(f, f', l, k, copies, orig, b, j - 1);
    PlaceIn(f, f', l, k, copies, orig, l.header, j);
    HeaderLeads(f, f', l, k, copies, orig, order, g, b, j - 1);
    CopyEdge(f, f', l, k, copies, orig, b, l.header, j - 1);
    LeadsEdge(g, l.header, U.Place(copies, b, j - 1), U.Place(copies, l.header, j));
  }

  lemma EnoughCopies(l: U.Loop, k: nat, b: nat, j: nat)
    requires b in l.blocks && l.header in l.blocks && 0 < j < U.NumCopies(l, k, l.header)
    ensures j - 1 < U.NumCopies(l, k, b)
  {
  }

  lemma PlaceIn(f: U.Fn, f': U.Fn, l: U.Loop, k: nat, copies: U.Copies, orig: U.Origin, c: nat, j: nat)
    requires U.IsUnrolling(f, f', l, k, copies, orig) && c in l.blocks && j < U.NumCopies(l, k, c)
    ensures U.Place(copies, c, j) < |f'|
  {
  }

  /** Original blocks keep an earlier predecessor. */
  lemma EarlierKept(f: U.Fn, f': U.Fn, l: U.Loop, k: nat, copies: U.Copies, orig: U.Origin, order: seq<nat>, x: nat) returns (p: nat)
    requires Listed(f, order) && Natural(f, l) && U.IsUnrolling(f, f', l, k, copies, orig) && 0 < x < |f|
    ensures p < |f| && U.Edge(f', p, x) && IndexOf(order, p) < IndexOf(order, x)
  {
    p := EarlierBlock(f, order, x);
    if x == l.header && p in l.blocks { HeaderFirst(f, order, l, p); }
    EdgeKept(f, f', l, k, copies, orig, p, x);
  }

  /** The list of blocks after cloning: clones are appended. */
  function Appended(order: seq<nat>, n: nat): seq<nat>
    requires |order| <= n
  {
    order + seq(n - |order|, i requires 0 <= i < n - |order| => |order| + i)
  }

  lemma AppendedIs(order: seq<nat>, n: nat)
    requires Permutes(order, |order|) && |order| <= n
    ensures Permutes(Appended(order, n), n) && |Appended(order, n)| == n
    ensures forall i: nat :: i < n ==> Appended(order, n)[i] == if i < |order| then order[i] else i
  {
    var list := Appended(order, n);
    forall x: nat | x < n
      ensures x in list
    {
      if x < |order| {
        assert x in order;
        var i :| 0 <= i < |order| && order[i] == x;
        assert list[i] == x;
      } else {
        assert list[x] == x;
      }
    }
  }

  lemma OriginalPlaced(f: U.Fn, f': U.Fn, l: U.Loop, k: nat, copies: U.Copies, orig: U.Origin, order: seq<nat>, g: Cfg, list: seq<nat>, i: nat)
    requires Listed(f, order) && Natural(f, l) && U.IsUnrolling(f, f', l, k, copies, orig) && Extends(g, f')
    requires 0 < i < |f| <= |f'| && list == Appended(order, |f'|) && Permutes(list, |g|) && NoneInto(Renamed(g, list), 0)
    ensures Placed(Renamed(g, list), i)
  {
    AppendedIs(order, |f'|);
    assert order[i] != order[0];
    var p := EarlierKept(f, f', l, k, copies, orig, order, order[i]);
    var a := IndexOf(order, p);
    assert IndexOf(order, order[i]) == i;
    RenamedEdge(g, list, a, i);
    EarlierPlaces(Renamed(g, list), a, i);
  }

  lemma OldBlock(f: U.Fn, f': U.Fn, l: U.Loop, k: nat, copies: U.Copies, orig: U.Origin, x: nat)
    requires U.IsUnrolling(f, f', l, k, copies, orig) && x < |f|
    ensures x < |f'|
  {
    assert orig[x] == (x, 0);
  }

  lemma NotFewer(f: U.Fn, f': U.Fn, l: U.Loop, k: nat, copies: U.Copies, orig: U.Origin)
    requires U.IsUnrolling(f, f', l, k, copies, orig)
    ensures |f| <= |f'|
  {
    if |f| > 0 { OldBlock(f, f', l, k, copies, orig, |f| - 1); }
  }

  lemma CloneLed(f: U.Fn, f': U.Fn, l: U.Loop, k: nat, copies: U.Copies, orig: U.Origin, order: seq<nat>, g: Cfg, x: nat)
    requires Listed(f, order) && Natural(f, l) && U.IsUnrolling(f, f', l, k, copies, orig) && Extends(g, f') && |f| <= x < |f'|
    ensures Leads(g, l.header, x)
  {
    var c, j := CloneOf(f, f', l, k, copies, orig, x);
    HeaderLeads(f, f', l, k, copies, orig, order, g, c, j);
  }

  lemma CloneOf(f: U.Fn, f': U.Fn, l: U.Loop, k: nat, copies: U.Copies, orig: U.Origin, x: nat) returns (c: nat, j: nat)
    requires U.IsUnrolling(f, f', l, k, copies, orig) && |f| <= x < |f'|
    ensures c in l.blocks && j < U.NumCopies(l, k, c) && U.Place(copies, c, j) == x
  {
    assert U.IsClone(l.blocks, copies, orig, x);
    c, j := orig[x].0, orig[x].1;
  }

  lemma LedPlaces(g: Cfg, h: nat, x: nat)
    requires 0 < h < x < |g| && Leads(g, h, x)
    ensures Placed(g, x)
  {
    assert LedFromSmaller(g, x);
  }

  /** A clone is led to by the header of the loop, which stands before all clones. */
  lemma ClonePlaced(f: U.Fn, f': U.Fn, l: U.Loop, k: nat, copies: U.Copies, orig: U.Origin, order: seq<nat>, g: Cfg, list: seq<nat>, i: nat)
    requires Listed(f, order) && Natural(f, l) && U.IsUnrolling(f, f', l, k, copies, orig) && Extends(g, f')
    requires |f| <= i < |f'| && list == Appended(order, |f'|) && Permutes(list, |g|)
    ensures Placed(Renamed(g, list), i)
  {
    AppendedIs(order, |f'|);
    CloneLed(f, f', l, k, copies, orig, order, g, i);
    var h := IndexOf(order, l.header);
    assert list[h] == l.header && list[i] == i && h > 0;
    RenamedLeads(g, list, h, i);
    LedPlaces(Renamed(g, list), h, i);
  }

  /** So after every loop all blocks are placed, whatever edges are added. */
  lemma UnrolledPlaced(f: U.Fn, f': U.Fn, l: U.Loop, k: nat, copies: U.Copies, orig: U.Origin, order: seq<nat>, g: Cfg)
    requires Listed(f, order) && Natural(f, l) && U.IsUnrolling(f, f', l, k, copies, orig) && Extends(g, f')
    ensures |f| <= |f'| && Permutes(Appended(order, |f'|), |g|) && AllPlaced(Renamed(g, Appended(order, |f'|)))
  {
    NotFewer(f, f', l, k, copies, orig);
    AppendedIs(order, |f'|);
    var list := Appended(order, |f'|);
    EntryRenamed(g, list);
    forall i: nat | 0 < i < |g|
      ensures Placed(Renamed(g, list), i)
    {
      if i < |f| {
        OriginalPlaced(f, f', l, k, copies, orig, order, g, list, i);
      } else {
        ClonePlaced(f, f', l, k, copies, orig, order, g, list, i);
      }
    }
  }

  /** So `Function::topSort` puts the function in order again. */
  method SortUnrolled(f: U.Fn, f': U.Fn, l: U.Loop, k: nat, ghost copies: U.Copies, ghost orig: U.Origin, order: seq<nat>, e: seq<seq<nat>>)
    returns (order': seq<nat>)
    requires Listed(f, order) && Natural(f, l) && U.IsUnrolling(f, f', l, k, copies, orig) && U.Closed(f')
    requires ExitOrder.ExitsOk(CfgOf(f'), e)
    ensures Listed(f', order')
  {
    var g := CfgOf(f');
    EntryFree(f, f', l, k, copies, orig, order);
    ExitOrder.ExitsIntoNone(g, e);
    ExitsExtend(f', e);
    UnrolledPlaced(f, f', l, k, copies, orig, order, ExitOrder.WithExits(g, e));
    AppendedIs(order, |f'|);
    order' := ExitOrder.SortFunction(g, e, Appended(order, |f'|));
  }

  lemma EntryFree(f: U.Fn, f': U.Fn, l: U.Loop, k: nat, copies: U.Copies, orig: U.Origin, order: seq<nat>)
    requires Listed(f, order) && U.IsUnrolling(f, f', l, k, copies, orig) && U.Closed(f')
    ensures |f'| > 0 && NoneInto(CfgOf(f'), 0)
  {
    OldBlock(f, f', l, k, copies, orig, 0);
    forall p: nat ensures !Edge(CfgOf(f'), p, 0) { CfgEdge(f', p, 0); FirstFree(f, f', l, k, copies, orig, order, p); }
  }

  lemma FirstFree(f: U.Fn, f': U.Fn, l: U.Loop, k: nat, copies: U.Copies, orig: U.Origin, order: seq<nat>, p: nat)
    requires Listed(f, order) && U.IsUnrolling(f, f', l, k, copies, orig)
    ensures !U.Edge(f', p, 0)
  {
    assert orig[0] == (0, 0);
    if p < |f'| && U.Edge(f', p, 0) {
      U.EdgeProjects(f, f', l, k, copies, orig, p, 0);
      CfgEdge(f, orig[p].0, 0);
    }
  }

  lemma ExitsExtend(f: U.Fn, e: seq<seq<nat>>)
    requires |e| == |f| && NoneInto(ExitOrder.WithExits(CfgOf(f), e), 0)
    ensures Extends(ExitOrder.WithExits(CfgOf(f), e), f)
  {
    forall u: nat, v: nat | u < |f| && v < |f| && U.Edge(f, u, v)
      ensures Edge(ExitOrder.WithExits(CfgOf(f), e), u, v)
    {
      CfgEdge(f, u, v);
      ExitOrder.WithExitsEdge(CfgOf(f), e, u, v);
    }
  }
}
