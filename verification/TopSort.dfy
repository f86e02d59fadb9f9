/** `util::top_sort`, the order of blocks it leaves, and when every block then
    has an earlier predecessor. */
module TopSort {
  import opened Dominators
  import opened Graph

  ghost predicate Leads(g: Cfg, a: nat, b: nat) {
    exists p :: WalkFromTo(g, a, b, p)
  }

  lemma LeadsSelf(g: Cfg, a: nat)
    requires a < |g|
    ensures Leads(g, a, a)
  {
    assert WalkFromTo(g, a, a, [a]);
  }

  lemma LeadsEdge(g: Cfg, a: nat, u: nat, v: nat)
    requires Leads(g, a, u) && Edge(g, u, v) && v < |g|
    ensures Leads(g, a, v)
  {
    var p :| WalkFromTo(g, a, u, p);
    ExtendWalk(g, a, u, v, p);
  }

  lemma {:induction false} LeadsTrans(g: Cfg, a: nat, b: nat, p: seq<nat>)
    requires |p| > 0 && Leads(g, a, p[0]) && WalkFromTo(g, p[0], b, p)
    ensures Leads(g, a, b)
    decreases |p|
  {
    if |p| > 1 {
      LeadsEdge(g, a, p[0], p[1]);
      assert WalkFromTo(g, p[1], b, p[1..]);
      LeadsTrans(g, a, b, p[1..]);
    }
  }

  /** A set of blocks that holds all targets of its blocks holds all they lead to. */
  lemma {:induction false} ClosedWalk(g: Cfg, s: seq<nat>, p: seq<nat>)
    requires IsWalk(g, p) && p[0] in s
    requires forall u: nat, v: nat :: u in s && Edge(g, u, v) && v < |g| ==> v in s
    ensures p[|p| - 1] in s
    decreases |p|
  {
    if |p| > 1 {
      assert Edge(g, p[0], p[1]);
      assert IsWalk(g, p[1..]);
      ClosedWalk(g, s, p[1..]);
    }
  }

  ghost predicate Before(s: seq<nat>, k: nat, w: nat) {
    exists j :: 0 <= j < k && j < |s| && s[j] == w
  }

  /** A predecessor of `s[k]` stands later in `s`. */
  ghost predicate HasLater(g: Cfg, s: seq<nat>, k: nat) {
    exists j :: 0 <= k < j < |s| && Edge(g, s[j], s[k])
  }

  ghost function Elems(s: seq<nat>): set<nat> { set x | x in s }

  /** `w` leads to `u` through blocks of `a`. */
  ghost predicate Within(g: Cfg, a: set<nat>, w: nat, u: nat) {
    exists p :: WalkFromTo(g, w, u, p) && forall i :: 1 <= i < |p| ==> p[i] in a
  }

  lemma WithinMore(g: Cfg, a: set<nat>, b: set<nat>, w: nat, u: nat)
    requires Within(g, a, w, u) && a <= b
    ensures Within(g, b, w, u)
  {
    var p :| WalkFromTo(g, w, u, p) && forall i :: 1 <= i < |p| ==> p[i] in a;
    assert forall i :: 1 <= i < |p| ==> p[i] in b;
  }

  /** `w` was left behind `s[k]`, and leads back to it through blocks left before `w`. */
  ghost predicate LeftBehind(g: Cfg, s: seq<nat>, k: nat, w: nat)
    requires k < |s|
  {
    exists j :: k <= j < |s| && s[j] == w && Within(g, Elems(s[..j]), w, s[k])
  }

  /** `w` is on the stack, and leads back to `s[k]` through blocks that were left or are
      above it. */
  ghost predicate OnStack(g: Cfg, s: seq<nat>, stack: seq<nat>, k: nat, w: nat)
    requires k < |s|
  {
    exists i :: 0 <= i < |stack| && stack[i] == w && Within(g, Elems(s) + Elems(stack[i + 1..]), w, s[k])
  }

  /** The targets of `s[k]` were left before it, or the search went on from them to it. */
  ghost predicate Settled(g: Cfg, s: seq<nat>, stack: seq<nat>, k: nat)
    requires k < |s|
  {
    forall w: nat :: Edge(g, s[k], w) && w < |g| ==> Before(s, k, w) || LeftBehind(g, s, k, w) || OnStack(g, s, stack, k, w)
  }

  ghost predicate Distinct(s: seq<nat>, n: nat) {
    (forall i :: 0 <= i < |s| ==> s[i] < n) && (forall i, j :: 0 <= i < j < |s| ==> s[i] != s[j])
  }

  /** `s` lists all blocks below `n`, each once. */
  ghost predicate Permutes(s: seq<nat>, n: nat) {
    |s| == n && Distinct(s, n) && forall x: nat :: x < n ==> x in s
  }

  /** `x` follows a smaller block that leads to it, or has a predecessor it does
      not lead to. Blocks are compared by the numbers `top_sort` is given. */
  ghost predicate Placed(g: Cfg, x: nat) {
    LedFromSmaller(g, x) || HasOuterPred(g, x)
  }

  ghost predicate LedFromSmaller(g: Cfg, x: nat) {
    exists r: nat :: 1 <= r < x && Leads(g, r, x)
  }

  ghost predicate HasOuterPred(g: Cfg, x: nat) {
    exists p: nat :: p < |g| && Edge(g, p, x) && !Leads(g, x, p)
  }

  /** `s[k]` was entered from a block left later, in a search that a smaller block started. */
  ghost predicate Inner(g: Cfg, s: seq<nat>, k: nat)
    requires k < |s|
  {
    HasLater(g, s, k) && LedFromSmaller(g, s[k])
  }

  /** A search started at `s[k]`: of its predecessors exactly those it leads to were left before it. */
  ghost predicate Started(g: Cfg, s: seq<nat>, k: nat)
    requires k < |s|
  {
    && !LedFromSmaller(g, s[k])
    && forall p: nat :: p < |g| && Edge(g, p, s[k]) ==> (Before(s, k + 1, p) <==> Leads(g, s[k], p))
  }

  ghost predicate Sorted(g: Cfg, s: seq<nat>, k: nat)
    requires k < |s|
  {
    s[k] == 0 || Inner(g, s, k) || Started(g, s, k)
  }

  lemma HasLaterPrefix(g: Cfg, s: seq<nat>, t: seq<nat>, k: nat)
    requires s <= t && HasLater(g, s, k)
    ensures HasLater(g, t, k)
  {
    var j :| 0 <= k < j < |s| && Edge(g, s[j], s[k]);
    assert t[j] == s[j] && t[k] == s[k];
  }

  lemma SortedPrefix(g: Cfg, s: seq<nat>, t: seq<nat>, k: nat)
    requires s <= t && k < |s| && Sorted(g, s, k)
    ensures Sorted(g, t, k)
  {
    assert t[k] == s[k];
    if Inner(g, s, k) {
      HasLaterPrefix(g, s, t, k);
    } else if s[k] != 0 {
      forall p: nat | p < |g| && Edge(g, p, t[k])
        ensures Before(t, k + 1, p) <==> Leads(g, t[k], p)
      {
        assert Before(t, k + 1, p) <==> Before(s, k + 1, p) by {
          if Before(s, k + 1, p) { var j :| 0 <= j < k + 1 && j < |s| && s[j] == p; assert t[j] == p; }
          if Before(t, k + 1, p) { var j :| 0 <= j < k + 1 && j < |t| && t[j] == p; assert s[j] == p; }
        }
      }
    }
  }

  /** In a complete list, a predecessor stands later exactly if the block is placed. */
  lemma SortedIff(g: Cfg, s: seq<nat>, k: nat)
    requires Permutes(s, |g|) && k < |s| && Sorted(g, s, k) && s[k] != 0
    ensures HasLater(g, s, k) <==> Placed(g, s[k])
  {
    if !Inner(g, s, k) {
      if HasLater(g, s, k) {
        var j :| 0 <= k < j < |s| && Edge(g, s[j], s[k]);
        assert !Before(s, k + 1, s[j]);
        assert HasOuterPred(g, s[k]);
      }
      if HasOuterPred(g, s[k]) {
        var p: nat :| p < |g| && Edge(g, p, s[k]) && !Leads(g, s[k], p);
        assert p in s;
        var j :| 0 <= j < |s| && s[j] == p;
        assert !Before(s, k + 1, p);
        assert j > k;
      }
    }
  }

  lemma BeforeMore(s: seq<nat>, v: nat, k: nat, w: nat)
    requires k <= |s| && Before(s, k, w)
    ensures Before(s + [v], k, w)
  {
    var j :| 0 <= j < k && j < |s| && s[j] == w;
    assert (s + [v])[j] == w;
  }

  lemma LeftMore(g: Cfg, s: seq<nat>, v: nat, k: nat, w: nat)
    requires k < |s| && LeftBehind(g, s, k, w)
    ensures LeftBehind(g, s + [v], k, w)
  {
    var t := s + [v];
    var j :| k <= j < |s| && s[j] == w && Within(g, Elems(s[..j]), w, s[k]);
    assert t[..j] == s[..j] && t[j] == w && t[k] == s[k];
  }

  lemma StackMore(g: Cfg, s: seq<nat>, stack: seq<nat>, v: nat, k: nat)
    requires k < |s| && Settled(g, s, stack, k)
    ensures Settled(g, s, stack + [v], k)
  {
    var all := stack + [v];
    forall w: nat | Edge(g, s[k], w) && w < |g|
      ensures Before(s, k, w) || LeftBehind(g, s, k, w) || OnStack(g, s, all, k, w)
    {
      if i :| 0 <= i < |stack| && stack[i] == w && Within(g, Elems(s) + Elems(stack[i + 1..]), w, s[k]) {
        assert all[i] == w && all[i + 1..] == stack[i + 1..] + [v];
        WithinMore(g, Elems(s) + Elems(stack[i + 1..]), Elems(s) + Elems(all[i + 1..]), w, s[k]);
      }
    }
  }

  /** When the top of the stack is left, it is among the blocks that were left, and
      what was above the others still is, or was left. */
  lemma StackLess(g: Cfg, s: seq<nat>, stack: seq<nat>, v: nat, k: nat, w: nat)
    requires k < |s| && OnStack(g, s, stack + [v], k, w)
    ensures LeftBehind(g, s + [v], k, w) || OnStack(g, s + [v], stack, k, w)
  {
    var t, all := s + [v], stack + [v];
    var i :| 0 <= i < |all| && all[i] == w && Within(g, Elems(s) + Elems(all[i + 1..]), w, s[k]);
    assert t[k] == s[k] && t[|s|] == v && t[..|s|] == s;
    if i < |stack| {
      assert all[i + 1..] == stack[i + 1..] + [v];
      WithinMore(g, Elems(s) + Elems(all[i + 1..]), Elems(t) + Elems(stack[i + 1..]), w, s[k]);
      assert stack[i] == w;
    } else {
      assert all[i + 1..] == [] && Elems(s) + Elems(all[i + 1..]) == Elems(t[..|s|]);
    }
  }

  lemma SettledMore(g: Cfg, s: seq<nat>, stack: seq<nat>, v: nat, k: nat)
    requires k < |s| && Settled(g, s, stack + [v], k)
    ensures Settled(g, s + [v], stack, k)
  {
    var t := s + [v];
    assert t[k] == s[k];
    forall w: nat | Edge(g, t[k], w) && w < |g|
      ensures Before(t, k, w) || LeftBehind(g, t, k, w) || OnStack(g, t, stack, k, w)
    {
      if Before(s, k, w) {
        BeforeMore(s, v, k, w);
      } else if LeftBehind(g, s, k, w) {
        LeftMore(g, s, v, k, w);
      } else {
        StackLess(g, s, stack, v, k, w);
      }
    }
  }

  lemma SettledLast(g: Cfg, s: seq<nat>, stack: seq<nat>, v: nat)
    requires forall w: nat :: Edge(g, v, w) && w < |g| ==> w in s || w in stack + [v]
    requires IsWalk(g, stack + [v])
    ensures Settled(g, s + [v], stack, |s|)
  {
    var t := s + [v];
    assert v == t[|s|];
    forall w: nat | Edge(g, v, w) && w < |g|
      ensures Before(t, |s|, w) || LeftBehind(g, t, |s|, w) || OnStack(g, t, stack, |s|, w)
    {
      if w in s {
        var j :| 0 <= j < |s| && s[j] == w;
        assert t[j] == w;
      } else if w == v {
        assert WalkFromTo(g, v, v, [v]) && Within(g, Elems(t[..|s|]), v, v);
      } else {
        var i :| 0 <= i < |stack| && stack[i] == w;
        AboveOnStack(g, stack, v, i);
        WithinMore(g, Elems(stack[i + 1..]) + {v}, Elems(t) + Elems(stack[i + 1..]), w, v);
      }
    }
  }

  /** A block on the stack leads to the top through those above it. */
  lemma AboveOnStack(g: Cfg, stack: seq<nat>, v: nat, i: nat)
    requires IsWalk(g, stack + [v]) && i < |stack|
    ensures Within(g, Elems(stack[i + 1..]) + {v}, stack[i], v)
  {
    var all := stack + [v];
    var p := all[i..];
    assert forall m :: 0 <= m < |p| ==> p[m] == all[i + m];
    forall m | 0 <= m < |p| - 1 ensures Edge(g, p[m], p[m + 1]) { assert p[m] == all[i + m]; }
    assert WalkFromTo(g, stack[i], v, p);
    forall m | 1 <= m < |p|
      ensures p[m] in Elems(stack[i + 1..]) + {v}
    {
      if m < |p| - 1 { assert stack[i + 1..][m - 1] == p[m]; }
    }
  }

  /** The list from `n` on: blocks `v` leads to, each but `v` left before a block it was entered from. */
  ghost predicate Searched(g: Cfg, s: seq<nat>, n: nat, v: nat) {
    && (forall k: nat :: n <= k < |s| ==> Leads(g, v, s[k]))
    && (forall k: nat :: n <= k < |s| - 1 ==> HasLater(g, s, k))
  }

  /** The same while `v` is on the stack. */
  ghost predicate Entered(g: Cfg, s: seq<nat>, n: nat, v: nat) {
    && (forall k: nat :: n <= k < |s| ==> Leads(g, v, s[k]))
    && (forall k: nat :: n <= k < |s| ==> HasLater(g, s, k) || Edge(g, v, s[k]))
  }

  lemma EnteredLast(g: Cfg, s: seq<nat>, n: nat, v: nat)
    requires Entered(g, s, n, v) && Leads(g, v, v)
    ensures Searched(g, s + [v], n, v)
  {
    var t := s + [v];
    assert t[|s|] == v;
    forall k: nat | n <= k < |s|
      ensures HasLater(g, t, k)
    {
      assert t[k] == s[k];
      if HasLater(g, s, k) { HasLaterPrefix(g, s, t, k); } else { assert Edge(g, t[|s|], t[k]); }
    }
  }

  lemma SearchedTarget(g: Cfg, s: seq<nat>, t: seq<nat>, n: nat, v: nat, c: nat)
    requires n <= |s| && s <= t && Entered(g, s, n, v) && Searched(g, t, |s|, c)
    requires Leads(g, v, c) && Edge(g, v, c) && (|t| > |s| ==> t[|t| - 1] == c)
    ensures Entered(g, t, n, v)
  {
    forall k: nat | n <= k < |t|
      ensures Leads(g, v, t[k]) && (HasLater(g, t, k) || Edge(g, v, t[k]))
    {
      if k < |s| {
        assert t[k] == s[k];
        if HasLater(g, s, k) { HasLaterPrefix(g, s, t, k); }
      } else {
        var p :| WalkFromTo(g, c, t[k], p);
        LeadsTrans(g, v, t[k], p);
      }
    }
  }

  ghost predicate Closed(g: Cfg, s: seq<nat>) {
    forall u: nat, v: nat :: u in s && Edge(g, u, v) && v < |g| ==> v in s
  }

  lemma ClosedLeads(g: Cfg, s: seq<nat>, a: nat, b: nat)
    requires Closed(g, s) && a in s && Leads(g, a, b)
    ensures b in s
  {
    var p :| WalkFromTo(g, a, b, p);
    ClosedWalk(g, s, p);
  }

  /** What a search from `i` appends to the list. */
  lemma StartSorted(g: Cfg, s: seq<nat>, t: seq<nat>, i: nat)
    requires Closed(g, s) && Closed(g, t) && Distinct(t, |g|) && s <= t && |s| < |t| && t[|t| - 1] == i >= 1
    requires Searched(g, t, |s|, i)
    requires forall x: nat :: 1 <= x < i ==> x in s
    requires forall k: nat :: k < |s| ==> Sorted(g, s, k)
    ensures forall k: nat :: k < |t| ==> Sorted(g, t, k)
  {
    NewInList(s, t);
    forall k: nat | k < |t|
      ensures Sorted(g, t, k)
    {
      if k < |s| {
        SortedPrefix(g, s, t, k);
      } else if k < |t| - 1 && t[k] != 0 {
        assert t[k] !in s && Leads(g, i, t[k]) && HasLater(g, t, k);
        assert LedFromSmaller(g, t[k]);
      } else if k == |t| - 1 {
        StartedLast(g, s, t, i);
      }
    }
  }

  lemma NewInList(s: seq<nat>, t: seq<nat>)
    requires s <= t && forall i, j :: 0 <= i < j < |t| ==> t[i] != t[j]
    ensures forall k :: |s| <= k < |t| ==> t[k] !in s
  {
  }

  lemma InPrefix(s: seq<nat>, t: seq<nat>, j: nat)
    requires s <= t && j < |t|
    ensures j < |s| ==> t[j] in s
  {
  }

  lemma StartedLast(g: Cfg, s: seq<nat>, t: seq<nat>, i: nat)
    requires Closed(g, s) && Closed(g, t) && s <= t && |s| < |t| && t[|t| - 1] == i && i !in s
    requires Searched(g, t, |s|, i)
    requires forall x: nat :: 1 <= x < i ==> x in s
    ensures Started(g, t, |t| - 1)
  {
    if LedFromSmaller(g, i) {
      var r: nat :| 1 <= r < i && Leads(g, r, i);
      ClosedLeads(g, s, r, i);
    }
    forall p: nat | p < |g| && Edge(g, p, i)
      ensures Before(t, |t|, p) <==> Leads(g, i, p)
    {
      if Leads(g, i, p) {
        ClosedLeads(g, t, i, p);
      }
      if Before(t, |t|, p) {
        assert p !in s;
        var j :| 0 <= j < |t| && t[j] == p;
        InPrefix(s, t, j);
      }
    }
  }

  ghost predicate NoneInto(g: Cfg, x: nat) {
    forall p: nat :: !Edge(g, p, x)
  }

  lemma NotLedToEntry(g: Cfg, i: nat)
    requires i >= 1
    ensures NoneInto(g, 0) ==> !Leads(g, i, 0)
  {
    if Leads(g, i, 0) {
      var p :| WalkFromTo(g, i, 0, p);
      assert Edge(g, p[|p| - 2], p[|p| - 1]);
    }
  }

  ghost function UpTo(n: nat): (r: set<nat>)
    ensures |r| == n && forall x: nat :: x in r <==> x < n
  {
    if n == 0 then {} else UpTo(n - 1) + {n - 1}
  }

  lemma {:induction false} DistinctSize(s: seq<nat>, a: set<nat>)
    requires forall i, j :: 0 <= i < j < |s| ==> s[i] != s[j]
    requires forall x: nat :: x in a <==> x in s
    ensures |a| == |s|
  {
    if s == [] {
      assert a == {};
    } else {
      var r, x := s[..|s| - 1], s[|s| - 1];
      assert s == r + [x];
      DistinctSize(r, a - {x});
    }
  }

  /** The last search, from block 0, appends at most that block. */
  lemma LastSorted(g: Cfg, s: seq<nat>, t: seq<nat>)
    requires s <= t && Distinct(t, |g|) && 0 in t
    requires forall x: nat :: 1 <= x < |g| ==> x in s
    requires forall k: nat :: k < |s| ==> Sorted(g, s, k)
    ensures Permutes(t, |g|) && forall k: nat :: k < |t| ==> Sorted(g, t, k)
  {
    NewInList(s, t);
    forall k: nat | k < |t|
      ensures Sorted(g, t, k)
    {
      if k < |s| { SortedPrefix(g, s, t, k); }
    }
    assert forall x :: x in s ==> x in t;
    DistinctSize(t, UpTo(|g|));
  }

  function Reversed(s: seq<nat>): seq<nat> {
    seq(|s|, i requires 0 <= i < |s| => s[|s| - 1 - i])
  }

  ghost predicate HasEarlierIn(g: Cfg, order: seq<nat>, j: nat) {
    exists i :: 0 <= i < j < |order| && Edge(g, order[i], order[j])
  }

  ghost predicate AtOrBehind(order: seq<nat>, j: nat, x: nat) {
    exists n :: j <= n < |order| && order[n] == x
  }

  /** Block `order[j]` leads to `order[i]` through blocks behind it. */
  ghost predicate ComesBack(g: Cfg, order: seq<nat>, j: nat, i: nat)
    requires j < |order| && i < |order|
  {
    exists p :: WalkFromTo(g, order[j], order[i], p) && forall m :: 0 <= m < |p| ==> AtOrBehind(order, j, p[m])
  }

  lemma ComesBackLeads(g: Cfg, order: seq<nat>, j: nat, i: nat)
    requires j < |order| && i < |order|
    ensures ComesBack(g, order, j, i) ==> Leads(g, order[j], order[i])
  {
  }

  lemma LeftComesBack(g: Cfg, s: seq<nat>, k: nat, j: nat)
    requires k < |s| && j < |s| && LeftBehind(g, s, k, s[j]) && forall m, n :: 0 <= m < n < |s| ==> s[m] != s[n]
    ensures ComesBack(g, Reversed(s), |s| - 1 - j, |s| - 1 - k)
  {
    var order, n := Reversed(s), |s|;
    assert Within(g, Elems(s[..j]), s[j], s[k]);
    var p :| WalkFromTo(g, s[j], s[k], p) && forall i :: 1 <= i < |p| ==> p[i] in Elems(s[..j]);
    assert order[n - 1 - j] == s[j] && order[n - 1 - k] == s[k];
    forall m | 0 <= m < |p|
      ensures AtOrBehind(order, n - 1 - j, p[m])
    {
      if m == 0 {
        assert order[n - 1 - j] == p[0];
      } else {
        var i :| 0 <= i < j && s[..j][i] == p[m];
        assert order[n - 1 - i] == p[m];
      }
    }
  }

  lemma ReversedPermutes(s: seq<nat>, n: nat)
    requires Permutes(s, n)
    ensures Permutes(Reversed(s), n)
  {
    forall x: nat | x < n
      ensures x in Reversed(s)
    {
      assert x in s;
      var k :| 0 <= k < |s| && s[k] == x;
      assert Reversed(s)[n - 1 - k] == x;
    }
  }

  lemma BeforeOrBehind(g: Cfg, s: seq<nat>, a: nat, b: nat)
    requires Distinct(s, |g|) && a < |s| && b < |s| && Edge(g, s[a], s[b]) && Settled(g, s, [], a)
    ensures b < a || LeftBehind(g, s, a, s[b])
  {
    if Before(s, a, s[b]) {
      var k :| 0 <= k < a && k < |s| && s[k] == s[b];
      assert k == b;
    }
  }

  lemma ReversedBack(g: Cfg, s: seq<nat>, i: nat, j: nat)
    requires Distinct(s, |g|) && i < |s| && j < |s| && Edge(g, Reversed(s)[i], Reversed(s)[j])
    requires Settled(g, s, [], |s| - 1 - i)
    ensures i < j || ComesBack(g, Reversed(s), j, i)
  {
    var a, b := |s| - 1 - i, |s| - 1 - j;
    BeforeOrBehind(g, s, a, b);
    if i >= j { LeftComesBack(g, s, a, b); }
  }

  lemma ReversedOrder(g: Cfg, s: seq<nat>)
    requires Permutes(s, |g|) && forall k: nat :: k < |s| ==> Sorted(g, s, k) && Settled(g, s, [], k)
    ensures var order := Reversed(s);
      && Permutes(order, |g|) && |order| == |g|
      && (forall i, j :: 0 <= i < |g| && 0 <= j < |g| && Edge(g, order[i], order[j]) ==> i < j || ComesBack(g, order, j, i))
      && (forall j: nat :: j < |g| && order[j] != 0 ==> (HasEarlierIn(g, order, j) <==> Placed(g, order[j])))
  {
    var order, n := Reversed(s), |s|;
    ReversedPermutes(s, n);
    forall i, j | 0 <= i < n && 0 <= j < n && Edge(g, order[i], order[j])
      ensures i < j || ComesBack(g, order, j, i)
    {
      ReversedBack(g, s, i, j);
    }
    forall j: nat | j < n && order[j] != 0
      ensures HasEarlierIn(g, order, j) <==> Placed(g, order[j])
    {
      SortedIff(g, s, n - 1 - j);
      EarlierIsLater(g, s, j);
    }
  }

  lemma EarlierIsLater(g: Cfg, s: seq<nat>, j: nat)
    requires j < |s|
    ensures HasEarlierIn(g, Reversed(s), j) <==> HasLater(g, s, |s| - 1 - j)
  {
    var order, n := Reversed(s), |s|;
    if HasEarlierIn(g, order, j) {
      var i :| 0 <= i < j < |order| && Edge(g, order[i], order[j]);
      assert Edge(g, s[n - 1 - i], s[n - 1 - j]);
    }
    if HasLater(g, s, n - 1 - j) {
      var k :| 0 <= n - 1 - j < k < n && Edge(g, s[k], s[n - 1 - j]);
      assert order[n - 1 - k] == s[k];
    }
  }

  class Sorter {
    const g: Cfg
    var sorted: seq<nat>
    var marked: seq<bool>

    ghost predicate Valid(stack: seq<nat>)
      reads this
    {
      && |marked| == |g| && Distinct(sorted, |g|)
      && (forall x :: x in stack ==> x < |g| && x !in sorted)
      && (forall x: nat :: x < |g| ==> (marked[x] <==> x in sorted || x in stack))
      && (forall k: nat :: k < |sorted| ==> Settled(g, sorted, stack, k))
    }

    ghost function Unmarked(): set<nat>
      requires |marked| == |g|
      reads this
    {
      set x: nat | x < |g| && !marked[x]
    }

    constructor (edges: Cfg)
      ensures g == edges && sorted == [] && marked == seq(|edges|, _ => false) && Valid([])
    {
      g := edges;
      sorted := [];
      marked := seq(|edges|, _ => false);
    }

    /** The recursive search: leaves every unmarked block `v` leads to, `v` last,
        and each other one before a block it was entered from. */
    method Visit(v: nat, ghost stack: seq<nat>)
      requires Valid(stack) && v < |g| && IsWalk(g, stack + [v])
      modifies this
      ensures Valid(stack) && old(sorted) <= sorted && marked[v]
      ensures old(marked[v]) ==> sorted == old(sorted)
      ensures !old(marked[v]) ==> |sorted| > |old(sorted)| && sorted[|sorted| - 1] == v
      ensures Searched(g, sorted, |old(sorted)|, v)
      ensures Unmarked() <= old(Unmarked())
      decreases Unmarked(), 0
    {
      if marked[v] { return; }
      LeadsSelf(g, v);
      Enter(v, stack);
      ghost var inner := stack + [v];
      ghost var before := sorted;
      var rest := set t | t in g[v] && t < |g|;
      while rest != {}
        invariant Valid(inner) && before <= sorted && Unmarked() < old(Unmarked())
        invariant forall w :: w in rest ==> w in g[v] && w < |g|
        invariant forall w :: w in g[v] && w < |g| && w !in rest ==> w !in Unmarked()
        invariant Entered(g, sorted, |before|, v)
        decreases rest
      {
        var c :| c in rest;
        rest := rest - {c};
        VisitTarget(v, c, inner, before);
      }
      assert forall w: nat :: Edge(g, v, w) && w < |g| ==> w !in Unmarked();
      EnteredLast(g, sorted, |before|, v);
      Leave(v, stack);
    }

    /** One target of the block on top of the stack. */
    method VisitTarget(v: nat, c: nat, ghost inner: seq<nat>, ghost before: seq<nat>)
      requires Valid(inner) && inner != [] && inner[|inner| - 1] == v && IsWalk(g, inner)
      requires before <= sorted && Edge(g, v, c) && c < |g|
      requires Entered(g, sorted, |before|, v)
      modifies this
      ensures Valid(inner) && before <= sorted && Unmarked() <= old(Unmarked()) && marked[c]
      ensures Entered(g, sorted, |before|, v)
      decreases Unmarked(), 1
    {
      LeadsSelf(g, v);
      LeadsEdge(g, v, v, c);
      assert IsWalk(g, inner + [c]);
      ghost var s := sorted;
      Visit(c, inner);
      SearchedTarget(g, s, sorted, |before|, v, c);
    }

    /** The block goes on the stack. */
    method Enter(v: nat, ghost stack: seq<nat>)
      requires Valid(stack) && v < |g| && !marked[v]
      modifies this`marked
      ensures Valid(stack + [v]) && v !in stack && Unmarked() < old(Unmarked())
    {
      marked := marked[v := true];
      assert v in old(Unmarked()) && v !in Unmarked();
      forall k: nat | k < |sorted|
        ensures Settled(g, sorted, stack + [v], k)
      {
        assert Settled(g, sorted, stack, k);
        StackMore(g, sorted, stack, v, k);
      }
    }

    /** The block is left: it goes from the stack to the list. */
    method Leave(v: nat, ghost stack: seq<nat>)
      requires v < |g| && Valid(stack + [v]) && v !in stack
      requires forall w: nat :: Edge(g, v, w) && w < |g| ==> w !in Unmarked()
      requires IsWalk(g, stack + [v])
      modifies this`sorted
      ensures Valid(stack) && sorted == old(sorted) + [v]
    {
      ghost var s := sorted;
      assert v in stack + [v] && v !in s;
      assert forall x :: x in stack ==> x in stack + [v];
      assert forall x: nat :: x in stack + [v] ==> x in stack || x == v;
      sorted := sorted + [v];
      forall k: nat | k < |sorted|
        ensures Settled(g, sorted, stack, k)
      {
        if k < |s| {
          assert Settled(g, s, stack + [v], k);
          SettledMore(g, s, stack, v, k);
        } else {
          SettledLast(g, s, stack, v);
        }
      }
    }

    /** A search from the next block. */
    method Start(i: nat)
      requires Valid([]) && 1 <= i < |g|
      requires forall x: nat :: 1 <= x < i ==> x in sorted
      requires forall k: nat :: k < |sorted| ==> Sorted(g, sorted, k)
      modifies this
      ensures Valid([]) && old(sorted) <= sorted
      ensures forall x: nat :: 1 <= x < i + 1 ==> x in sorted
      ensures forall k: nat :: k < |sorted| ==> Sorted(g, sorted, k)
      ensures forall x :: x in sorted ==> x in old(sorted) || Leads(g, i, x)
    {
      ghost var s := sorted;
      IsClosed([]);
      Visit(i, []);
      IsClosed([]);
      assert forall x :: x in s ==> x in sorted;
      if |sorted| > |s| {
        StartSorted(g, s, sorted, i);
      }
    }

    lemma IsClosed(stack: seq<nat>)
      requires Valid(stack) && stack == []
      ensures Closed(g, sorted)
    {
      forall u: nat, v: nat | u in sorted && Edge(g, u, v) && v < |g|
        ensures v in sorted
      {
        var k :| 0 <= k < |sorted| && sorted[k] == u;
        assert Settled(g, sorted, stack, k);
      }
    }
  }

  /** `top_sort`: all blocks, each once. An edge that goes backwards in the order leads
      to a block from which the search went on to where the edge starts. A block other than the first one has an earlier predecessor
      exactly if it is placed by the numbers the blocks came with. */
  method Sort(g: Cfg) returns (order: seq<nat>)
    ensures Permutes(order, |g|)
    ensures forall i, j :: 0 <= i < |g| && 0 <= j < |g| && Edge(g, order[i], order[j]) ==> i < j || ComesBack(g, order, j, i)
    ensures forall j: nat :: j < |g| && order[j] != 0 ==> (HasEarlierIn(g, order, j) <==> Placed(g, order[j]))
    ensures g != [] && NoneInto(g, 0) ==> order[0] == 0
  {
    var s := new Sorter(g);
    var i := 1;
    while i < |g|
      invariant s.g == g && s.Valid([]) && fresh(s)
      invariant if g == [] then s.sorted == [] else 1 <= i <= |g|
      invariant forall x: nat :: 1 <= x < i ==> x in s.sorted
      invariant forall k: nat :: k < |s.sorted| ==> Sorted(g, s.sorted, k)
      invariant NoneInto(g, 0) ==> 0 !in s.sorted
    {
      s.Start(i);
      NotLedToEntry(g, i);
      i := i + 1;
    }
    ghost var t := s.sorted;
    if g != [] {
      s.Visit(0, []);
      LastSorted(g, t, s.sorted);
    }
    order := Reversed(s.sorted);
    ReversedOrder(g, s.sorted);
    assert forall k: nat :: k < |s.sorted| ==> Settled(g, s.sorted, [], k);
  }
}
