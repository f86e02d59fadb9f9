/** The loop forest as lists of members, and the order in which `Function::unroll`
    takes the loops from it. Nodes are numbers of the spanning tree. */
module LoopForest {
  import opened LoopNesting

  /** The nodes below `n` whose innermost loop is that of `w`. */
  function Members(h: seq<nat>, n: nat, w: nat): seq<nat>
    requires n <= |h|
  {
    if n == 0 then [] else Members(h, n - 1, w) + (if h[n - 1] == w && w != 0 then [n - 1] else [])
  }

  ghost predicate HasMember(h: seq<nat>, n: nat, w: nat)
    requires n <= |h|
  {
    w != 0 && exists i :: 0 <= i < n && h[i] == w
  }

  lemma MembersNext(h: seq<nat>, n: nat, w: nat)
    requires n < |h|
    ensures Members(h, n + 1, w) == if h[n] == w && w != 0 then Members(h, n, w) + [n] else Members(h, n, w)
    ensures HasMember(h, n + 1, w) <==> HasMember(h, n, w) || (w != 0 && h[n] == w)
  {
  }

  lemma {:induction false} MemberIs(h: seq<nat>, n: nat, w: nat, i: nat)
    requires n <= |h|
    ensures i in Members(h, n, w) <==> i < n && h[i] == w && w != 0
  {
    if n > 0 {
      MemberIs(h, n - 1, w, i);
      MembersNext(h, n - 1, w);
    }
  }

  lemma {:induction false} MembersEmpty(h: seq<nat>, n: nat, w: nat)
    requires n <= |h|
    ensures Members(h, n, w) == [] <==> !HasMember(h, n, w)
  {
    if n > 0 {
      MembersEmpty(h, n - 1, w);
      MembersNext(h, n - 1, w);
    }
  }

  lemma {:induction false} MembersDistinct(h: seq<nat>, n: nat, w: nat)
    requires n <= |h|
    ensures forall i, j :: 0 <= i < j < |Members(h, n, w)| ==> Members(h, n, w)[i] < Members(h, n, w)[j]
  {
    if n > 0 {
      MembersDistinct(h, n - 1, w);
      MembersNext(h, n - 1, w);
      var rest := Members(h, n - 1, w);
      forall i | 0 <= i < |rest|
        ensures rest[i] < n - 1
      {
        MemberIs(h, n - 1, w, rest[i]);
        assert rest[i] in rest;
      }
    }
  }

  ghost predicate IsRoot(h: seq<nat>, types: seq<NodeType>, w: nat)
    requires w < |h| == |types|
  {
    h[w] == 0 && types[w] != NonHeader
  }

  /** The keys of the forest: roots, and headers of some node. */
  ghost predicate InForest(h: seq<nat>, types: seq<NodeType>, n: nat, w: nat)
    requires n <= |h| == |types|
  {
    w < n && (IsRoot(h, types, w) || HasMember(h, n, w))
  }

  /** The forest when the nodes below `i` have been looked at. */
  ghost predicate ForestAt(h: seq<nat>, types: seq<NodeType>, n: nat, i: nat, forest: map<nat, seq<nat>>)
    requires i <= n <= |h| == |types|
  {
    && (forall w: nat :: w in forest <==> w < n && ((w < i && IsRoot(h, types, w)) || HasMember(h, i, w)))
    && (forall w: nat :: w in forest ==> forest[w] == Members(h, i, w))
  }

  lemma ForestNext(h: seq<nat>, types: seq<NodeType>, n: nat, i: nat, forest: map<nat, seq<nat>>, forest': map<nat, seq<nat>>)
    requires i < n <= |h| == |types| && HeadersOk(h, 0) && ForestAt(h, types, n, i, forest)
    requires forest' ==
      if h[i] == 0 && types[i] != NonHeader then forest[i := if i in forest then forest[i] else []]
      else if h[i] != 0 then forest[h[i] := (if h[i] in forest then forest[h[i]] else []) + [i]]
      else forest
    ensures ForestAt(h, types, n, i + 1, forest')
  {
    forall w: nat
      ensures w in forest' <==> w < n && ((w < i + 1 && IsRoot(h, types, w)) || HasMember(h, i + 1, w))
      ensures w in forest' ==> forest'[w] == Members(h, i + 1, w)
    {
      MembersNext(h, i, w);
      if w !in forest && w < n { MembersEmpty(h, i, w); }
    }
  }

  /** The last part of `LoopAnalysis::run`: roots, and the members of every header. */
  method BuildForest(h: seq<nat>, types: seq<NodeType>, n: nat) returns (forest: map<nat, seq<nat>>, roots: seq<nat>)
    requires n <= |h| == |types| && HeadersOk(h, 0)
    ensures forall w: nat :: w in forest <==> InForest(h, types, n, w)
    ensures forall w: nat :: w in forest ==> forest[w] == Members(h, n, w)
    ensures forall w: nat :: w in roots <==> w < n && IsRoot(h, types, w)
    ensures forall i, j :: 0 <= i < j < |roots| ==> roots[i] != roots[j]
  {
    forest, roots := map[], [];
    for i := 0 to n
      invariant ForestAt(h, types, n, i, forest)
      invariant forall w: nat :: w in roots <==> w < i && IsRoot(h, types, w)
      invariant forall j :: 0 <= j < |roots| ==> roots[j] < i
      invariant forall j, k :: 0 <= j < k < |roots| ==> roots[j] != roots[k]
    {
      ghost var before := forest;
      var p := h[i];
      if p == 0 && types[i] != NonHeader {
        roots := roots + [i];
        forest := forest[i := if i in forest then forest[i] else []];
      } else if p != 0 || types[i] != NonHeader {
        forest := forest[p := (if p in forest then forest[p] else []) + [i]];
      }
      ForestNext(h, types, n, i, before, forest);
    }
  }

  // ---------------------------------------------------------------------
  // The worklist
  // ---------------------------------------------------------------------

  /** A header, and whether its members have been pushed. */
  type Entries = seq<(nat, bool)>

  predicate On(stack: Entries, w: nat) {
    exists k :: 0 <= k < |stack| && stack[k].0 == w
  }

  lemma OnConcat(a: Entries, b: Entries, x: nat)
    ensures On(a + b, x) <==> On(a, x) || On(b, x)
  {
    if On(a, x) { var k :| 0 <= k < |a| && a[k].0 == x; assert (a + b)[k].0 == x; }
    if On(b, x) { var k :| 0 <= k < |b| && b[k].0 == x; assert (a + b)[|a| + k].0 == x; }
  }

  predicate Above(stack: Entries, k: nat, c: nat) {
    exists m :: k < m < |stack| && stack[m].0 == c
  }

  predicate DoneBefore(hs: seq<nat>, i: nat, c: nat) {
    exists j :: 0 <= j < i && j < |hs| && hs[j] == c
  }

  /** Loop `c` is directly inside loop `w`. */
  ghost predicate Inside(h: seq<nat>, n: nat, w: nat, c: nat)
    requires n <= |h|
  {
    w != 0 && c < n && h[c] == w && HasMember(h, n, c)
  }

  ghost predicate Distinct(stack: Entries, hs: seq<nat>) {
    && (forall k, m :: 0 <= k < m < |stack| ==> stack[k].0 != stack[m].0)
    && (forall i, j :: 0 <= i < j < |hs| ==> hs[i] != hs[j])
    && (forall k :: 0 <= k < |stack| ==> stack[k].0 !in hs)
  }

  /** The loop around `x` was taken, or its members have been pushed. */
  ghost predicate ParentSeen(h: seq<nat>, stack: Entries, hs: seq<nat>, x: nat) {
    x < |h| && (h[x] != 0 ==> h[x] in hs || (h[x], true) in stack)
  }

  ghost predicate ParentsSeen(h: seq<nat>, stack: Entries, hs: seq<nat>) {
    forall x: nat {:trigger ParentSeen(h, stack, hs, x)} :: On(stack, x) || x in hs ==> ParentSeen(h, stack, hs, x)
  }

  /** All loops directly inside the one at `k` were taken, or are above it. */
  ghost predicate InnerPushed(h: seq<nat>, n: nat, stack: Entries, hs: seq<nat>, k: nat)
    requires n <= |h| && k < |stack|
  {
    stack[k].1 ==> forall c: nat :: Inside(h, n, stack[k].0, c) ==> c in hs || Above(stack, k, c)
  }

  /** All loops directly inside the one taken at `i` were taken before it. */
  ghost predicate InnerDone(h: seq<nat>, n: nat, hs: seq<nat>, i: nat)
    requires n <= |h| && i < |hs|
  {
    forall c: nat :: Inside(h, n, hs[i], c) ==> DoneBefore(hs, i, c)
  }

  ghost predicate Seen(h: seq<nat>, types: seq<NodeType>, n: nat, stack: Entries, hs: seq<nat>)
    requires n <= |h| == |types|
  {
    && (forall k :: 0 <= k < |stack| ==> InForest(h, types, n, stack[k].0))
    && (forall i :: 0 <= i < |hs| ==> InForest(h, types, n, hs[i]))
    && (forall w: nat {:trigger IsRoot(h, types, w)} :: w < n && IsRoot(h, types, w) ==> w in hs || On(stack, w))
  }

  ghost predicate Walking(h: seq<nat>, types: seq<NodeType>, n: nat, stack: Entries, hs: seq<nat>) {
    && n <= |h| == |types| && HeadersOk(h, 0) && Seen(h, types, n, stack, hs)
    && Distinct(stack, hs) && ParentsSeen(h, stack, hs)
    && (forall k: nat :: k < |stack| ==> InnerPushed(h, n, stack, hs, k))
    && (forall i: nat :: i < |hs| ==> InnerDone(h, n, hs, i))
  }

  /** The loops that are pushed for a header. */
  function Inner(forest: map<nat, seq<nat>>, members: seq<nat>): Entries {
    if members == [] then []
    else
      var n := |members| - 1;
      Inner(forest, members[..n]) + (if members[n] in forest then [(members[n], false)] else [])
  }

  lemma {:induction false} InnerOn(forest: map<nat, seq<nat>>, members: seq<nat>, x: nat)
    ensures On(Inner(forest, members), x) <==> x in members && x in forest
  {
    if members != [] {
      var n := |members| - 1;
      InnerOn(forest, members[..n], x);
      OnConcat(Inner(forest, members[..n]), if members[n] in forest then [(members[n], false)] else [], x);
      assert members == members[..n] + [members[n]];
      assert members[n] in forest ==> [(members[n], false)][0].0 == members[n];
    }
  }

  lemma {:induction false} InnerDistinct(forest: map<nat, seq<nat>>, members: seq<nat>)
    requires forall i, j :: 0 <= i < j < |members| ==> members[i] < members[j]
    ensures forall k :: 0 <= k < |Inner(forest, members)| ==> !Inner(forest, members)[k].1
    ensures Distinct(Inner(forest, members), [])
  {
    if members != [] {
      var n := |members| - 1;
      var rest := Inner(forest, members[..n]);
      InnerDistinct(forest, members[..n]);
      forall k | 0 <= k < |rest|
        ensures rest[k].0 != members[n]
      {
        assert On(rest, rest[k].0);
        InnerOn(forest, members[..n], rest[k].0);
      }
    }
  }

  ghost predicate ForestOk(h: seq<nat>, types: seq<NodeType>, n: nat, forest: map<nat, seq<nat>>)
    requires n <= |h| == |types|
  {
    && (forall w: nat :: w in forest <==> InForest(h, types, n, w))
    && (forall w: nat :: w in forest ==> forest[w] == Members(h, n, w))
  }

  /** Exactly the loops directly inside are pushed. */
  lemma InnerInside(h: seq<nat>, types: seq<NodeType>, n: nat, forest: map<nat, seq<nat>>, w: nat, x: nat)
    requires n <= |h| == |types| && ForestOk(h, types, n, forest) && w in forest
    ensures On(Inner(forest, forest[w]), x) <==> Inside(h, n, w, x)
  {
    InnerOn(forest, forest[w], x);
    MemberIs(h, n, w, x);
    if x < n && h[x] == w && w != 0 { assert !IsRoot(h, types, x); }
  }

  /** The stack after the members of its top were pushed. */
  function Pushed(stack: Entries, inner: Entries): Entries
    requires stack != []
  {
    Marked(stack) + inner
  }

  function Marked(stack: Entries): Entries
    requires stack != []
  {
    stack[..|stack| - 1] + [(stack[|stack| - 1].0, true)]
  }

  lemma MarkedOn(stack: Entries, x: nat)
    requires stack != []
    ensures On(Marked(stack), x) <==> On(stack, x)
  {
    var m := Marked(stack);
    assert forall k :: 0 <= k < |stack| ==> m[k].0 == stack[k].0;
    if On(stack, x) { var k :| 0 <= k < |stack| && stack[k].0 == x; assert m[k].0 == x; }
    if On(m, x) { var k :| 0 <= k < |m| && m[k].0 == x; assert stack[k].0 == x; }
  }

  /** An unmarked loop has nothing inside it that was seen before. */
  lemma NothingInside(h: seq<nat>, types: seq<NodeType>, n: nat, stack: Entries, hs: seq<nat>, x: nat)
    requires Walking(h, types, n, stack, hs) && stack != [] && !stack[|stack| - 1].1 && Inside(h, n, stack[|stack| - 1].0, x)
    ensures !On(stack, x) && x !in hs
  {
    var top := |stack| - 1;
    if On(stack, x) || x in hs {
      assert ParentSeen(h, stack, hs, x);
      var k :| 0 <= k < |stack| && stack[k] == (h[x], true);
    }
  }

  /** `inner` lists the loops directly inside the one on top, unmarked. */
  ghost predicate IsInner(h: seq<nat>, n: nat, stack: Entries, inner: Entries)
    requires n <= |h| && stack != []
  {
    && (forall k :: 0 <= k < |inner| ==> !inner[k].1) && Distinct(inner, [])
    && forall x: nat :: On(inner, x) <==> Inside(h, n, stack[|stack| - 1].0, x)
  }

  lemma PushedAt(stack: Entries, inner: Entries, k: nat)
    requires stack != [] && k < |stack| + |inner|
    ensures Pushed(stack, inner)[k] ==
      if k < |stack| - 1 then stack[k] else if k == |stack| - 1 then (stack[k].0, true) else inner[k - |stack|]
  {
  }

  lemma PushDistinct(h: seq<nat>, types: seq<NodeType>, n: nat, stack: Entries, hs: seq<nat>, inner: Entries)
    requires Walking(h, types, n, stack, hs) && stack != [] && !stack[|stack| - 1].1 && IsInner(h, n, stack, inner)
    ensures Distinct(Pushed(stack, inner), hs)
  {
    var all := Pushed(stack, inner);
    forall k | 0 <= k < |inner|
      ensures !On(stack, inner[k].0) && inner[k].0 !in hs
    {
      assert On(inner, inner[k].0);
      NothingInside(h, types, n, stack, hs, inner[k].0);
    }
    forall k, m | 0 <= k < m < |all|
      ensures all[k].0 != all[m].0
    {
      PushedAt(stack, inner, k);
      PushedAt(stack, inner, m);
      if k < |stack| { assert On(stack, stack[k].0); }
    }
  }

  lemma PushParents(h: seq<nat>, types: seq<NodeType>, n: nat, stack: Entries, hs: seq<nat>, inner: Entries)
    requires Walking(h, types, n, stack, hs) && stack != [] && !stack[|stack| - 1].1 && IsInner(h, n, stack, inner)
    ensures ParentsSeen(h, Pushed(stack, inner), hs)
  {
    var all := Pushed(stack, inner);
    forall x: nat | On(all, x) || x in hs
      ensures ParentSeen(h, all, hs, x)
    {
      OnConcat(Marked(stack), inner, x);
      MarkedOn(stack, x);
      if On(inner, x) && !On(stack, x) && x !in hs {
        PushedAt(stack, inner, |stack| - 1);
        assert all[|stack| - 1] in all;
      } else {
        assert ParentSeen(h, stack, hs, x);
        if h[x] != 0 && h[x] !in hs {
          var k :| 0 <= k < |stack| && stack[k] == (h[x], true);
          PushedAt(stack, inner, k);
          assert all[k] in all;
        }
      }
    }
  }

  lemma PushInner(h: seq<nat>, types: seq<NodeType>, n: nat, stack: Entries, hs: seq<nat>, inner: Entries, k: nat)
    requires Walking(h, types, n, stack, hs) && stack != [] && !stack[|stack| - 1].1 && IsInner(h, n, stack, inner)
    requires k < |Pushed(stack, inner)|
    ensures InnerPushed(h, n, Pushed(stack, inner), hs, k)
  {
    var all, top := Pushed(stack, inner), |stack| - 1;
    PushedAt(stack, inner, k);
    if k < top {
      assert InnerPushed(h, n, stack, hs, k);
      forall c: nat | Inside(h, n, stack[k].0, c) && c !in hs && stack[k].1
        ensures Above(all, k, c)
      {
        var m :| k < m < |stack| && stack[m].0 == c;
        PushedAt(stack, inner, m);
        assert all[m].0 == c;
      }
    } else if k == top {
      forall c: nat | Inside(h, n, stack[k].0, c)
        ensures Above(all, k, c)
      {
        assert On(inner, c);
        var m :| 0 <= m < |inner| && inner[m].0 == c;
        PushedAt(stack, inner, |stack| + m);
        assert all[|stack| + m].0 == c;
      }
    }
  }

  lemma PushSeen(h: seq<nat>, types: seq<NodeType>, n: nat, stack: Entries, hs: seq<nat>, inner: Entries)
    requires Walking(h, types, n, stack, hs) && stack != [] && !stack[|stack| - 1].1 && IsInner(h, n, stack, inner)
    ensures Seen(h, types, n, Pushed(stack, inner), hs)
  {
    var all := Pushed(stack, inner);
    forall k | 0 <= k < |all|
      ensures InForest(h, types, n, all[k].0)
    {
      PushedAt(stack, inner, k);
      if k >= |stack| { assert On(inner, inner[k - |stack|].0); }
    }
    forall w: nat | w < n && IsRoot(h, types, w)
      ensures w in hs || On(all, w)
    {
      OnConcat(Marked(stack), inner, w);
      MarkedOn(stack, w);
    }
  }

  lemma PushKeeps(h: seq<nat>, types: seq<NodeType>, n: nat, stack: Entries, hs: seq<nat>, inner: Entries)
    requires Walking(h, types, n, stack, hs) && stack != [] && !stack[|stack| - 1].1 && IsInner(h, n, stack, inner)
    ensures Walking(h, types, n, Pushed(stack, inner), hs)
  {
    PushSeen(h, types, n, stack, hs, inner);
    PushDistinct(h, types, n, stack, hs, inner);
    PushParents(h, types, n, stack, hs, inner);
    forall k: nat | k < |Pushed(stack, inner)|
      ensures InnerPushed(h, n, Pushed(stack, inner), hs, k)
    {
      PushInner(h, types, n, stack, hs, inner, k);
    }
  }

  // ---------------------------------------------------------------------
  // Taking a loop
  // ---------------------------------------------------------------------

  lemma PopOn(stack: Entries, x: nat)
    requires stack != []
    ensures On(stack, x) <==> On(stack[..|stack| - 1], x) || x == stack[|stack| - 1].0
  {
    var n := |stack| - 1;
    OnConcat(stack[..n], [stack[n]], x);
    assert stack == stack[..n] + [stack[n]];
    assert On([stack[n]], x) <==> x == stack[n].0 by { assert [stack[n]][0].0 == stack[n].0; }
  }

  lemma PopParents(h: seq<nat>, types: seq<NodeType>, n: nat, stack: Entries, hs: seq<nat>)
    requires Walking(h, types, n, stack, hs) && stack != [] && stack[|stack| - 1].1
    ensures ParentsSeen(h, stack[..|stack| - 1], hs + [stack[|stack| - 1].0])
  {
    var rest, done := stack[..|stack| - 1], hs + [stack[|stack| - 1].0];
    assert stack[|stack| - 1].0 == done[|hs|] && forall y :: y in hs ==> y in done;
    forall x: nat | On(rest, x) || x in done
      ensures ParentSeen(h, rest, done, x)
    {
      PopOn(stack, x);
      assert ParentSeen(h, stack, hs, x);
      if h[x] != 0 && h[x] !in hs {
        var k :| 0 <= k < |stack| && stack[k] == (h[x], true);
        if k < |stack| - 1 { assert rest[k] in rest; }
      }
    }
  }

  lemma PopInner(h: seq<nat>, types: seq<NodeType>, n: nat, stack: Entries, hs: seq<nat>, k: nat)
    requires Walking(h, types, n, stack, hs) && stack != [] && stack[|stack| - 1].1 && k < |stack| - 1
    ensures InnerPushed(h, n, stack[..|stack| - 1], hs + [stack[|stack| - 1].0], k)
  {
    var rest, done := stack[..|stack| - 1], hs + [stack[|stack| - 1].0];
    assert stack[|stack| - 1].0 == done[|hs|] && forall y :: y in hs ==> y in done;
    assert InnerPushed(h, n, stack, hs, k);
    forall c: nat | Inside(h, n, stack[k].0, c) && stack[k].1 && c !in done
      ensures Above(rest, k, c)
    {
      var m :| k < m < |stack| && stack[m].0 == c;
      assert rest[m].0 == c;
    }
  }

  lemma PopDone(h: seq<nat>, types: seq<NodeType>, n: nat, stack: Entries, hs: seq<nat>, i: nat)
    requires Walking(h, types, n, stack, hs) && stack != [] && stack[|stack| - 1].1 && i <= |hs|
    ensures InnerDone(h, n, hs + [stack[|stack| - 1].0], i)
  {
    var top := |stack| - 1;
    var done := hs + [stack[top].0];
    if i < |hs| {
      assert InnerDone(h, n, hs, i);
      forall c: nat | Inside(h, n, hs[i], c)
        ensures DoneBefore(done, i, c)
      {
        var j :| 0 <= j < i && j < |hs| && hs[j] == c;
        assert done[j] == c;
      }
    } else {
      assert InnerPushed(h, n, stack, hs, top);
      forall c: nat | Inside(h, n, stack[top].0, c)
        ensures DoneBefore(done, i, c)
      {
        var j :| 0 <= j < |hs| && hs[j] == c;
        assert done[j] == c;
      }
    }
  }

  lemma PopKeeps(h: seq<nat>, types: seq<NodeType>, n: nat, stack: Entries, hs: seq<nat>)
    requires Walking(h, types, n, stack, hs) && stack != [] && stack[|stack| - 1].1
    ensures Walking(h, types, n, stack[..|stack| - 1], hs + [stack[|stack| - 1].0])
  {
    var rest, done := stack[..|stack| - 1], hs + [stack[|stack| - 1].0];
    PopParents(h, types, n, stack, hs);
    forall k: nat | k < |rest| ensures InnerPushed(h, n, rest, done, k) { PopInner(h, types, n, stack, hs, k); }
    forall i: nat | i < |done| ensures InnerDone(h, n, done, i) { PopDone(h, types, n, stack, hs, i); }
    forall w: nat | w < n && IsRoot(h, types, w) ensures w in done || On(rest, w) { PopOn(stack, w); }
  }

  // ---------------------------------------------------------------------
  // The walk ends
  // ---------------------------------------------------------------------

  /** The loops that were not seen yet. */
  ghost function Untouched(h: seq<nat>, types: seq<NodeType>, n: nat, stack: Entries, hs: seq<nat>): set<nat>
    requires n <= |h| == |types|
  {
    set w: nat | w < n && InForest(h, types, n, w) && w !in hs && !On(stack, w)
  }

  ghost function Unmarked(stack: Entries): nat {
    if stack == [] then 0 else Unmarked(stack[..|stack| - 1]) + (if stack[|stack| - 1].1 then 0 else 1)
  }

  lemma PushLess(h: seq<nat>, types: seq<NodeType>, n: nat, stack: Entries, hs: seq<nat>, inner: Entries)
    requires Walking(h, types, n, stack, hs) && stack != [] && !stack[|stack| - 1].1 && IsInner(h, n, stack, inner)
    ensures inner != [] ==> Untouched(h, types, n, Pushed(stack, inner), hs) < Untouched(h, types, n, stack, hs)
    ensures inner == [] ==> Untouched(h, types, n, Pushed(stack, inner), hs) == Untouched(h, types, n, stack, hs)
                            && Unmarked(Pushed(stack, inner)) < Unmarked(stack)
  {
    var all := Pushed(stack, inner);
    forall x: nat
      ensures On(all, x) <==> On(stack, x) || On(inner, x)
    {
      OnConcat(Marked(stack), inner, x);
      MarkedOn(stack, x);
    }
    if inner != [] {
      var x := inner[0].0;
      assert On(inner, x);
      NothingInside(h, types, n, stack, hs, x);
      assert x in Untouched(h, types, n, stack, hs) && x !in Untouched(h, types, n, all, hs);
    } else {
      assert all == Marked(stack) && all[..|all| - 1] == stack[..|stack| - 1];
      assert forall x: nat :: !On(inner, x);
    }
  }

  lemma PopSame(h: seq<nat>, types: seq<NodeType>, n: nat, stack: Entries, hs: seq<nat>)
    requires n <= |h| == |types| && stack != [] && stack[|stack| - 1].1
    ensures Untouched(h, types, n, stack[..|stack| - 1], hs + [stack[|stack| - 1].0]) == Untouched(h, types, n, stack, hs)
    ensures Unmarked(stack[..|stack| - 1]) == Unmarked(stack)
  {
    forall x: nat
      ensures On(stack, x) || x in hs <==> On(stack[..|stack| - 1], x) || x in hs + [stack[|stack| - 1].0]
    {
      PopOn(stack, x);
    }
  }

  // ---------------------------------------------------------------------
  // The order of the loops
  // ---------------------------------------------------------------------

  /** Only loops have members. */
  ghost predicate OnlyHeaders(h: seq<nat>, types: seq<NodeType>, n: nat)
    requires n <= |h| == |types|
  {
    forall w: nat :: w < n && HasMember(h, n, w) ==> types[w] != NonHeader
  }

  lemma {:induction false} AllTaken(h: seq<nat>, types: seq<NodeType>, n: nat, hs: seq<nat>, w: nat)
    requires Walking(h, types, n, [], hs) && InForest(h, types, n, w) && OnlyHeaders(h, types, n)
    ensures w in hs
    decreases w
  {
    if h[w] != 0 {
      assert HasMember(h, n, h[w]);
      AllTaken(h, types, n, hs, h[w]);
      var i: nat :| i < |hs| && hs[i] == h[w];
      assert InnerDone(h, n, hs, i) && Inside(h, n, hs[i], w);
    } else {
      assert IsRoot(h, types, w);
    }
  }

  /** What is inside a loop was taken before it. */
  lemma {:induction false} InsideBefore(h: seq<nat>, types: seq<NodeType>, n: nat, hs: seq<nat>, i: nat, u: nat)
    requires Walking(h, types, n, [], hs) && i < |hs| && u < n && InLoop(h, u, hs[i]) && u != hs[i] && HasMember(h, n, u)
    ensures DoneBefore(hs, i, u)
    decreases u
  {
    if h[u] == hs[i] {
      assert InnerDone(h, n, hs, i) && Inside(h, n, hs[i], u);
    } else {
      assert HasMember(h, n, h[u]);
      InsideBefore(h, types, n, hs, i, h[u]);
      var j: nat :| j < i && hs[j] == h[u];
      assert InnerDone(h, n, hs, j) && Inside(h, n, hs[j], u);
    }
  }

  lemma InnerFirst(h: seq<nat>, types: seq<NodeType>, n: nat, hs: seq<nat>, i: nat, j: nat)
    requires Walking(h, types, n, [], hs) && i < j < |hs|
    ensures hs[j] < |h| && !InLoop(h, hs[j], hs[i])
  {
    if InLoop(h, hs[j], hs[i]) {
      assert h[hs[j]] != 0 && !IsRoot(h, types, hs[j]);
      InsideBefore(h, types, n, hs, i, hs[j]);
    }
  }

  /** Each loop once, and none after a loop that it is in. */
  ghost predicate InsideOut(h: seq<nat>, hs: seq<nat>)
    requires HeadersOk(h, 0)
  {
    forall i, j :: 0 <= i < j < |hs| ==> hs[i] != hs[j] && hs[j] < |h| && !InLoop(h, hs[j], hs[i])
  }

  /** The loop of `Function::unroll`: the loops of the forest in post-order, each once,
      inner ones first. */
  method TakeLoops(h: seq<nat>, types: seq<NodeType>, n: nat, forest: map<nat, seq<nat>>, roots: seq<nat>) returns (hs: seq<nat>)
    requires n <= |h| == |types| && HeadersOk(h, 0) && ForestOk(h, types, n, forest)
    requires forall w: nat :: w in roots <==> w < n && IsRoot(h, types, w)
    requires forall i, j :: 0 <= i < j < |roots| ==> roots[i] != roots[j]
    requires OnlyHeaders(h, types, n)
    ensures forall w: nat :: w in hs <==> InForest(h, types, n, w)
    ensures InsideOut(h, hs)
  {
    var stack := Roots(roots);
    hs := [];
    StartWalk(h, types, n, roots);
    while stack != []
      invariant Walking(h, types, n, stack, hs)
      decreases Untouched(h, types, n, stack, hs), Unmarked(stack), |stack|
    {
      var top := |stack| - 1;
      var (w, marked) := stack[top];
      if !marked {
        var inner := if w in forest then Inner(forest, forest[w]) else [];
        MembersDistinct(h, n, w);
        InnerDistinct(forest, forest[w]);
        forall x: nat ensures On(inner, x) <==> Inside(h, n, w, x) { InnerInside(h, types, n, forest, w, x); }
        PushKeeps(h, types, n, stack, hs, inner);
        PushLess(h, types, n, stack, hs, inner);
        stack := stack[..top] + [(w, true)] + inner;
        continue;
      }
      PopKeeps(h, types, n, stack, hs);
      PopSame(h, types, n, stack, hs);
      stack := stack[..top];
      hs := hs + [w];
    }
    forall w: nat | InForest(h, types, n, w) ensures w in hs { AllTaken(h, types, n, hs, w); }
    forall i, j | 0 <= i < j < |hs| ensures hs[j] < |h| && !InLoop(h, hs[j], hs[i]) { InnerFirst(h, types, n, hs, i, j); }
  }

  /** The roots, in reverse because the list is taken from its end. */
  function Roots(roots: seq<nat>): Entries {
    seq(|roots|, i requires 0 <= i < |roots| => (roots[|roots| - 1 - i], false))
  }

  lemma StartWalk(h: seq<nat>, types: seq<NodeType>, n: nat, roots: seq<nat>)
    requires n <= |h| == |types| && HeadersOk(h, 0)
    requires forall w: nat :: w in roots <==> w < n && IsRoot(h, types, w)
    requires forall i, j :: 0 <= i < j < |roots| ==> roots[i] != roots[j]
    ensures Walking(h, types, n, Roots(roots), [])
  {
    var stack := Roots(roots);
    forall w: nat
      ensures On(stack, w) <==> w in roots
    {
      if w in roots { var i :| 0 <= i < |roots| && roots[i] == w; assert stack[|roots| - 1 - i].0 == w; }
    }
    forall k | 0 <= k < |stack| ensures InForest(h, types, n, stack[k].0) { assert stack[k].0 in roots; }
    forall x: nat | On(stack, x) ensures ParentSeen(h, stack, [], x) { assert x in roots; }
  }
}
