/** `LoopAnalysis::getDepthFirstSpanningTree`: a preorder numbering with an
    explicit stack. A block counts as visited when it is pushed. */
module SpanningTree {
  import opened Graph

  // ---------------------------------------------------------------------
  // Trees by parent links
  // ---------------------------------------------------------------------

  /** Node 0 is the root; every other node has a smaller parent. */
  ghost predicate IsTree(par: seq<nat>) {
    forall v :: 0 <= v < |par| ==> par[v] <= v && (v > 0 ==> par[v] < v)
  }

  /** `w` is on the way from `v` up to the root. */
  ghost predicate Anc(par: seq<nat>, w: nat, v: nat)
    requires IsTree(par) && v < |par|
    decreases v
  {
    w == v || (v > 0 && Anc(par, w, par[v]))
  }

  lemma {:induction false} AncBelow(par: seq<nat>, w: nat, v: nat)
    requires IsTree(par) && v < |par| && Anc(par, w, v)
    ensures w <= v
    decreases v
  {
    if w != v { AncBelow(par, w, par[v]); }
  }

  lemma {:induction false} AncTrans(par: seq<nat>, u: nat, w: nat, v: nat)
    requires IsTree(par) && w < |par| && v < |par| && Anc(par, u, w) && Anc(par, w, v)
    ensures Anc(par, u, v)
    decreases v
  {
    if w != v { AncTrans(par, u, w, par[v]); }
  }

  /** Of two ancestors of one node, the smaller one is an ancestor of the other. */
  lemma {:induction false} AncChain(par: seq<nat>, u: nat, w: nat, v: nat)
    requires IsTree(par) && v < |par| && Anc(par, u, v) && Anc(par, w, v) && u <= w
    ensures w < |par| && Anc(par, u, w)
    decreases v
  {
    AncBelow(par, w, v);
    if w != v {
      AncBelow(par, w, par[v]);
      AncChain(par, u, w, par[v]);
    }
  }

  lemma {:induction false} RootAnc(par: seq<nat>, v: nat)
    requires IsTree(par) && v < |par|
    ensures Anc(par, 0, v)
    decreases v
  {
    if v > 0 { RootAnc(par, par[v]); }
  }

  /** New nodes do not change the ancestors of the old ones. */
  lemma {:induction false} AncExtend(par: seq<nat>, more: seq<nat>, w: nat, v: nat)
    requires IsTree(par) && IsTree(par + more) && v < |par|
    ensures Anc(par + more, w, v) <==> Anc(par, w, v)
    decreases v
  {
    if v > 0 { AncExtend(par, more, w, par[v]); }
  }

  // ---------------------------------------------------------------------
  // The state of the search
  // ---------------------------------------------------------------------

  const UNSET: nat := 0xFFFF_FFFF

  /** The index that stands for no block. */
  function NullBlock(g: Cfg): nat { |g| + 1 }

  function Targets(g: Cfg, b: nat): seq<nat> {
    if b < |g| then g[b] else []
  }

  type Stack = seq<(nat, bool)>

  /** All variables of the search. The rest is there for the proof: `pusher`, the
      number of the block that pushed a block; `par`, the same by numbers; `pos`,
      where a block is on the stack. */
  datatype Dfs = Dfs(node: seq<nat>, number: map<nat, nat>, last: seq<nat>, stack: Stack, visited: set<nat>,
                     pusher: map<nat, nat>, par: seq<nat>, pos: map<nat, nat>)

  ghost predicate OnStack(s: Dfs, b: nat) {
    b in s.pos && s.pos[b] < |s.stack| && s.stack[s.pos[b]].0 == b
  }

  ghost predicate Numbered(g: Cfg, s: Dfs) {
    && |s.node| == |s.last| == |g| + 1 && |s.par| <= |g| + 1 && IsTree(s.par)
    && (forall k :: 0 <= k < |s.par| ==> s.node[k] <= |g| && s.node[k] in s.number && s.number[s.node[k]] == k)
    && (forall b :: b in s.number ==> s.number[b] < |s.par| && s.node[s.number[b]] == b)
    && (forall k :: |s.par| <= k <= |g| ==> s.node[k] == NullBlock(g) && s.last[k] == UNSET)
  }

  ghost predicate EntryOk(g: Cfg, s: Dfs, i: nat)
    requires i < |s.stack|
  {
    var b := s.stack[i].0;
    && b <= |g| && (s.stack[i].1 <==> b in s.number)
    && b in s.pos && s.pos[b] == i
    && (if i == 0 then b == 0 else b in s.visited)
  }

  ghost predicate StackOk(g: Cfg, s: Dfs) {
    && (forall i {:trigger EntryOk(g, s, i)} :: 0 <= i < |s.stack| ==> EntryOk(g, s, i))
    && (forall b :: b in s.visited ==> b in s.number || OnStack(s, b))
  }

  /** A block was pushed by the first of its predecessors to get a number. */
  ghost predicate PushedOk(g: Cfg, s: Dfs)
    requires Numbered(g, s)
  {
    && (forall b {:trigger FromPusher(g, s, b)} :: b in s.visited ==> FromPusher(g, s, b))
    && (forall k, t {:trigger PushedBy(s, k, t)} :: 0 <= k < |s.par| && t in Targets(g, s.node[k]) ==> PushedBy(s, k, t))
    && (forall b :: b in s.number && b != 0 ==> b in s.visited && b in s.pusher && s.par[s.number[b]] == s.pusher[b])
    && (if |s.par| > 0 then 0 in s.number && s.number[0] == 0 else s.stack == [(0, false)] && s.pusher == map[])
  }

  ghost predicate FromPusher(g: Cfg, s: Dfs, b: nat)
    requires Numbered(g, s)
  {
    b != 0 && b <= |g| && b in s.pusher && s.pusher[b] < |s.par| && b in Targets(g, s.node[s.pusher[b]])
  }

  ghost predicate PushedBy(s: Dfs, k: nat, t: nat) {
    t in s.visited && t in s.pusher && s.pusher[t] <= k
  }

  /** The block that pushed entry `i` is below it on the stack. */
  ghost predicate HasPusher(g: Cfg, s: Dfs, i: nat)
    requires Numbered(g, s) && i < |s.stack|
  {
    var b := s.stack[i].0;
    && b in s.pusher && s.pusher[b] < |s.par|
    && OnStack(s, s.node[s.pusher[b]]) && s.pos[s.node[s.pusher[b]]] < i
  }

  /** All numbered blocks below entry `i` are ancestors of the block that pushed it. */
  ghost predicate ChainOk(g: Cfg, s: Dfs)
    requires Numbered(g, s)
  {
    && (forall i {:trigger HasPusher(g, s, i)} :: 0 < i < |s.stack| ==> HasPusher(g, s, i))
    && (forall i, j {:trigger AncOfPusher(g, s, j, i)} :: 0 <= j < i < |s.stack| && s.stack[j].0 in s.number ==> AncOfPusher(g, s, j, i))
  }

  ghost predicate AncOfPusher(g: Cfg, s: Dfs, j: nat, i: nat)
    requires Numbered(g, s) && j < i < |s.stack|
  {
    && s.stack[j].0 in s.number && s.stack[i].0 in s.pusher && s.pusher[s.stack[i].0] < |s.par|
    && Anc(s.par, s.number[s.stack[j].0], s.pusher[s.stack[i].0])
  }

  /** What is known of node `k`: while its block is on the stack everything numbered
      since is below it; afterwards its descendants are the interval up to `last`. */
  ghost predicate NodeOk(g: Cfg, s: Dfs, k: nat)
    requires Numbered(g, s) && k < |s.par|
  {
    if OnStack(s, s.node[k]) then
      forall v :: k <= v < |s.par| ==> Anc(s.par, k, v)
    else
      && k <= s.last[k] < |s.par|
      && (forall v :: 0 <= v < |s.par| ==> (Anc(s.par, k, v) <==> k <= v <= s.last[k]))
      && (forall a {:trigger OnStack(s, s.node[a])} :: 0 <= a < |s.par| && OnStack(s, s.node[a]) ==> a < k || s.last[k] < a)
  }

  ghost predicate DfsOk(g: Cfg, s: Dfs) {
    && Numbered(g, s) && StackOk(g, s) && PushedOk(g, s) && ChainOk(g, s)
    && forall k {:trigger NodeOk(g, s, k)} :: 0 <= k < |s.par| ==> NodeOk(g, s, k)
  }

  /** The first block has no predecessor. */
  ghost predicate EntryFirst(g: Cfg) {
    WellFormed(g) && forall u :: 0 <= u < |g| ==> 0 !in g[u]
  }

  // ---------------------------------------------------------------------
  // Leaving a block
  // ---------------------------------------------------------------------

  /** The top block, all of whose subtree has its number, is dropped. */
  ghost predicate Leaves(g: Cfg, s: Dfs, t: Dfs) {
    && Numbered(g, s) && s.stack != [] && s.stack[|s.stack| - 1].0 in s.number
    && t == s.(last := s.last[s.number[s.stack[|s.stack| - 1].0] := |s.par| - 1], stack := s.stack[..|s.stack| - 1])
  }

  lemma LeaveKeeps(g: Cfg, s: Dfs, t: Dfs)
    requires DfsOk(g, s) && Leaves(g, s, t)
    ensures DfsOk(g, t)
  {
    LeaveStack(g, s, t);
    LeavePushed(g, s, t);
    LeaveChain(g, s, t);
    forall n: nat | n < |s.par|
      ensures NodeOk(g, t, n)
    {
      assert NodeOk(g, s, n);
      if n == s.number[s.stack[|s.stack| - 1].0] { LeaveTop(g, s, t); } else { LeaveNode(g, s, t, n); }
    }
  }

  lemma LeaveOn(g: Cfg, s: Dfs, t: Dfs, b: nat)
    requires Leaves(g, s, t) && StackOk(g, s)
    ensures OnStack(t, b) <==> OnStack(s, b) && b != s.stack[|s.stack| - 1].0
  {
    assert EntryOk(g, s, |s.stack| - 1);
  }

  lemma LeaveStack(g: Cfg, s: Dfs, t: Dfs)
    requires Leaves(g, s, t) && StackOk(g, s)
    ensures Numbered(g, t) && StackOk(g, t)
  {
    forall i | 0 <= i < |t.stack| ensures EntryOk(g, t, i) { assert EntryOk(g, s, i); }
    forall b | b in t.visited
      ensures b in t.number || OnStack(t, b)
    {
      LeaveOn(g, s, t, b);
    }
  }

  lemma LeavePushed(g: Cfg, s: Dfs, t: Dfs)
    requires Leaves(g, s, t) && PushedOk(g, s) && Numbered(g, t)
    ensures PushedOk(g, t)
  {
    forall b | b in t.visited ensures FromPusher(g, t, b) { assert FromPusher(g, s, b); }
    forall k: nat, x: nat | k < |t.par| && x in Targets(g, t.node[k]) ensures PushedBy(t, k, x) { assert PushedBy(s, k, x); }
  }

  lemma LeaveChain(g: Cfg, s: Dfs, t: Dfs)
    requires Leaves(g, s, t) && ChainOk(g, s) && Numbered(g, t)
    ensures ChainOk(g, t)
  {
    forall i | 0 < i < |t.stack| ensures HasPusher(g, t, i) { assert HasPusher(g, s, i); }
    forall i, j | 0 <= j < i < |t.stack| && t.stack[j].0 in t.number
      ensures AncOfPusher(g, t, j, i)
    {
      assert AncOfPusher(g, s, j, i);
    }
  }

  lemma LeaveNode(g: Cfg, s: Dfs, t: Dfs, n: nat)
    requires Leaves(g, s, t) && StackOk(g, s) && Numbered(g, t) && n < |s.par| && NodeOk(g, s, n)
    requires n != s.number[s.stack[|s.stack| - 1].0]
    ensures NodeOk(g, t, n)
  {
    LeaveOn(g, s, t, s.node[n]);
    forall a: nat | a < |s.par| && OnStack(t, t.node[a])
      ensures OnStack(s, s.node[a])
    {
      LeaveOn(g, s, t, s.node[a]);
    }
  }

  /** The node that is left: all numbers since belong to its subtree. */
  lemma LeaveTop(g: Cfg, s: Dfs, t: Dfs)
    requires Leaves(g, s, t) && StackOk(g, s) && PushedOk(g, s) && ChainOk(g, s) && Numbered(g, t)
    requires NodeOk(g, s, s.number[s.stack[|s.stack| - 1].0])
    ensures NodeOk(g, t, s.number[s.stack[|s.stack| - 1].0])
  {
    var top := |s.stack| - 1;
    var bb := s.stack[top].0;
    var k := s.number[bb];
    assert EntryOk(g, s, top);
    LeaveOn(g, s, t, bb);
    forall v: nat | v < |s.par| && Anc(s.par, k, v) ensures k <= v { AncBelow(s.par, k, v); }
    forall a: nat | a < |s.par| && OnStack(t, t.node[a])
      ensures a < k
    {
      LeaveOn(g, s, t, s.node[a]);
      assert AncOfPusher(g, s, s.pos[s.node[a]], top);
      AncBelow(s.par, a, s.pusher[bb]);
      assert FromPusher(g, s, bb);
    }
  }

  // ---------------------------------------------------------------------
  // Visiting a block
  // ---------------------------------------------------------------------

  /** The top block gets the next number and its targets that were not visited go on top of it. */
  ghost predicate Visits(g: Cfg, s: Dfs, t: Dfs) {
    && Numbered(g, s) && s.stack != []
    && var top := |s.stack| - 1;
       var bb := s.stack[top].0;
       var cur := |s.par|;
    && cur < |s.node| && bb <= |g| && bb !in s.number
    && t.node == s.node[cur := bb] && t.number == s.number[bb := cur] && t.last == s.last
    && t.par == s.par + [if bb in s.pusher then s.pusher[bb] else 0]
    && |t.stack| >= |s.stack|
    && (forall i :: 0 <= i < |t.stack| ==>
          if i < top then t.stack[i] == s.stack[i] else if i == top then t.stack[i] == (bb, true)
          else NewEntry(g, s, t, bb, i))
    && (forall b :: b in s.visited ==> b in t.visited)
    && (forall b :: b in t.visited && b !in s.visited ==> b in Targets(g, bb) && OnStack(t, b) && b in t.pusher && t.pusher[b] == cur)
    && (forall b :: b in Targets(g, bb) ==> b in t.visited)
    && (forall b :: b in s.pusher && b !in t.visited - s.visited ==> b in t.pusher && t.pusher[b] == s.pusher[b])
    && (forall b :: b in s.pos && b !in t.visited - s.visited ==> b in t.pos && t.pos[b] == s.pos[b])
  }

  ghost predicate NewEntry(g: Cfg, s: Dfs, t: Dfs, bb: nat, i: nat)
    requires i < |t.stack|
  {
    var b := t.stack[i].0;
    b in Targets(g, bb) && b !in s.visited && b in t.visited && !t.stack[i].1 && b in t.pos && t.pos[b] == i
  }

  lemma VisitKeeps(g: Cfg, s: Dfs, t: Dfs)
    requires EntryFirst(g) && DfsOk(g, s) && Visits(g, s, t)
    ensures DfsOk(g, t)
  {
    VisitNumbered(g, s, t);
    VisitStack(g, s, t);
    VisitPushed(g, s, t);
    VisitChain(g, s, t);
    forall k: nat | k < |t.par|
      ensures NodeOk(g, t, k)
    {
      if k < |s.par| {
        assert NodeOk(g, s, k);
        VisitNode(g, s, t, k);
      } else {
        VisitTop(g, s, t);
      }
    }
  }

  lemma VisitNumbered(g: Cfg, s: Dfs, t: Dfs)
    requires Visits(g, s, t) && PushedOk(g, s) && StackOk(g, s)
    ensures Numbered(g, t)
  {
    var top := |s.stack| - 1;
    var bb := s.stack[top].0;
    assert EntryOk(g, s, top);
    if top > 0 { assert FromPusher(g, s, bb); }
    TreeGrows(s.par, if bb in s.pusher then s.pusher[bb] else 0);
  }

  lemma TreeGrows(par: seq<nat>, p: nat)
    requires IsTree(par) && (if par == [] then p == 0 else p < |par|)
    ensures IsTree(par + [p])
  {
  }

  lemma VisitStack(g: Cfg, s: Dfs, t: Dfs)
    requires EntryFirst(g) && Visits(g, s, t) && StackOk(g, s) && PushedOk(g, s)
    ensures StackOk(g, t)
  {
    var top := |s.stack| - 1;
    var bb := s.stack[top].0;
    forall i | 0 <= i < |t.stack|
      ensures EntryOk(g, t, i)
    {
      if i <= top {
        assert EntryOk(g, s, i) && EntryOk(g, s, top);
      } else {
        assert NewEntry(g, s, t, bb, i);
        assert t.stack[i].0 != 0 && t.stack[i].0 <= |g|;
        NewUnnumbered(g, s, t.stack[i].0);
        assert EntryOk(g, s, top);
      }
    }
    forall b | b in t.visited
      ensures b in t.number || OnStack(t, b)
    {
      if b in s.visited && b !in s.number {
        assert OnStack(s, b);
        assert EntryOk(g, s, s.pos[b]);
      }
    }
  }

  /** A block that was not visited has no number, unless it is the first one. */
  lemma NewUnnumbered(g: Cfg, s: Dfs, b: nat)
    requires Numbered(g, s) && PushedOk(g, s) && b !in s.visited && b != 0
    ensures b !in s.number
  {
  }

  lemma VisitPushed(g: Cfg, s: Dfs, t: Dfs)
    requires EntryFirst(g) && Visits(g, s, t) && PushedOk(g, s) && StackOk(g, s) && Numbered(g, t)
    ensures PushedOk(g, t)
  {
    var top := |s.stack| - 1;
    var bb := s.stack[top].0;
    assert EntryOk(g, s, top);
    forall b | b in t.visited
      ensures FromPusher(g, t, b)
    {
      if b in s.visited { assert FromPusher(g, s, b); }
    }
    forall k: nat, x: nat | k < |t.par| && x in Targets(g, t.node[k])
      ensures PushedBy(t, k, x)
    {
      VisitPushedBy(g, s, t, k, x);
    }
    forall b | b in t.number && b != 0
      ensures b in t.visited && b in t.pusher && t.par[t.number[b]] == t.pusher[b]
    {
      if b == bb { assert FromPusher(g, s, b); }
    }
  }

  lemma VisitPushedBy(g: Cfg, s: Dfs, t: Dfs, k: nat, x: nat)
    requires Visits(g, s, t) && PushedOk(g, s) && Numbered(g, t)
    requires k < |t.par| && x in Targets(g, t.node[k])
    ensures PushedBy(t, k, x)
  {
    if k < |s.par| {
      assert PushedBy(s, k, x);
    } else if x in s.visited {
      assert FromPusher(g, s, x);
    }
  }

  lemma VisitOn(g: Cfg, s: Dfs, t: Dfs, b: nat)
    requires EntryFirst(g) && Visits(g, s, t) && StackOk(g, s) && PushedOk(g, s)
    requires b in s.number || b == s.stack[|s.stack| - 1].0
    ensures OnStack(t, b) <==> OnStack(s, b)
    ensures OnStack(s, b) ==> t.pos[b] == s.pos[b]
  {
    var top := |s.stack| - 1;
    assert EntryOk(g, s, top);
    assert b !in t.visited - s.visited;
    if OnStack(t, b) && t.pos[b] <= top {
      assert EntryOk(g, s, t.pos[b]);
    }
  }

  lemma VisitChain(g: Cfg, s: Dfs, t: Dfs)
    requires EntryFirst(g) && Visits(g, s, t) && ChainOk(g, s) && StackOk(g, s) && PushedOk(g, s) && Numbered(g, t)
    ensures ChainOk(g, t)
  {
    forall i | 0 < i < |t.stack|
      ensures HasPusher(g, t, i)
    {
      VisitHasPusher(g, s, t, i);
    }
    forall i, j | 0 <= j < i < |t.stack| && t.stack[j].0 in t.number
      ensures AncOfPusher(g, t, j, i)
    {
      VisitChainAt(g, s, t, j, i);
    }
  }

  lemma VisitHasPusher(g: Cfg, s: Dfs, t: Dfs, i: nat)
    requires EntryFirst(g) && Visits(g, s, t) && ChainOk(g, s) && StackOk(g, s) && PushedOk(g, s) && Numbered(g, t)
    requires 0 < i < |t.stack|
    ensures HasPusher(g, t, i)
    ensures t.pusher[t.stack[i].0] == if i < |s.stack| && s.stack[i].0 in s.pusher then s.pusher[s.stack[i].0] else |s.par|
  {
    var top := |s.stack| - 1;
    if i <= top {
      assert HasPusher(g, s, i) && EntryOk(g, s, i);
      VisitOn(g, s, t, s.node[s.pusher[s.stack[i].0]]);
    } else {
      assert NewEntry(g, s, t, s.stack[top].0, i);
      assert EntryOk(g, s, top);
      VisitOn(g, s, t, s.stack[top].0);
    }
  }

  lemma VisitChainAt(g: Cfg, s: Dfs, t: Dfs, j: nat, i: nat)
    requires EntryFirst(g) && Visits(g, s, t) && ChainOk(g, s) && StackOk(g, s) && PushedOk(g, s) && Numbered(g, t)
    requires j < i < |t.stack| && t.stack[j].0 in t.number
    ensures AncOfPusher(g, t, j, i)
  {
    var top := |s.stack| - 1;
    var bb := s.stack[top].0;
    var cur := |s.par|;
    VisitHasPusher(g, s, t, i);
    assert t.par == s.par + [t.par[cur]];
    if i <= top {
      assert EntryOk(g, s, j) && EntryOk(g, s, top);
      assert AncOfPusher(g, s, j, i);
      AncExtend(s.par, [t.par[cur]], s.number[s.stack[j].0], s.pusher[s.stack[i].0]);
    } else if j > top {
      assert NewEntry(g, s, t, bb, j);
      assert t.stack[j].0 != 0;
      NewUnnumbered(g, s, t.stack[j].0);
    } else if j < top {
      assert EntryOk(g, s, j) && EntryOk(g, s, top);
      assert AncOfPusher(g, s, j, top);
      AncExtend(s.par, [t.par[cur]], s.number[s.stack[j].0], s.pusher[bb]);
    }
  }

  /** The block that was just numbered. */
  lemma VisitTop(g: Cfg, s: Dfs, t: Dfs)
    requires EntryFirst(g) && Visits(g, s, t) && StackOk(g, s) && PushedOk(g, s) && Numbered(g, t)
    ensures NodeOk(g, t, |s.par|)
  {
    assert EntryOk(g, s, |s.stack| - 1);
    VisitOn(g, s, t, s.stack[|s.stack| - 1].0);
  }

  /** Who is above the new node: whoever is above the block that pushed it. */
  lemma VisitAnc(par: seq<nat>, p: nat, k: nat)
    requires IsTree(par) && p < |par| && k < |par|
    ensures IsTree(par + [p])
    ensures forall v: nat :: v < |par| ==> (Anc(par + [p], k, v) <==> Anc(par, k, v))
    ensures Anc(par + [p], k, |par|) <==> Anc(par, k, p)
  {
    TreeGrows(par, p);
    forall v: nat | v < |par|
      ensures Anc(par + [p], k, v) <==> Anc(par, k, v)
    {
      AncExtend(par, [p], k, v);
    }
  }

  lemma VisitNode(g: Cfg, s: Dfs, t: Dfs, k: nat)
    requires EntryFirst(g) && Visits(g, s, t) && ChainOk(g, s) && StackOk(g, s) && PushedOk(g, s) && Numbered(g, t)
    requires k < |s.par| && NodeOk(g, s, k)
    ensures NodeOk(g, t, k)
  {
    var top := |s.stack| - 1;
    var bb := s.stack[top].0;
    assert EntryOk(g, s, top);
    assert HasPusher(g, s, top);
    VisitAnc(s.par, s.pusher[bb], k);
    VisitOn(g, s, t, s.node[k]);
    if OnStack(s, s.node[k]) {
      VisitActive(g, s, t, k);
    } else {
      assert OnStack(s, s.node[s.pusher[bb]]);
      forall a: nat | a < |t.par| && OnStack(t, t.node[a])
        ensures a < k || s.last[k] < a
      {
        if a < |s.par| { VisitOn(g, s, t, s.node[a]); }
      }
    }
  }

  lemma VisitActive(g: Cfg, s: Dfs, t: Dfs, k: nat)
    requires Visits(g, s, t) && ChainOk(g, s) && StackOk(g, s)
    requires k < |s.par| && OnStack(s, s.node[k]) && s.stack[|s.stack| - 1].0 in s.pusher
    ensures s.pusher[s.stack[|s.stack| - 1].0] < |s.par| && Anc(s.par, k, s.pusher[s.stack[|s.stack| - 1].0])
  {
    assert s.stack[s.pos[s.node[k]]].0 == s.node[k];
    assert AncOfPusher(g, s, s.pos[s.node[k]], |s.stack| - 1);
  }

  // ---------------------------------------------------------------------
  // Room for the numbers
  // ---------------------------------------------------------------------

  /** A block without a number leaves room for one. */
  lemma RoomLeft(g: Cfg, s: Dfs)
    requires Numbered(g, s) && StackOk(g, s) && s.stack != [] && !s.stack[|s.stack| - 1].1
    ensures |s.par| < |s.node|
  {
    assert EntryOk(g, s, |s.stack| - 1);
    if |s.par| == |g| + 1 {
      Pigeonhole(|g| + 1, s.node, s.stack[|s.stack| - 1].0);
    }
  }

  ghost function SetOf(bs: seq<nat>): set<nat> {
    set b | b in bs
  }

  ghost function Range(n: nat): set<nat> {
    if n == 0 then {} else Range(n - 1) + {n - 1}
  }

  lemma {:induction false} RangeSize(n: nat)
    ensures |Range(n)| == n && forall i: nat :: i in Range(n) <==> i < n
  {
    if n > 0 { RangeSize(n - 1); }
  }

  lemma {:induction false} CountImage(xs: seq<nat>)
    requires forall i, j :: 0 <= i < j < |xs| ==> xs[i] != xs[j]
    ensures |SetOf(xs)| == |xs|
  {
    if xs == [] {
      assert SetOf(xs) == {};
    } else {
      var n := |xs| - 1;
      CountImage(xs[..n]);
      assert SetOf(xs) == SetOf(xs[..n]) + {xs[n]};
    }
  }

  lemma CountSubset(a: set<nat>, b: set<nat>)
    requires a <= b
    ensures |a| <= |b|
  {
    assert b == a + (b - a);
  }

  /** `n` different numbers below `n` leave none out. */
  lemma Pigeonhole(n: nat, xs: seq<nat>, b: nat)
    requires |xs| == n && b < n
    requires forall i :: 0 <= i < n ==> xs[i] < n
    requires forall i, j :: 0 <= i < j < n ==> xs[i] != xs[j]
    ensures b in xs
  {
    CountImage(xs);
    RangeSize(n);
    if b !in xs { CountSubset(SetOf(xs), Range(n) - {b}); }
  }

  // ---------------------------------------------------------------------
  // The search
  // ---------------------------------------------------------------------

  /** The descendants of a node are the interval up to its `last`. */
  ghost predicate Intervals(par: seq<nat>, last: seq<nat>) {
    && IsTree(par) && |par| <= |last|
    && forall k, v {:trigger Anc(par, k, v)} :: 0 <= k < |par| && 0 <= v < |par| ==> (Anc(par, k, v) <==> k <= v <= last[k])
  }

  /** The finished search: numbers and blocks are inverse to each other, the blocks
      with a number are those reached from the first one, a node's descendants are
      the interval up to `last`, and its parent is the first of its predecessors. */
  ghost predicate IsSpanning(g: Cfg, node: seq<nat>, number: map<nat, nat>, last: seq<nat>, par: seq<nat>) {
    && |node| == |last| == |g| + 1 && 0 < |par| <= |g| + 1 && IsTree(par)
    && (forall k :: 0 <= k < |par| ==> node[k] <= |g| && node[k] in number && number[node[k]] == k)
    && (forall b :: b in number ==> number[b] < |par| && node[number[b]] == b)
    && (forall k :: |par| <= k <= |g| ==> node[k] == NullBlock(g) && last[k] == UNSET)
    && 0 in number && number[0] == 0
    && (forall k, t {:trigger t in Targets(g, node[k])} :: 0 <= k < |par| && t in Targets(g, node[k]) ==> t in number)
    && Intervals(par, last)
    && (forall v :: 0 < v < |par| ==> node[v] in Targets(g, node[par[v]]))
    && (forall v, k {:trigger node[v] in Targets(g, node[k])} ::
          0 < v < |par| && 0 <= k < |par| && node[v] in Targets(g, node[k]) ==> par[v] <= k)
  }

  lemma SearchDone(g: Cfg, s: Dfs)
    requires DfsOk(g, s) && s.stack == [] && 0 < |s.par|
    ensures IsSpanning(g, s.node, s.number, s.last, s.par)
  {
    forall k: nat, t: nat | k < |s.par| && t in Targets(g, s.node[k])
      ensures t in s.number
      ensures t != 0 ==> s.par[s.number[t]] <= k
    {
      assert PushedBy(s, k, t);
      assert !OnStack(s, t);
    }
    forall k: nat, v: nat | k < |s.par| && v < |s.par|
      ensures Anc(s.par, k, v) <==> k <= v <= s.last[k]
    {
      assert NodeOk(g, s, k);
      assert !OnStack(s, s.node[k]);
    }
    forall v: nat | 0 < v < |s.par|
      ensures s.node[v] in Targets(g, s.node[s.par[v]])
    {
      assert FromPusher(g, s, s.node[v]);
    }
  }

  /** Push the targets that were not visited. */
  method PushTargets(targets: seq<nat>, stack: Stack, visited: set<nat>) returns (stack': Stack, visited': set<nat>)
    ensures stack <= stack'
    ensures forall b :: b in visited' <==> b in visited || b in targets
    ensures forall i :: |stack| <= i < |stack'| ==> stack'[i].0 in targets && stack'[i].0 !in visited && !stack'[i].1
    ensures forall b :: b in targets && b !in visited ==> IsNew(stack', |stack|, b)
    ensures forall i, j :: |stack| <= i < j < |stack'| ==> stack'[i].0 != stack'[j].0
  {
    stack', visited' := stack, visited;
    for n := 0 to |targets|
      invariant stack <= stack'
      invariant forall b :: b in visited' <==> b in visited || b in targets[..n]
      invariant forall i :: |stack| <= i < |stack'| ==> stack'[i].0 in targets[..n] && stack'[i].0 !in visited && !stack'[i].1
      invariant forall b :: b in targets[..n] && b !in visited ==> IsNew(stack', |stack|, b)
      invariant forall i, j :: |stack| <= i < j < |stack'| ==> stack'[i].0 != stack'[j].0
    {
      var t := targets[n];
      assert targets[..n + 1] == targets[..n] + [t];
      ghost var before := stack';
      if t !in visited' {
        stack' := stack' + [(t, false)];
        visited' := visited' + {t};
        assert stack'[|stack'| - 1].0 == t;
      }
      forall b | b in targets[..n + 1] && b !in visited
        ensures IsNew(stack', |stack|, b)
      {
        if b in targets[..n] {
          assert IsNew(before, |stack|, b);
          var i :| |stack| <= i < |before| && before[i].0 == b;
          assert stack'[i].0 == b;
        }
      }
    }
    assert targets[..|targets|] == targets;
  }

  ghost predicate IsNew(stack: Stack, from: nat, b: nat) {
    exists i :: from <= i < |stack| && stack[i].0 == b
  }

  ghost function Where(stack: Stack, from: nat, b: nat): (i: nat)
    ensures IsNew(stack, from, b) ==> from <= i < |stack| && stack[i].0 == b
  {
    if IsNew(stack, from, b) then var i :| from <= i < |stack| && stack[i].0 == b; i else 0
  }

  /** The state after a visit, with the proof's variables brought up to date. */
  ghost function Pushed(s: Dfs, node: seq<nat>, number: map<nat, nat>, stack: Stack, visited: set<nat>, par: seq<nat>): Dfs {
    var new_ := visited - s.visited;
    Dfs(node, number, s.last, stack, visited,
        map b | b in s.pusher.Keys + new_ :: if b in new_ then |s.par| else s.pusher[b],
        par,
        map b | b in s.pos.Keys + new_ :: if b in new_ then Where(stack, |s.stack|, b) else s.pos[b])
  }

  lemma IsVisit(g: Cfg, s: Dfs, stack: Stack, visited: set<nat>, t: Dfs)
    requires Numbered(g, s) && s.stack != [] && |s.par| < |s.node|
    requires s.stack[|s.stack| - 1].0 <= |g| && s.stack[|s.stack| - 1].0 !in s.number
    requires s.stack[|s.stack| - 1 := (s.stack[|s.stack| - 1].0, true)] <= stack
    requires forall b :: b in visited <==> b in s.visited || b in Targets(g, s.stack[|s.stack| - 1].0)
    requires forall i :: |s.stack| <= i < |stack| ==>
               stack[i].0 in Targets(g, s.stack[|s.stack| - 1].0) && stack[i].0 !in s.visited && !stack[i].1
    requires forall b :: b in visited && b !in s.visited ==> IsNew(stack, |s.stack|, b)
    requires forall i, j :: |s.stack| <= i < j < |stack| ==> stack[i].0 != stack[j].0
    requires t == Pushed(s, s.node[|s.par| := s.stack[|s.stack| - 1].0], s.number[s.stack[|s.stack| - 1].0 := |s.par|],
                         stack, visited,
                         s.par + [if s.stack[|s.stack| - 1].0 in s.pusher then s.pusher[s.stack[|s.stack| - 1].0] else 0])
    ensures Visits(g, s, t)
  {
    var top := |s.stack| - 1;
    forall i | 0 <= i < |t.stack|
      ensures if i < top then t.stack[i] == s.stack[i] else if i == top then t.stack[i] == (s.stack[top].0, true)
              else NewEntry(g, s, t, s.stack[top].0, i)
    {
      var base := s.stack[top := (s.stack[top].0, true)];
      if i <= top {
        assert t.stack[..|base|][i] == base[i];
      } else {
        assert IsNew(stack, |s.stack|, stack[i].0);
      }
    }
    forall b | b in t.visited && b !in s.visited
      ensures b in Targets(g, s.stack[top].0) && OnStack(t, b) && b in t.pusher && t.pusher[b] == |s.par|
    {
      assert IsNew(stack, |s.stack|, b);
    }
  }

  /** `getDepthFirstSpanningTree` */
  method DepthFirst(g: Cfg) returns (node: seq<nat>, number: map<nat, nat>, last: seq<nat>, ghost par: seq<nat>)
    requires EntryFirst(g)
    ensures IsSpanning(g, node, number, last, par)
    ensures 0 in number && forall b :: b in number ==> number[b] < |node| && node[number[b]] == b
    ensures forall b, t {:trigger t in Targets(g, b)} :: b in number && t in Targets(g, b) ==> t in number
  {
    node := seq(|g| + 1, _ => NullBlock(g));
    last := seq(|g| + 1, _ => UNSET);
    number := map[];
    par := [];
    var current := 0;
    var stack: Stack := [(0, false)];
    var visited: set<nat> := {};
    ghost var s := Dfs(node, number, last, stack, visited, map[], par, map[0 := 0]);
    while stack != []
      invariant s.node == node && s.number == number && s.last == last && s.stack == stack && s.visited == visited && s.par == par
      invariant DfsOk(g, s) && current == |par|
      invariant stack == [] ==> current > 0
      decreases |g| + 1 - current, |stack|
    {
      ghost var s0 := s;
      var top := |stack| - 1;
      var (bb, flag) := stack[top];
      assert EntryOk(g, s, top);
      if flag {
        last := last[number[bb] := current - 1];
        stack := stack[..top];
        s := s.(last := last, stack := stack);
        LeaveKeeps(g, s0, s);
      } else {
        RoomLeft(g, s);
        node := node[current := bb];
        number := number[bb := current];
        par := par + [if bb in s.pusher then s.pusher[bb] else 0];
        current := current + 1;
        stack := stack[top := (bb, true)];
        stack, visited := PushTargets(Targets(g, bb), stack, visited);
        s := Pushed(s0, node, number, stack, visited, par);
        IsVisit(g, s0, stack, visited, s);
        VisitKeeps(g, s0, s);
      }
    }
    SearchDone(g, s);
  }
}
