/** The sources of cloned phis (the second half of `cloneBB`) against the jump
    targets that are patched afterwards. */
module PhiSources {
  import opened Unroll

  /** Values with the blocks they come from. */
  type Phi = seq<(nat, nat)>

  // ---------------------------------------------------------------------
  // Patching one phi
  // ---------------------------------------------------------------------

  /** What is left of the first `n` entries: those from the loop, with the names
      that `names` gives to the blocks of the loop. */
  function Kept(phi: Phi, names: map<nat, nat>, n: nat): Phi
    requires n <= |phi|
  {
    if n == 0 then []
    else Kept(phi, names, n - 1) + (if phi[n - 1].1 in names then [(phi[n - 1].0, names[phi[n - 1].1])] else [])
  }

  function Renamed(phi: Phi, names: map<nat, nat>): Phi {
    Kept(phi, names, |phi|)
  }

  /** An entry of the new phi is a kept entry of the old one. */
  lemma {:induction false} KeptIff(phi: Phi, names: map<nat, nat>, n: nat, v: nat, y: nat)
    requires n <= |phi|
    ensures (v, y) in Kept(phi, names, n) <==> exists m :: 0 <= m < n && KeptAs(phi, names, m, v, y)
  {
    if n > 0 {
      KeptIff(phi, names, n - 1, v, y);
      if KeptAs(phi, names, n - 1, v, y) {
        assert (v, y) == Kept(phi, names, n)[|Kept(phi, names, n)| - 1];
      }
    }
  }

  predicate KeptAs(phi: Phi, names: map<nat, nat>, m: nat, v: nat, y: nat)
    requires m < |phi|
  {
    phi[m].0 == v && phi[m].1 in names && names[phi[m].1] == y
  }

  /** `removeValue` */
  method RemoveValue(vals: Phi, src: nat) returns (r: Phi)
    ensures r == Without(vals, {src}, |vals|)
  {
    r := [];
    for i := 0 to |vals|
      invariant r == Without(vals, {src}, i)
    {
      if vals[i].1 != src { r := r + [vals[i]]; }
    }
  }

  /** The first `n` entries without those from `gone`. */
  function Without(vals: Phi, gone: set<nat>, n: nat): Phi
    requires n <= |vals|
  {
    if n == 0 then []
    else Without(vals, gone, n - 1) + (if vals[n - 1].1 in gone then [] else [vals[n - 1]])
  }

  /** The first entry from `src` comes from `to` instead. */
  function FirstReplaced(vals: Phi, src: nat, to: nat): Phi {
    if vals == [] then []
    else if vals[0].1 == src then [(vals[0].0, to)] + vals[1..]
    else [vals[0]] + FirstReplaced(vals[1..], src, to)
  }

  /** `replaceSourceWith` */
  method ReplaceSource(vals: Phi, src: nat, to: nat) returns (r: Phi)
    ensures r == FirstReplaced(vals, src, to)
  {
    for i := 0 to |vals|
      invariant forall m :: 0 <= m < i ==> vals[m].1 != src
    {
      if vals[i].1 == src {
        FirstAt(vals, src, to, i);
        return vals[i := (vals[i].0, to)];
      }
    }
    NoneReplaced(vals, src, to);
    return vals;
  }

  lemma {:induction false} FirstAt(vals: Phi, src: nat, to: nat, i: nat)
    requires i < |vals| && vals[i].1 == src && forall m :: 0 <= m < i ==> vals[m].1 != src
    ensures FirstReplaced(vals, src, to) == vals[i := (vals[i].0, to)]
  {
    if i > 0 { FirstAt(vals[1..], src, to, i - 1); }
  }

  lemma {:induction false} NoneReplaced(vals: Phi, src: nat, to: nat)
    requires forall m :: 0 <= m < |vals| ==> vals[m].1 != src
    ensures FirstReplaced(vals, src, to) == vals
  {
    if vals != [] { NoneReplaced(vals[1..], src, to); }
  }

  lemma {:induction false} WithoutAppend(a: Phi, b: Phi, gone: set<nat>, n: nat)
    requires n <= |b|
    ensures Without(a + b, gone, |a| + n) == Without(a, gone, |a|) + Without(b, gone, n)
  {
    if n == 0 {
      WithoutPrefix(a, b, gone, |a|);
    } else {
      WithoutAppend(a, b, gone, n - 1);
    }
  }

  lemma {:induction false} WithoutPrefix(a: Phi, b: Phi, gone: set<nat>, n: nat)
    requires n <= |a|
    ensures Without(a + b, gone, n) == Without(a, gone, n)
  {
    if n > 0 { WithoutPrefix(a, b, gone, n - 1); }
  }

  /** Nothing to remove. */
  lemma {:induction false} WithoutNone(a: Phi, gone: set<nat>, n: nat)
    requires n <= |a| && forall i :: 0 <= i < n ==> a[i].1 !in gone
    ensures Without(a, gone, n) == a[..n]
  {
    if n > 0 {
      WithoutNone(a, gone, n - 1);
      assert a[..n] == a[..n - 1] + [a[n - 1]];
    }
  }

  /** The first of the entries that follow. */
  lemma WithoutFirst(a: Phi, gone: set<nat>)
    requires a != []
    ensures Without(a, gone, |a|) == (if a[0].1 in gone then [] else [a[0]]) + Without(a[1..], gone, |a| - 1)
  {
    WithoutAppend(a[..1], a[1..], gone, |a| - 1);
    assert a[..1] + a[1..] == a;
    assert Without(a[..1], gone, 1) == Without(a[..1], gone, 0) + (if a[0].1 in gone then [] else [a[0]]);
  }

  /** Removing in two steps. */
  lemma {:induction false} WithoutTwice(a: Phi, gone: set<nat>, src: nat, n: nat)
    requires n <= |a|
    ensures Without(Without(a, gone, n), {src}, |Without(a, gone, n)|) == Without(a, gone + {src}, n)
  {
    if n > 0 {
      WithoutTwice(a, gone, src, n - 1);
      var w, e := Without(a, gone, n - 1), a[n - 1];
      if e.1 in gone {
        assert Without(a, gone, n) == w;
      } else {
        assert Without(a, gone, n) == w + [e];
        WithoutLast(w, e, {src});
      }
    }
  }

  lemma WithoutLast(w: Phi, e: (nat, nat), gone: set<nat>)
    ensures Without(w + [e], gone, |w + [e]|) == Without(w, gone, |w|) + (if e.1 in gone then [] else [e])
  {
    WithoutPrefix(w, [e], gone, |w|);
  }

  /** Names of blocks in the loop: a block keeps its own name or gets a new one. */
  ghost predicate NamesOk(names: map<nat, nat>, n: nat) {
    forall b :: b in names ==> b < n && (names[b] == b || names[b] >= n)
  }

  /** The patching loop of `cloneBB` for one phi. It walks a snapshot of the
      sources while it replaces and removes entries. */
  method PatchPhi(phi: Phi, names: map<nat, nat>, ghost n: nat) returns (vals: Phi)
    requires NamesOk(names, n) && forall i :: 0 <= i < |phi| ==> phi[i].1 < n
    ensures vals == Renamed(phi, names)
  {
    vals := phi;
    ghost var gone: set<nat> := {};
    WithoutNone(phi, gone, |phi|);
    assert phi[0..] == phi[..|phi|] == phi;
    for i := 0 to |phi|
      invariant forall s :: s in gone ==> s !in names
      invariant vals == HalfDone(phi, names, gone, i)
    {
      var src := phi[i].1;
      if src in names {
        vals := ReplaceSource(vals, src, names[src]);
        NextKept(phi, names, gone, n, i);
      } else {
        vals := RemoveValue(vals, src);
        NextGone(phi, names, gone, n, i);
        gone := gone + {src};
      }
    }
    assert phi[|phi|..] == [];
  }

  /** The first `i` entries are patched; entries from `gone` are removed. */
  ghost function HalfDone(phi: Phi, names: map<nat, nat>, gone: set<nat>, i: nat): Phi
    requires i <= |phi|
  {
    Kept(phi, names, i) + Without(phi[i..], gone, |phi| - i)
  }

  lemma NextKept(phi: Phi, names: map<nat, nat>, gone: set<nat>, n: nat, i: nat)
    requires NamesOk(names, n) && i < |phi| && phi[i].1 < n && phi[i].1 in names && phi[i].1 !in gone
    ensures FirstReplaced(HalfDone(phi, names, gone, i), phi[i].1, names[phi[i].1]) == HalfDone(phi, names, gone, i + 1)
  {
    var was, rest := Kept(phi, names, i), Without(phi[i + 1..], gone, |phi| - i - 1);
    WithoutFirst(phi[i..], gone);
    assert phi[i..][1..] == phi[i + 1..];
    assert HalfDone(phi, names, gone, i) == was + ([phi[i]] + rest);
    KeptSources(phi, names, n, i, phi[i].1);
    ReplacedIs(was, phi[i], rest, names[phi[i].1]);
  }

  lemma NextGone(phi: Phi, names: map<nat, nat>, gone: set<nat>, n: nat, i: nat)
    requires NamesOk(names, n) && i < |phi| && phi[i].1 < n && phi[i].1 !in names
    ensures
      var all := HalfDone(phi, names, gone, i);
      Without(all, {phi[i].1}, |all|) == HalfDone(phi, names, gone + {phi[i].1}, i + 1)
  {
    var src, was, w := phi[i].1, Kept(phi, names, i), Without(phi[i..], gone, |phi| - i);
    KeptWithout(phi, names, n, i, src);
    WithoutAppend(was, w, {src}, |w|);
    WithoutTwice(phi[i..], gone, src, |phi| - i);
    GoneFirst(phi, gone + {src}, i);
  }

  /** The source was not named by an entry that is kept. */
  lemma KeptWithout(phi: Phi, names: map<nat, nat>, n: nat, i: nat, src: nat)
    requires NamesOk(names, n) && i <= |phi| && src < n && src !in names
    ensures Without(Kept(phi, names, i), {src}, |Kept(phi, names, i)|) == Kept(phi, names, i)
  {
    var was := Kept(phi, names, i);
    KeptSources(phi, names, n, i, src);
    WithoutNone(was, {src}, |was|);
    assert was[..|was|] == was;
  }

  lemma GoneFirst(phi: Phi, gone: set<nat>, i: nat)
    requires i < |phi| && phi[i].1 in gone
    ensures Without(phi[i..], gone, |phi| - i) == Without(phi[i + 1..], gone, |phi| - i - 1)
  {
    WithoutFirst(phi[i..], gone);
    assert phi[i..][1..] == phi[i + 1..];
  }

  method PatchPhis(phis: seq<Phi>, names: map<nat, nat>, ghost n: nat) returns (ps: seq<Phi>)
    requires NamesOk(names, n) && PhisBelow(phis, n)
    ensures ps == RenamedAll(phis, names)
  {
    ps := [];
    for i := 0 to |phis|
      invariant |ps| == i && forall a :: 0 <= a < i ==> ps[a] == Renamed(phis[a], names)
    {
      var patched := PatchPhi(phis[i], names, n);
      ps := ps + [patched];
    }
  }

  /** A kept entry has the name of an original block only if that is its own. */
  lemma {:induction false} KeptSources(phi: Phi, names: map<nat, nat>, n: nat, i: nat, src: nat)
    requires NamesOk(names, n) && i <= |phi| && src < n
    ensures forall m :: 0 <= m < |Kept(phi, names, i)| && Kept(phi, names, i)[m].1 == src ==> src in names && names[src] == src
  {
    if i > 0 { KeptSources(phi, names, n, i - 1, src); }
  }

  /** Replacing the first entry from the source of `e` replaces `e`, unless it
      changes nothing. */
  lemma {:induction false} ReplacedIs(was: Phi, e: (nat, nat), rest: Phi, to: nat)
    requires forall m :: 0 <= m < |was| && was[m].1 == e.1 ==> to == e.1
    ensures FirstReplaced(was + ([e] + rest), e.1, to) == was + [(e.0, to)] + rest
  {
    var all := was + ([e] + rest);
    if to == e.1 {
      ReplacedSame(all, to);
    } else if was == [] {
      assert all[1..] == rest;
    } else {
      ReplacedIs(was[1..], e, rest, to);
      assert all[1..] == was[1..] + ([e] + rest);
    }
  }

  lemma {:induction false} ReplacedSame(vals: Phi, src: nat)
    ensures FirstReplaced(vals, src, src) == vals
  {
    if vals != [] { ReplacedSame(vals[1..], src); }
  }

  // ---------------------------------------------------------------------
  // Cloning a loop with its phis
  // ---------------------------------------------------------------------

  /** The last copy so far of every block of the loop. */
  function LastCopies(copies: Copies): map<nat, nat>
    requires forall b :: b in copies ==> copies[b] != []
  {
    map b | b in copies :: copies[b][|copies[b]| - 1]
  }

  /** The copies that copy `j` of block `bbs[q]` can be entered from: the same
      copy of earlier blocks, the previous copy of the others. */
  ghost function Names(bbs: seq<nat>, copies: Copies, q: nat, j: nat): map<nat, nat>
    requires q < |bbs| && j > 0
  {
    map b | b in bbs :: Place(copies, b, if b in bbs[..q] then j else j - 1)
  }

  ghost function RenamedAll(phis: seq<Phi>, names: map<nat, nat>): seq<Phi> {
    seq(|phis|, i requires 0 <= i < |phis| => Renamed(phis[i], names))
  }

  ghost predicate CopyOk(was: seq<seq<Phi>>, phis: seq<seq<Phi>>, bbs: seq<nat>, copies: Copies, q: nat, j: nat)
    requires q < |bbs| && j > 0
  {
    && bbs[q] in copies && j < |copies[bbs[q]]| && copies[bbs[q]][j] < |phis| && bbs[q] < |was|
    && phis[copies[bbs[q]][j]] == RenamedAll(was[bbs[q]], Names(bbs, copies, q, j))
  }

  /** Every clone has the phis of its original block with the sources of `Names`. */
  ghost predicate PhisCloned(was: seq<seq<Phi>>, phis: seq<seq<Phi>>, bbs: seq<nat>, copies: Copies) {
    && was <= phis
    && forall q, j :: 0 <= q < |bbs| && bbs[q] in copies && 0 < j < |copies[bbs[q]]| ==> CopyOk(was, phis, bbs, copies, q, j)
  }

  ghost predicate SourcesBelow(phis: seq<seq<Phi>>, n: nat) {
    forall b :: 0 <= b < |phis| ==> PhisBelow(phis[b], n)
  }

  ghost predicate PhisBelow(phis: seq<Phi>, n: nat) {
    forall i :: 0 <= i < |phis| ==> forall m :: 0 <= m < |phis[i]| ==> phis[i][m].1 < n
  }

  lemma LastNamesOk(n: nat, blocks: set<nat>, copies: Copies, orig: Origin)
    requires Numbering(n, blocks, copies, orig)
    ensures NamesOk(LastCopies(copies), n)
  {
    forall b | b in copies
      ensures b < n && (LastCopies(copies)[b] == b || LastCopies(copies)[b] >= n)
    {
      var x := copies[b][|copies[b]| - 1];
      assert orig[x] == (b, |copies[b]| - 1);
    }
  }

  /** In its round, a block finds the copies of earlier blocks already made. */
  lemma LastAreNames(bbs: seq<nat>, copies: Copies, copies': Copies, m: nat, p: nat, x: nat)
    requires Distinct(bbs) && p < |bbs| && m > 0 && copies.Keys == SetOf(bbs) && Sizes(bbs, copies, m, p)
    requires forall b :: b in copies ==> copies[b] != []
    requires copies' == copies[bbs[p] := copies[bbs[p]] + [x]]
    ensures LastCopies(copies) == Names(bbs, copies', p, m)
  {
    forall b | b in copies
      ensures b in bbs && LastCopies(copies)[b] == Names(bbs, copies', p, m)[b]
    {
      var i :| 0 <= i < |bbs| && bbs[i] == b;
      Position(bbs, p, i);
    }
  }

  lemma Position(bbs: seq<nat>, p: nat, i: nat)
    requires Distinct(bbs) && p <= |bbs| && i < |bbs|
    ensures bbs[i] in bbs[..p] <==> i < p
  {
    if i < p { assert bbs[..p][i] == bbs[i]; }
  }

  /** The copies that earlier clones name are still the same. */
  lemma NamesStay(bbs: seq<nat>, copies: Copies, copies': Copies, m: nat, p: nat, x: nat, q: nat, j: nat)
    requires Distinct(bbs) && p < |bbs| && Sizes(bbs, copies, m, p)
    requires copies' == copies[bbs[p] := copies[bbs[p]] + [x]]
    requires q < |bbs| && 0 < j < |copies[bbs[q]]|
    ensures Names(bbs, copies', q, j) == Names(bbs, copies, q, j)
  {
    forall b | b in bbs
      ensures Names(bbs, copies', q, j)[b] == Names(bbs, copies, q, j)[b]
    {
      var i :| 0 <= i < |bbs| && bbs[i] == b;
      Position(bbs, q, i);
    }
  }

  /** One more clone with its phis. */
  lemma PhisGrow(was: seq<seq<Phi>>, phis: seq<seq<Phi>>, bbs: seq<nat>, copies: Copies, m: nat, p: nat, ps: seq<Phi>)
    requires Distinct(bbs) && p < |bbs| && m > 0 && copies.Keys == SetOf(bbs) && Sizes(bbs, copies, m, p)
    requires PhisCloned(was, phis, bbs, copies) && bbs[p] < |was| && forall b :: b in copies ==> copies[b] != []
    requires ps == RenamedAll(was[bbs[p]], LastCopies(copies))
    ensures PhisCloned(was, phis + [ps], bbs, copies[bbs[p] := copies[bbs[p]] + [|phis|]])
  {
    var copies' := copies[bbs[p] := copies[bbs[p]] + [|phis|]];
    LastAreNames(bbs, copies, copies', m, p, |phis|);
    forall q, j | 0 <= q < |bbs| && bbs[q] in copies' && 0 < j < |copies'[bbs[q]]|
      ensures CopyOk(was, phis + [ps], bbs, copies', q, j)
    {
      if q == p && j == m {
      } else {
        assert CopyOk(was, phis, bbs, copies, q, j);
        NamesStay(bbs, copies, copies', m, p, |phis|, q, j);
      }
    }
  }

  /** A function whose blocks have phis. */
  class PhiFunction {
    const fn: Function
    var phis: seq<seq<Phi>>

    constructor (fn: Function, phis: seq<seq<Phi>>)
      ensures this.fn == fn && this.phis == phis
    {
      this.fn := fn;
      this.phis := phis;
    }

    /** `cloneBB` for block `bbs[p]`; the map of copies has not got the clone yet. */
    method CloneBB(bbs: seq<nat>, p: nat, copies: Copies, ghost f: Fn, ghost was: seq<seq<Phi>>, ghost m: nat, ghost orig: Origin)
      returns (copies': Copies, ghost orig': Origin)
      requires p < |bbs| && m > 0 && Distinct(bbs) && fn.Mirrors(f, SetOf(bbs), copies, orig) && Sizes(bbs, copies, m, p)
      requires |phis| == |orig| && |was| == |f| && SourcesBelow(was, |f|) && PhisCloned(was, phis, bbs, copies)
      modifies this, fn
      ensures fn.Mirrors(f, SetOf(bbs), copies', orig') && Sizes(bbs, copies', m, p + 1)
      ensures |phis| == |orig'| && PhisCloned(was, phis, bbs, copies')
    {
      var b := bbs[p];
      assert b in SetOf(bbs) && phis[b] == was[b] && PhisBelow(was[b], |f|);
      LastNamesOk(|f|, SetOf(bbs), copies, orig);
      var names := LastCopies(copies);
      var ps := PatchPhis(phis[b], names, |f|);
      PhisGrow(was, phis, bbs, copies, m, p, ps);
      SizesNext(bbs, copies, m, p, |phis|);
      copies', orig' := fn.AddCopy(b, copies, f, SetOf(bbs), orig);
      phis := phis + [ps];
    }

    method CloneRound(bbs: seq<nat>, copies: Copies, ghost f: Fn, ghost was: seq<seq<Phi>>, ghost m: nat, ghost orig: Origin)
      returns (copies': Copies, ghost orig': Origin)
      requires m > 0 && Distinct(bbs) && fn.Mirrors(f, SetOf(bbs), copies, orig) && Sizes(bbs, copies, m, 0)
      requires |phis| == |orig| && |was| == |f| && SourcesBelow(was, |f|) && PhisCloned(was, phis, bbs, copies)
      modifies this, fn
      ensures fn.Mirrors(f, SetOf(bbs), copies', orig') && Sizes(bbs, copies', m + 1, 0)
      ensures |phis| == |orig'| && PhisCloned(was, phis, bbs, copies')
    {
      copies', orig' := copies, orig;
      for p := 0 to |bbs|
        invariant fn.Mirrors(f, SetOf(bbs), copies', orig') && Sizes(bbs, copies', m, p)
        invariant |phis| == |orig'| && PhisCloned(was, phis, bbs, copies')
      {
        copies', orig' := CloneBB(bbs, p, copies', f, was, m, orig');
      }
    }

    /** All clones of a loop, the extra header copy included. */
    method CloneLoop(bbs: seq<nat>, k: nat) returns (copies: Copies, ghost orig: Origin)
      requires k > 0 && bbs != [] && Distinct(bbs)
      requires forall i :: 0 <= i < |bbs| ==> bbs[i] < |fn.targets|
      requires |phis| == |fn.targets| && SourcesBelow(phis, |phis|)
      modifies this, fn
      ensures fn.Mirrors(old(fn.targets), SetOf(bbs), copies, orig)
      ensures Sizes(bbs, copies, k, if |bbs| > 1 then 1 else 0)
      ensures |phis| == |orig| && PhisCloned(old(phis), phis, bbs, copies)
    {
      ghost var f, was := fn.targets, phis;
      copies := map b | b in bbs :: [b];
      orig := seq(|f|, x => (x, 0));
      for unroll := 2 to k + 1
        invariant fn.Mirrors(f, SetOf(bbs), copies, orig) && Sizes(bbs, copies, unroll - 1, 0)
        invariant |phis| == |orig| && PhisCloned(was, phis, bbs, copies)
      {
        copies, orig := CloneRound(bbs, copies, f, was, unroll - 1, orig);
      }
      if |bbs| > 1 {
        copies, orig := CloneBB(bbs, 0, copies, f, was, k, orig);
      }
    }

    /** One loop of `unroll`, with the phis of its clones. */
    method UnrollLoop(bbs: seq<nat>, k: nat) returns (copies: Copies, ghost orig: Origin)
      requires k > 0 && bbs != [] && Distinct(bbs) && Closed(fn.targets)
      requires forall i :: 0 <= i < |bbs| ==> bbs[i] < |fn.targets|
      requires |phis| == |fn.targets| && SourcesBelow(phis, |phis|)
      modifies this, fn
      ensures IsUnrolling(old(fn.targets), fn.targets, LoopOf(bbs), k, copies, orig)
      ensures |phis| == |fn.targets| && PhisCloned(old(phis), phis, bbs, copies)
    {
      ghost var f := fn.targets;
      copies, orig := CloneLoop(bbs, k);
      CopiesMade(|f|, bbs, k, copies, orig);
      fn.PatchLoop(bbs, copies, |f|, orig);
    }
  }

  // ---------------------------------------------------------------------
  // The sources against the patched jumps
  // ---------------------------------------------------------------------

  /** Apart from edges to the header, edges of the loop follow the block list. */
  ghost predicate TopOrder(f: Fn, bbs: seq<nat>) {
    forall i, q :: 0 <= i < |bbs| && 0 < q < |bbs| && Edge(f, bbs[i], bbs[q]) ==> i < q
  }

  /** The number of the copy of `bbs[i]` that copy `j` of `bbs[q]` is entered from. */
  function Before(q: nat, j: nat, i: nat): nat
    requires j > 0
  {
    if i < q then j else j - 1
  }

  lemma NamesIs(n: nat, bbs: seq<nat>, k: nat, copies: Copies, orig: Origin, q: nat, j: nat, i: nat)
    requires bbs != [] && Distinct(bbs) && IsCopies(n, LoopOf(bbs), k, copies, orig)
    requires q < |bbs| && 0 < j < |copies[bbs[q]]| && i < |bbs|
    ensures
      var y := Names(bbs, copies, q, j)[bbs[i]];
      y < |orig| && orig[y] == (bbs[i], Before(q, j, i)) && orig[copies[bbs[q]][j]] == (bbs[q], j)
  {
    Position(bbs, q, i);
    LoopSize(bbs);
    assert bbs[i] in LoopOf(bbs).blocks && bbs[q] in LoopOf(bbs).blocks;
    assert Before(q, j, i) < |copies[bbs[i]]|;
  }

  /** Copy `j` of `bbs[q]` is entered from the copy of `bbs[i]` that `Names` picks. */
  lemma EntersFrom(f: Fn, f': Fn, bbs: seq<nat>, k: nat, copies: Copies, orig: Origin, q: nat, j: nat, i: nat)
    requires bbs != [] && Distinct(bbs) && IsUnrolling(f, f', LoopOf(bbs), k, copies, orig) && TopOrder(f, bbs)
    requires q < |bbs| && 0 < j < |copies[bbs[q]]| && i < |bbs|
    ensures
      var y := Names(bbs, copies, q, j)[bbs[i]];
      && y < |f'| && orig[y].0 == bbs[i]
      && (Edge(f', y, copies[bbs[q]][j]) <==> Edge(f, bbs[i], bbs[q]))
  {
    NamesIs(|f|, bbs, k, copies, orig, q, j, i);
    var y := Names(bbs, copies, q, j)[bbs[i]];
    if Edge(f', y, copies[bbs[q]][j]) {
      EdgeProjects(f, f', LoopOf(bbs), k, copies, orig, y, copies[bbs[q]][j]);
    }
    if Edge(f, bbs[i], bbs[q]) {
      EdgeEnters(f, f', bbs, k, copies, orig, q, j, i, y);
    }
  }

  lemma EdgeEnters(f: Fn, f': Fn, bbs: seq<nat>, k: nat, copies: Copies, orig: Origin, q: nat, j: nat, i: nat, y: nat)
    requires bbs != [] && Distinct(bbs) && IsUnrolling(f, f', LoopOf(bbs), k, copies, orig) && TopOrder(f, bbs)
    requires q < |bbs| && 0 < j < |copies[bbs[q]]| && i < |bbs| && Edge(f, bbs[i], bbs[q])
    requires y < |f'| && orig[y] == (bbs[i], Before(q, j, i))
    ensures Edge(f', y, copies[bbs[q]][j])
  {
    var l := LoopOf(bbs);
    assert bbs[q] in l.blocks && bbs[i] in l.blocks;
    assert NextCopy(l, bbs[i], Before(q, j, i), bbs[q]) == j by {
      assert q == 0 <==> bbs[q] == l.header;
    }
    EdgeLifts(f, f', l, k, copies, orig, y, bbs[q]);
  }

  /** For every edge into a clone, the clone's phi takes the value that the original
      phi takes from the block the edge comes from; and a source of the clone's phi
      is a predecessor exactly if the original source was one. */
  lemma SourcesMatch(f: Fn, f': Fn, bbs: seq<nat>, k: nat, copies: Copies, orig: Origin, phi: Phi, q: nat, j: nat, v: nat, y: nat)
    requires bbs != [] && Distinct(bbs) && IsUnrolling(f, f', LoopOf(bbs), k, copies, orig) && TopOrder(f, bbs)
    requires q < |bbs| && 0 < j < |copies[bbs[q]]|
    ensures
      var clone, x := Renamed(phi, Names(bbs, copies, q, j)), copies[bbs[q]][j];
      && (y < |f'| && Edge(f', y, x) ==> ((v, y) in clone <==> (v, orig[y].0) in phi))
      && ((v, y) in clone ==> y < |f'| && (Edge(f', y, x) <==> Edge(f, orig[y].0, bbs[q])))
  {
    var names, x := Names(bbs, copies, q, j), copies[bbs[q]][j];
    KeptIff(phi, names, |phi|, v, y);
    if m :| 0 <= m < |phi| && KeptAs(phi, names, m, v, y) {
      var i :| 0 <= i < |bbs| && bbs[i] == phi[m].1;
      EntersFrom(f, f', bbs, k, copies, orig, q, j, i);
      assert phi[m] == (v, orig[y].0);
    }
    if y < |f'| && Edge(f', y, x) {
      EdgeFrom(f, f', bbs, k, copies, orig, q, j, y);
      if (v, orig[y].0) in phi {
        var m :| 0 <= m < |phi| && phi[m] == (v, orig[y].0);
        assert KeptAs(phi, names, m, v, y);
      }
    }
  }

  /** An edge into a clone comes from the copy that `Names` picks. */
  lemma EdgeFrom(f: Fn, f': Fn, bbs: seq<nat>, k: nat, copies: Copies, orig: Origin, q: nat, j: nat, y: nat)
    requires bbs != [] && Distinct(bbs) && IsUnrolling(f, f', LoopOf(bbs), k, copies, orig) && TopOrder(f, bbs)
    requires q < |bbs| && 0 < j < |copies[bbs[q]]| && y < |f'| && Edge(f', y, copies[bbs[q]][j])
    ensures orig[y].0 in bbs && y == Names(bbs, copies, q, j)[orig[y].0]
  {
    var l, x := LoopOf(bbs), copies[bbs[q]][j];
    assert bbs[q] in l.blocks && orig[x] == (bbs[q], j);
    EdgeProjects(f, f', l, k, copies, orig, y, x);
    PlaceOf(f, f', l, k, copies, orig, y);
    var i :| 0 <= i < |bbs| && bbs[i] == orig[y].0;
    Position(bbs, q, i);
  }

  /** A phi is left without entries, and then removed, exactly if it had none from the loop. */
  lemma EmptiedIff(phi: Phi, names: map<nat, nat>)
    ensures Renamed(phi, names) == [] <==> forall m :: 0 <= m < |phi| ==> phi[m].1 !in names
  {
    if e :| e in Renamed(phi, names) {
      KeptIff(phi, names, |phi|, e.0, e.1);
    }
    forall m | 0 <= m < |phi| && phi[m].1 in names
      ensures Renamed(phi, names) != []
    {
      KeptIff(phi, names, |phi|, phi[m].0, names[phi[m].1]);
      assert KeptAs(phi, names, m, phi[m].0, names[phi[m].1]);
    }
    if Renamed(phi, names) != [] {
      assert Renamed(phi, names)[0] in Renamed(phi, names);
    }
  }
}
