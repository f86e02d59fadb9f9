/** Resolving a physical pointer to a block: the `phy_ptr` step of
    `Pointer::isDereferenceable` and `findLogicalLocalPointer`. */
module PhysicalPointers {
  import opened Exprs

  /** A block an address may belong to: where it is, and whether it may be accessed
      and, if local, has had its address observed. */
  datatype Cand = Cand(isLocal: bool, bid: nat, addr: nat, size: nat, usable: bool, observed: bool)

  /** What is syntactically known in one query: the length is the block's size
      expression, it is a larger literal, the bounds check is literally false, the
      test for the block is a literal. */
  datatype Known = Known(sameSize: bool, tooLong: bool, outside: bool, literal: bool)

  datatype Logical = Logical(isLocal: bool, bid: nat, off: int)

  /** `isInboundsOf`, for addresses below `limit`. */
  predicate InboundsOf(c: Cand, k: Known, addr: nat, bytes: nat, limit: nat) {
    if k.sameSize then addr == c.addr
    else !k.tooLong && c.addr <= addr && addr + bytes < limit && addr + bytes <= c.addr + c.size
  }

  /** `isOfBlock`; whether the block is alive plays no part. */
  predicate OfBlock(c: Cand, k: Known, addr: nat, bytes: nat) {
    if k.sameSize then addr == c.addr
    else !k.tooLong && c.addr <= addr < c.addr + c.size
  }

  /** What is known is true, and blocks end below the limit. */
  ghost predicate KnownOk(c: Cand, k: Known, addr: nat, bytes: nat, limit: nat) {
    && (k.sameSize ==> bytes == c.size) && (k.tooLong ==> bytes > c.size)
    && (k.outside ==> !(InboundsOf(c, k, addr, bytes, limit) && c.usable))
    && c.addr + c.size < limit
  }

  ghost predicate QueryOk(cs: seq<Cand>, ks: seq<Known>, addr: nat, bytes: nat, limit: nat) {
    |ks| == |cs| && forall i {:trigger KnownOk(cs[i], ks[i], addr, bytes, limit)} :: 0 <= i < |cs| ==> KnownOk(cs[i], ks[i], addr, bytes, limit)
  }

  /** A local block whose address was never observed is not considered. */
  predicate Considered(c: Cand) { c.isLocal ==> c.observed }

  /** The blocks that are considered do not overlap, whether alive or not. */
  ghost predicate Disjoint(cs: seq<Cand>) {
    forall i, j :: 0 <= i < j < |cs| && Considered(cs[i]) && Considered(cs[j]) ==>
      cs[i].addr + cs[i].size <= cs[j].addr || cs[j].addr + cs[j].size <= cs[i].addr
  }

  predicate Within(c: Cand, addr: int) { c.addr <= addr < c.addr + c.size }

  /** Entry `i` is the only considered block that contains the address. */
  ghost predicate OnlyOwner(cs: seq<Cand>, i: nat, addr: nat)
    requires i < |cs|
  {
    && Considered(cs[i]) && Within(cs[i], addr)
    && forall j :: 0 <= j < |cs| && Considered(cs[j]) && Within(cs[j], addr) ==> j == i
  }

  lemma OwnerIsOnly(cs: seq<Cand>, i: nat, addr: nat)
    requires Disjoint(cs) && i < |cs| && Considered(cs[i]) && Within(cs[i], addr)
    ensures OnlyOwner(cs, i, addr)
  {
  }

  /** The block allows the access. */
  predicate Allows(c: Cand, addr: nat, bytes: nat) {
    c.usable && c.addr <= addr && addr + bytes <= c.addr + c.size
  }

  /** The physical address is dereferenceable for `bytes` bytes. */
  ghost predicate Deref(cs: seq<Cand>, ks: seq<Known>, addr: nat, bytes: nat, limit: nat, n: nat)
    requires |ks| == |cs| && n <= |cs|
  {
    exists i :: 0 <= i < n && Considered(cs[i]) && InboundsOf(cs[i], ks[i], addr, bytes, limit) && cs[i].usable
  }

  /** It is so exactly if some considered block allows the access, whatever is known. */
  lemma DerefIff(cs: seq<Cand>, ks: seq<Known>, addr: nat, bytes: nat, limit: nat)
    requires QueryOk(cs, ks, addr, bytes, limit)
    ensures Deref(cs, ks, addr, bytes, limit, |cs|) <==> exists i :: 0 <= i < |cs| && Considered(cs[i]) && Allows(cs[i], addr, bytes)
  {
    forall i | 0 <= i < |cs|
      ensures InboundsOf(cs[i], ks[i], addr, bytes, limit) && cs[i].usable <==> Allows(cs[i], addr, bytes)
    {
      assert KnownOk(cs[i], ks[i], addr, bytes, limit);
    }
  }

  // ---------------------------------------------------------------------
  // Merging in the order of expressions
  // ---------------------------------------------------------------------

  /** The candidates that are stored, by their tests; the test of a candidate that is
      skipped is literally false. An entry stands for an expression of its candidate. */
  function Entries(on: seq<Cond>, n: nat): (xs: seq<Guarded<nat>>)
    requires n <= |on|
    ensures forall x :: x in xs ==> x.v < n
  {
    if n == 0 then [] else Add(Entries(on, n - 1), n - 1, on[n - 1])
  }

  /** The merge may take candidate `i`: its test holds, and it is the last one whose
      test is literally true, if there is any. */
  ghost predicate Chosen(on: seq<Cond>, n: nat, i: nat)
    requires n <= |on|
  {
    i < n && on[i].val && forall j :: 0 <= j < n && on[j].IsTrue() ==> on[i].known && j <= i
  }

  ghost predicate LiteralBelow(on: seq<Cond>, n: nat)
    requires n <= |on|
  {
    exists j :: 0 <= j < n && on[j].IsTrue()
  }

  lemma ChosenNext(on: seq<Cond>, n: nat, i: nat)
    requires n < |on|
    ensures Chosen(on, n + 1, i) <==>
      if on[n].IsTrue() then i == n else Chosen(on, n, i) || (on[n].val && i == n && !LiteralBelow(on, n))
  {
  }

  lemma {:induction false} EntriesPick(on: seq<Cond>, n: nat, i: nat)
    requires n <= |on|
    ensures Picks(Entries(on, n), i) <==> Chosen(on, n, i)
  {
    if n > 0 {
      EntriesPick(on, n - 1, i);
      EntriesLiteral(on, n - 1);
      AddPicks(Entries(on, n - 1), n - 1, on[n - 1], i);
      ChosenNext(on, n - 1, i);
    }
  }

  lemma {:induction false} EntriesLiteral(on: seq<Cond>, n: nat)
    requires n <= |on|
    ensures AnyLiteral(Entries(on, n)) <==> LiteralBelow(on, n)
  {
    if n > 0 {
      EntriesLiteral(on, n - 1);
      AddPicks(Entries(on, n - 1), n - 1, on[n - 1], 0);
    }
  }

  lemma {:induction false} EntriesSome(on: seq<Cond>, n: nat)
    requires n <= |on|
    ensures SomeOn(Entries(on, n)) <==> exists j :: 0 <= j < n && on[j].val
  {
    if n > 0 {
      EntriesSome(on, n - 1);
      AddSome(Entries(on, n - 1), n - 1, on[n - 1]);
    }
  }

  /** Some order of the entries ends in `i`. */
  ghost predicate Merges(xs: seq<Guarded<nat>>, i: nat) {
    exists ys: seq<Guarded<nat>> :: Reordered(xs, ys) && ys != [] && Mk<nat>(ys) == i
  }

  ghost predicate SomeVal(on: seq<Cond>) {
    exists j :: 0 <= j < |on| && on[j].val
  }

  lemma {:induction false} MergesIff(on: seq<Cond>, i: nat)
    requires SomeVal(on)
    ensures Merges(Entries(on, |on|), i) <==> Chosen(on, |on|, i)
  {
    EntriesPick(on, |on|, i);
    EntriesSome(on, |on|);
    PicksIff(Entries(on, |on|), i);
  }

  /** The loop over a map: entries come in the order of their expressions, which may
      be any. */
  method Merge(xs: seq<Guarded<nat>>) returns (v: nat)
    requires xs != []
    ensures Merges(xs, v)
  {
    var rest, first := xs, true;
    ghost var ys := [];
    v := 0;
    while rest != []
      invariant multiset(ys) + multiset(rest) == multiset(xs) && !AnyLiteral(ys)
      invariant (first <==> ys == []) && (!first ==> v == Mk(ys))
      decreases |rest|
    {
      var k: nat :| k < |rest|;
      var x := rest[k];
      TakeOne(rest, k);
      rest := rest[..k] + rest[k + 1..];
      if x.on.IsTrue() {
        v := x.v;
        LiteralEnds(ys, x, rest);
        MergedBy(xs, ys + [x] + rest, v);
        return;
      }
      MergeNext(ys, x);
      v, first := if first || x.on.val then x.v else v, false;
      ys := ys + [x];
    }
    SameSize(xs, ys);
    MergedBy(xs, ys, v);
  }

  lemma TakeOne(rest: seq<Guarded<nat>>, k: nat)
    requires k < |rest|
    ensures multiset(rest) == multiset([rest[k]]) + multiset(rest[..k] + rest[k + 1..])
  {
    assert rest == rest[..k] + [rest[k]] + rest[k + 1..];
  }

  lemma MergeNext(ys: seq<Guarded<nat>>, x: Guarded<nat>)
    requires !AnyLiteral(ys) && !x.on.IsTrue()
    ensures Mk(ys + [x]) == if ys == [] || x.on.val then x.v else Mk(ys)
    ensures !AnyLiteral(ys + [x])
  {
    assert (ys + [x])[..|ys|] == ys && forall j :: 0 <= j < |ys| ==> (ys + [x])[j] == ys[j];
  }

  lemma SameSize(xs: seq<Guarded<nat>>, ys: seq<Guarded<nat>>)
    requires multiset(ys) + multiset([]) == multiset(xs)
    ensures Reordered(xs, ys) && |xs| == |ys|
  {
    assert |multiset(xs)| == |xs| && |multiset(ys)| == |ys|;
  }

  lemma MergedBy(xs: seq<Guarded<nat>>, ys: seq<Guarded<nat>>, v: nat)
    requires Reordered(xs, ys) && ys != [] && Mk<nat>(ys) == v
    ensures Merges(xs, v)
  {
  }

  lemma {:induction false} LiteralEnds(ys: seq<Guarded<nat>>, x: Guarded<nat>, rest: seq<Guarded<nat>>)
    requires x.on.IsTrue() && !AnyLiteral(ys)
    ensures Mk(ys + [x] + rest) == x.v
  {
    var all := ys + [x] + rest;
    var n := |all| - 1;
    assert all[|ys|] == x;
    if rest == [] {
      assert all[..n] == ys;
    } else {
      assert all[..n] == ys + [x] + rest[..|rest| - 1];
      assert all[..n][|ys|].on.IsTrue();
      LiteralEnds(ys, x, rest[..|rest| - 1]);
    }
  }

  // ---------------------------------------------------------------------
  // The loop over the candidates
  // ---------------------------------------------------------------------

  /** Block `i` is considered, not skipped, and the address belongs to it. */
  predicate Claims(cs: seq<Cand>, ks: seq<Known>, addr: nat, bytes: nat, i: nat)
    requires |ks| == |cs| && i < |cs|
  {
    Considered(cs[i]) && !ks[i].outside && OfBlock(cs[i], ks[i], addr, bytes)
  }

  /** The test that decides whether block `i` is chosen. */
  function Tests(cs: seq<Cand>, ks: seq<Known>, addr: nat, bytes: nat): seq<Cond>
    requires |ks| == |cs|
  {
    seq(|cs|, i requires 0 <= i < |cs| =>
      if !Considered(cs[i]) || ks[i].outside then FALSE
      else Cond(OfBlock(cs[i], ks[i], addr, bytes), ks[i].literal))
  }

  /** All entries that are not skipped have the length as their size expression. */
  predicate AllSame(cs: seq<Cand>, ks: seq<Known>, n: nat)
    requires |ks| == |cs| && n <= |cs|
  {
    forall i :: 0 <= i < n && Considered(cs[i]) && !ks[i].outside ==> ks[i].sameSize
  }

  /** The logical pointer with the id of block `i` and the offset from block `j`. */
  function PointerTo(cs: seq<Cand>, ks: seq<Known>, addr: nat, i: nat, j: nat): Logical
    requires |ks| == |cs| && i < |cs| && j < |cs|
  {
    Logical(cs[i].isLocal, cs[i].bid, if AllSame(cs, ks, |cs|) then 0 else addr - cs[j].addr)
  }

  /** What the address may resolve to: ids and addresses are kept in two maps, each in
      an order of its own. */
  ghost predicate MayResolve(cs: seq<Cand>, ks: seq<Known>, addr: nat, bytes: nat, p: Logical)
    requires |ks| == |cs|
  {
    var xs := Entries(Tests(cs, ks, addr, bytes), |cs|);
    if xs == [] then p == Logical(false, 0, if AllSame(cs, ks, |cs|) then 0 else addr)
    else FromEntries(cs, ks, xs, addr, p)
  }

  /** The id comes from one entry that the merge may take, and the offset from another. */
  ghost predicate FromEntries(cs: seq<Cand>, ks: seq<Known>, xs: seq<Guarded<nat>>, addr: nat, p: Logical)
    requires |ks| == |cs|
  {
    exists i: nat, j: nat :: i < |cs| && j < |cs| && Merges(xs, i) && Merges(xs, j) && p == PointerTo(cs, ks, addr, i, j)
  }

  lemma {:induction false} MergedBelow(xs: seq<Guarded<nat>>, n: nat, i: nat)
    requires Merges(xs, i) && forall x :: x in xs ==> x.v < n
    ensures i < n
  {
    var ys: seq<Guarded<nat>> :| Reordered(xs, ys) && ys != [] && Mk<nat>(ys) == i;
    SameEntries(xs, ys);
    MkIsEntry(ys);
  }

  lemma {:induction false} MkIsEntry(ys: seq<Guarded<nat>>)
    requires ys != []
    ensures exists x :: x in ys && x.v == Mk(ys)
  {
    var n := |ys| - 1;
    if n == 0 || (ys[n].on.val && !AnyLiteral(ys[..n])) {
      assert ys[n] in ys;
    } else {
      MkIsEntry(ys[..n]);
      var x :| x in ys[..n] && x.v == Mk(ys[..n]);
      assert x in ys;
    }
  }

  lemma RankUnique(cs: seq<Cand>, ks: seq<Known>, i: nat, j: nat)
    requires |ks| == |cs| && i < |cs| && j < |cs|
    requires !(cs[i].isLocal && !cs[i].observed) && !(cs[j].isLocal && !cs[j].observed)
    ensures |Seen(cs, i)| == |Seen(cs, j)| <==> i == j
  {
    if i < j { SeenAt(cs, ks, j, i); }
    if j < i { SeenAt(cs, ks, i, j); }
  }

  lemma {:induction false} SeenAllSame(cs: seq<Cand>, ks: seq<Known>, n: nat)
    requires n <= |cs| == |ks|
    ensures AllSame(Seen(cs, n), SeenKnown(cs, ks, n), |Seen(cs, n)|) <==> AllSame(cs, ks, n)
  {
    if n > 0 {
      SeenAllSame(cs, ks, n - 1);
      var ds, ls, m := Seen(cs, n), SeenKnown(cs, ks, n), |Seen(cs, n - 1)|;
      AllSameNext(cs, ks, n - 1);
      if !(cs[n - 1].isLocal && !cs[n - 1].observed) {
        AllSamePrefix(ds, ls, m);
        assert ds[..m] == Seen(cs, n - 1) && ls[..m] == SeenKnown(cs, ks, n - 1);
        assert |ds| == m + 1 && ds[m] == cs[n - 1] && ls[m] == ks[n - 1];
        AllSameNext(ds, ls, m);
      } else {
        assert ds == Seen(cs, n - 1) && ls == SeenKnown(cs, ks, n - 1);
      }
    }
  }

  lemma AllSameNext(cs: seq<Cand>, ks: seq<Known>, n: nat)
    requires |ks| == |cs| && n < |cs|
    ensures AllSame(cs, ks, n + 1) <==> AllSame(cs, ks, n) && (Considered(cs[n]) && !ks[n].outside ==> ks[n].sameSize)
  {
  }

  lemma AllSamePrefix(cs: seq<Cand>, ks: seq<Known>, n: nat)
    requires |ks| == |cs| && n <= |cs|
    ensures AllSame(cs, ks, n) <==> AllSame(cs[..n], ks[..n], n)
  {
    assert forall k :: 0 <= k < n ==> cs[..n][k] == cs[k] && ks[..n][k] == ks[k];
  }

  lemma SeenPointer(cs: seq<Cand>, ks: seq<Known>, addr: nat, i: nat, j: nat)
    requires |ks| == |cs| && i < |cs| && j < |cs|
    requires !(cs[i].isLocal && !cs[i].observed) && !(cs[j].isLocal && !cs[j].observed)
    ensures |Seen(cs, i)| < |Seen(cs, |cs|)| && |Seen(cs, j)| < |Seen(cs, |cs|)|
    ensures PointerTo(cs, ks, addr, i, j) == PointerTo(Seen(cs, |cs|), SeenKnown(cs, ks, |cs|), addr, |Seen(cs, i)|, |Seen(cs, j)|)
  {
    SeenAt(cs, ks, |cs|, i);
    SeenAt(cs, ks, |cs|, j);
    SeenAllSame(cs, ks, |cs|);
  }

  lemma {:induction false} SeenMergesAll(cs: seq<Cand>, ks: seq<Known>, xs: seq<Guarded<nat>>, ys: seq<Guarded<nat>>, i: nat)
    requires |ks| == |cs| && SameMerge(cs, xs, ys) && i < |cs|
    ensures Merges(xs, i) ==> !(cs[i].isLocal && !cs[i].observed) && Merges(ys, |Seen(cs, i)|)
    ensures !(cs[i].isLocal && !cs[i].observed) && Merges(ys, |Seen(cs, i)|) ==> Merges(xs, i)
  {
    if Merges(xs, i) { MergesEither(xs, i); }
    if !(cs[i].isLocal && !cs[i].observed) {
      forall k | 0 <= k < |xs| && |Seen(cs, xs[k].v)| == |Seen(cs, i)| ensures xs[k].v == i { RankUnique(cs, ks, xs[k].v, i); }
      SeenMerges(cs, xs, ys, i);
    }
  }

  lemma {:induction false} SeenForward(cs: seq<Cand>, ks: seq<Known>, addr: nat, xs: seq<Guarded<nat>>, ys: seq<Guarded<nat>>, p: Logical)
    requires |ks| == |cs| && SameMerge(cs, xs, ys) && FromEntries(cs, ks, xs, addr, p)
    ensures FromEntries(Seen(cs, |cs|), SeenKnown(cs, ks, |cs|), ys, addr, p)
  {
    var i: nat, j: nat :| i < |cs| && j < |cs| && Merges(xs, i) && Merges(xs, j) && p == PointerTo(cs, ks, addr, i, j);
    SeenMergesAll(cs, ks, xs, ys, i);
    SeenMergesAll(cs, ks, xs, ys, j);
    SeenPointer(cs, ks, addr, i, j);
  }

  lemma {:induction false} SeenBackward(cs: seq<Cand>, ks: seq<Known>, addr: nat, xs: seq<Guarded<nat>>, ys: seq<Guarded<nat>>, p: Logical)
    requires |ks| == |cs| && SameMerge(cs, xs, ys) && FromEntries(Seen(cs, |cs|), SeenKnown(cs, ks, |cs|), ys, addr, p)
    ensures FromEntries(cs, ks, xs, addr, p)
  {
    var ds, ls := Seen(cs, |cs|), SeenKnown(cs, ks, |cs|);
    var a: nat, b: nat :| a < |ds| && b < |ds| && Merges(ys, a) && Merges(ys, b) && p == PointerTo(ds, ls, addr, a, b);
    var i := SeenFrom(cs, ks, |cs|, a);
    var j := SeenFrom(cs, ks, |cs|, b);
    SeenMergesAll(cs, ks, xs, ys, i);
    SeenMergesAll(cs, ks, xs, ys, j);
    SeenPointer(cs, ks, addr, i, j);
  }

  /** Local blocks that were never observed do not matter: the address may resolve to
      what it may resolve to among the other candidates. */
  lemma {:induction false} UnobservedIgnored(cs: seq<Cand>, ks: seq<Known>, addr: nat, bytes: nat, p: Logical)
    requires |ks| == |cs|
    ensures MayResolve(cs, ks, addr, bytes, p) <==> MayResolve(Seen(cs, |cs|), SeenKnown(cs, ks, |cs|), addr, bytes, p)
  {
    var ds, ls := Seen(cs, |cs|), SeenKnown(cs, ks, |cs|);
    var on, on' := Tests(cs, ks, addr, bytes), Tests(ds, ls, addr, bytes);
    var xs, ys := Entries(on, |cs|), Entries(on', |ds|);
    TestsSeen(cs, ks, addr, bytes, on, on');
    SeenEntries(cs, on, on', |cs|);
    SeenAllSame(cs, ks, |cs|);
    if FromEntries(cs, ks, xs, addr, p) { SeenForward(cs, ks, addr, xs, ys, p); }
    if FromEntries(ds, ls, ys, addr, p) { SeenBackward(cs, ks, addr, xs, ys, p); }
  }

  lemma {:induction false} NoneSeen(cs: seq<Cand>, ks: seq<Known>, addr: nat, bytes: nat, n: nat)
    requires n <= |cs| == |ks| && forall i :: 0 <= i < n ==> cs[i].isLocal && !cs[i].observed
    ensures Seen(cs, n) == []
  {
    if n > 0 { NoneSeen(cs, ks, addr, bytes, n - 1); }
  }

  /** Among local blocks that were never observed alone, an address is in none. */
  lemma {:induction false} AllUnobserved(cs: seq<Cand>, ks: seq<Known>, addr: nat, bytes: nat, p: Logical)
    requires |ks| == |cs| && forall i :: 0 <= i < |cs| ==> cs[i].isLocal && !cs[i].observed
    ensures MayResolve(cs, ks, addr, bytes, p) <==> p == Logical(false, 0, 0)
  {
    UnobservedIgnored(cs, ks, addr, bytes, p);
    NoneSeen(cs, ks, addr, bytes, |cs|);
    assert Entries(Tests([], [], addr, bytes), 0) == [];
  }

  /** `phy_ptr`: whether some block allows the access, and the logical pointer into the
      block the address is taken to belong to. */
  method PhyPtr(cs: seq<Cand>, ks: seq<Known>, addr: nat, bytes: nat, limit: nat) returns (ub: bool, p: Logical)
    requires QueryOk(cs, ks, addr, bytes, limit)
    ensures ub <==> exists i :: 0 <= i < |cs| && (cs[i].isLocal ==> cs[i].observed) && cs[i].usable
                                && cs[i].addr <= addr && addr + bytes <= cs[i].addr + cs[i].size
    ensures MayResolve(cs, ks, addr, bytes, p)
  {
    ghost var on := Tests(cs, ks, addr, bytes);
    var bids: seq<Guarded<nat>>, addrs: seq<Guarded<nat>> := [], [];
    var allSame := true;
    ub := false;
    for i := 0 to |cs|
      invariant ub <==> Deref(cs, ks, addr, bytes, limit, i)
      invariant allSame == AllSame(cs, ks, i)
      invariant bids == Entries(on, i) && addrs == Entries(on, i)
    {
      assert KnownOk(cs[i], ks[i], addr, bytes, limit);
      if Considered(cs[i]) && !ks[i].outside {
        var here := Cond(OfBlock(cs[i], ks[i], addr, bytes), ks[i].literal);
        ub := ub || (InboundsOf(cs[i], ks[i], addr, bytes, limit) && cs[i].usable);
        allSame := allSame && ks[i].sameSize;
        bids := Add(bids, i, here);
        addrs := Add(addrs, i, here);
      }
    }
    DerefIff(cs, ks, addr, bytes, limit);
    if bids == [] {
      p := Logical(false, 0, if allSame then 0 else addr);
    } else {
      var bid := Merge(bids);
      var base := Merge(addrs);
      MergedBelow(bids, |cs|, bid);
      MergedBelow(addrs, |cs|, base);
      p := Logical(cs[bid].isLocal, cs[bid].bid, if allSame then 0 else addr - cs[base].addr);
      assert p == PointerTo(cs, ks, addr, bid, base);
    }
  }

  // ---------------------------------------------------------------------
  // Blocks that are not considered
  // ---------------------------------------------------------------------

  /** The first `n` candidates without the local blocks that were never observed. */
  function Seen(cs: seq<Cand>, n: nat): seq<Cand>
    requires n <= |cs|
  {
    if n == 0 then []
    else Seen(cs, n - 1) + (if cs[n - 1].isLocal && !cs[n - 1].observed then [] else [cs[n - 1]])
  }

  function SeenKnown(cs: seq<Cand>, ks: seq<Known>, n: nat): (r: seq<Known>)
    requires n <= |cs| == |ks|
    ensures |r| == |Seen(cs, n)|
  {
    if n == 0 then []
    else SeenKnown(cs, ks, n - 1) + (if cs[n - 1].isLocal && !cs[n - 1].observed then [] else [ks[n - 1]])
  }

  lemma {:induction false} SeenAt(cs: seq<Cand>, ks: seq<Known>, n: nat, i: nat)
    requires i < n <= |cs| == |ks| && !(cs[i].isLocal && !cs[i].observed)
    ensures |Seen(cs, i)| < |Seen(cs, n)| && Seen(cs, n)[|Seen(cs, i)|] == cs[i] && SeenKnown(cs, ks, n)[|Seen(cs, i)|] == ks[i]
  {
    if i < n - 1 { SeenAt(cs, ks, n - 1, i); }
  }

  lemma {:induction false} SeenFrom(cs: seq<Cand>, ks: seq<Known>, n: nat, j: nat) returns (i: nat)
    requires n <= |cs| == |ks| && j < |Seen(cs, n)|
    ensures i < n && !(cs[i].isLocal && !cs[i].observed) && |Seen(cs, i)| == j
  {
    if j == |Seen(cs, n - 1)| && !(cs[n - 1].isLocal && !cs[n - 1].observed) { i := n - 1; } else { i := SeenFrom(cs, ks, n - 1, j); }
  }

  /** The tests `on'` are those of `on` for the candidates that were seen, and the others are never true. */
  ghost predicate SeenTests(cs: seq<Cand>, on: seq<Cond>, on': seq<Cond>) {
    && |on| == |cs|
    && forall i :: 0 <= i < |cs| ==>
      if cs[i].isLocal && !cs[i].observed then on[i] == FALSE
      else |Seen(cs, i)| < |on'| && on'[|Seen(cs, i)|] == on[i]
  }

  lemma TestsSeen(cs: seq<Cand>, ks: seq<Known>, addr: nat, bytes: nat, on: seq<Cond>, on': seq<Cond>)
    requires |ks| == |cs| && on == Tests(cs, ks, addr, bytes)
    requires on' == Tests(Seen(cs, |cs|), SeenKnown(cs, ks, |cs|), addr, bytes)
    ensures SeenTests(cs, on, on')
  {
    forall i | 0 <= i < |cs|
      ensures if cs[i].isLocal && !cs[i].observed then on[i] == FALSE
              else |Seen(cs, i)| < |on'| && on'[|Seen(cs, i)|] == on[i]
    {
      if !(cs[i].isLocal && !cs[i].observed) {
        SeenAt(cs, ks, |cs|, i);
        SameTest(cs, ks, Seen(cs, |cs|), SeenKnown(cs, ks, |cs|), addr, bytes, i, |Seen(cs, i)|);
      }
    }
  }

  lemma SameTest(cs: seq<Cand>, ks: seq<Known>, ds: seq<Cand>, ls: seq<Known>, addr: nat, bytes: nat, i: nat, j: nat)
    requires |ks| == |cs| && |ls| == |ds| && i < |cs| && j < |ds| && ds[j] == cs[i] && ls[j] == ks[i]
    ensures Tests(ds, ls, addr, bytes)[j] == Tests(cs, ks, addr, bytes)[i]
  {
  }

  /** The entries that are merged are those of the candidates that were seen. */
  lemma {:induction false} SeenEntries(cs: seq<Cand>, on: seq<Cond>, on': seq<Cond>, n: nat)
    requires n <= |cs| && SeenTests(cs, on, on')
    ensures |Seen(cs, n)| <= |on'|
    ensures SameMerge(cs, Entries(on, n), Entries(on', |Seen(cs, n)|))
  {
    if n > 0 {
      SeenEntries(cs, on, on', n - 1);
      var m := |Seen(cs, n - 1)|;
      if cs[n - 1].isLocal && !cs[n - 1].observed {
        assert Entries(on, n) == Entries(on, n - 1);
      } else {
        assert Entries(on', m + 1) == Add(Entries(on', m), m, on[n - 1]);
        SameMergeNext(cs, Entries(on, n - 1), Entries(on', m), n - 1, on[n - 1]);
      }
    }
  }

  lemma SameMergeNext(cs: seq<Cand>, xs: seq<Guarded<nat>>, ys: seq<Guarded<nat>>, n: nat, c: Cond)
    requires SameMerge(cs, xs, ys) && n < |cs| && !(cs[n].isLocal && !cs[n].observed)
    ensures SameMerge(cs, Add(xs, n, c), Add(ys, |Seen(cs, n)|, c))
  {
  }

  /** The same entries, each numbered by its place among the candidates that were seen. */
  ghost predicate SameMerge(cs: seq<Cand>, xs: seq<Guarded<nat>>, ys: seq<Guarded<nat>>) {
    && |xs| == |ys|
    && forall k :: 0 <= k < |xs| ==> xs[k].v < |cs| && !(cs[xs[k].v].isLocal && !cs[xs[k].v].observed)
                                     && ys[k] == Guarded(|Seen(cs, xs[k].v)|, xs[k].on)
  }

  lemma {:induction false} NoneOnFirst(ys: seq<Guarded<nat>>)
    requires ys != [] && !SomeOn(ys)
    ensures Mk(ys) == ys[0].v
  {
    var n := |ys| - 1;
    assert !ys[n].on.val;
    if n > 0 {
      assert forall k :: 0 <= k < n ==> ys[..n][k] == ys[k];
      NoneOnFirst(ys[..n]);
    }
  }

  /** What an order of the entries may give, without orders. */
  lemma {:induction false} MergesEither(xs: seq<Guarded<nat>>, i: nat)
    ensures Merges(xs, i) <==> if SomeOn(xs) then Picks(xs, i) else exists k :: 0 <= k < |xs| && xs[k].v == i
  {
    if SomeOn(xs) {
      PicksIff(xs, i);
    } else {
      if k: nat :| k < |xs| && xs[k].v == i {
        MovedIs(xs, k, 0);
        var ys := MovedTo(xs, k, 0);
        SameEntries(xs, ys);
        assert !SomeOn(ys);
        NoneOnFirst(ys);
        MergedBy(xs, ys, i);
      }
      if Merges(xs, i) {
        var ys: seq<Guarded<nat>> :| Reordered(xs, ys) && ys != [] && Mk<nat>(ys) == i;
        SameEntries(xs, ys);
        MkIsEntry(ys);
        var x :| x in ys && x.v == Mk(ys);
        assert x in xs;
      }
    }
  }

  lemma {:induction false} SeenMerges(cs: seq<Cand>, xs: seq<Guarded<nat>>, ys: seq<Guarded<nat>>, i: nat)
    requires SameMerge(cs, xs, ys) && i < |cs| && !(cs[i].isLocal && !cs[i].observed)
    requires forall k :: 0 <= k < |xs| && |Seen(cs, xs[k].v)| == |Seen(cs, i)| ==> xs[k].v == i
    ensures Merges(xs, i) <==> Merges(ys, |Seen(cs, i)|)
  {
    MergesEither(xs, i);
    MergesEither(ys, |Seen(cs, i)|);
    assert forall k :: 0 <= k < |xs| ==> xs[k].on == ys[k].on;
    assert AnyLiteral(xs) <==> AnyLiteral(ys);
    assert SomeOn(xs) <==> SomeOn(ys);
    assert forall k :: 0 <= k < |xs| ==> (xs[k].v == i <==> ys[k].v == |Seen(cs, i)|);
  }

  // ---------------------------------------------------------------------
  // When the result is right
  // ---------------------------------------------------------------------

  /** The pointer is to the addressed byte of a block that allows the access. */
  ghost predicate Right(cs: seq<Cand>, addr: nat, bytes: nat, p: Logical) {
    exists i :: 0 <= i < |cs| && Considered(cs[i]) && Allows(cs[i], addr, bytes)
                && p == Logical(cs[i].isLocal, cs[i].bid, addr - cs[i].addr)
  }

  ghost predicate UniqueIds(cs: seq<Cand>) {
    forall i, j :: 0 <= i < j < |cs| ==> cs[i].isLocal != cs[j].isLocal || cs[i].bid != cs[j].bid
  }

  /** A block that allows the access claims the address. */
  lemma AllowsClaims(cs: seq<Cand>, ks: seq<Known>, addr: nat, bytes: nat, limit: nat, i: nat)
    requires QueryOk(cs, ks, addr, bytes, limit) && bytes > 0 && i < |cs| && Considered(cs[i]) && Allows(cs[i], addr, bytes)
    ensures Claims(cs, ks, addr, bytes, i)
  {
    assert KnownOk(cs[i], ks[i], addr, bytes, limit);
  }

  /** If some block claims the address, the id may come from any candidate the merge
      may take, and the offset, independently, from any other one. */
  lemma {:induction false} ResolveIff(cs: seq<Cand>, ks: seq<Known>, addr: nat, bytes: nat, p: Logical)
    requires |ks| == |cs| && exists i :: 0 <= i < |cs| && Claims(cs, ks, addr, bytes, i)
    ensures MayResolve(cs, ks, addr, bytes, p) <==>
      exists i: nat, j: nat :: Chosen(Tests(cs, ks, addr, bytes), |cs|, i) && Chosen(Tests(cs, ks, addr, bytes), |cs|, j)
                               && p == PointerTo(cs, ks, addr, i, j)
  {
    var on := Tests(cs, ks, addr, bytes);
    var k :| 0 <= k < |cs| && Claims(cs, ks, addr, bytes, k);
    assert on[k].val && SomeVal(on);
    EntriesSome(on, |cs|);
    forall i: nat ensures Merges(Entries(on, |cs|), i) <==> Chosen(on, |cs|, i) { MergesIff(on, i); }
  }

  /** When the access is allowed at all, the result is right whatever the orders of the
      two maps exactly if all candidates the merge may take allow the access and
      begin at one address. */
  lemma {:induction false} EveryOrderIff(cs: seq<Cand>, ks: seq<Known>, addr: nat, bytes: nat, limit: nat)
    requires QueryOk(cs, ks, addr, bytes, limit) && bytes > 0 && UniqueIds(cs)
    requires exists i :: 0 <= i < |cs| && Considered(cs[i]) && Allows(cs[i], addr, bytes)
    ensures (forall p :: MayResolve(cs, ks, addr, bytes, p) ==> Right(cs, addr, bytes, p)) <==>
            (forall i: nat, j: nat :: Chosen(Tests(cs, ks, addr, bytes), |cs|, i) && Chosen(Tests(cs, ks, addr, bytes), |cs|, j) ==>
               Allows(cs[i], addr, bytes) && cs[i].addr == cs[j].addr)
  {
    var on := Tests(cs, ks, addr, bytes);
    var k :| 0 <= k < |cs| && Considered(cs[k]) && Allows(cs[k], addr, bytes);
    AllowsClaims(cs, ks, addr, bytes, limit, k);
    forall p ensures MayResolve(cs, ks, addr, bytes, p) <==>
        exists i: nat, j: nat :: Chosen(on, |cs|, i) && Chosen(on, |cs|, j) && p == PointerTo(cs, ks, addr, i, j)
    {
      ResolveIff(cs, ks, addr, bytes, p);
    }
    forall i: nat, j: nat | Chosen(on, |cs|, i) && Chosen(on, |cs|, j)
      ensures Right(cs, addr, bytes, PointerTo(cs, ks, addr, i, j)) <==> Allows(cs[i], addr, bytes) && cs[i].addr == cs[j].addr
      ensures MayResolve(cs, ks, addr, bytes, PointerTo(cs, ks, addr, i, j))
    {
      RightIff(cs, ks, addr, bytes, i, j);
    }
  }

  lemma RightIff(cs: seq<Cand>, ks: seq<Known>, addr: nat, bytes: nat, i: nat, j: nat)
    requires |ks| == |cs| && UniqueIds(cs) && i < |cs| && j < |cs|
    requires Claims(cs, ks, addr, bytes, i) && Claims(cs, ks, addr, bytes, j)
    ensures Right(cs, addr, bytes, PointerTo(cs, ks, addr, i, j)) <==> Allows(cs[i], addr, bytes) && cs[i].addr == cs[j].addr
  {
  }

  /** If one block alone claims the address, the result is in that block. */
  lemma {:induction false} SoleClaim(cs: seq<Cand>, ks: seq<Known>, addr: nat, bytes: nat, i: nat, p: Logical)
    requires |ks| == |cs| && i < |cs| && Claims(cs, ks, addr, bytes, i)
    requires forall j :: 0 <= j < |cs| && Claims(cs, ks, addr, bytes, j) ==> j == i
    ensures MayResolve(cs, ks, addr, bytes, p) <==> p == Logical(cs[i].isLocal, cs[i].bid, addr - cs[i].addr)
  {
    var on := Tests(cs, ks, addr, bytes);
    ResolveIff(cs, ks, addr, bytes, p);
    assert forall j: nat :: j < |cs| ==> (on[j].val <==> Claims(cs, ks, addr, bytes, j));
    assert forall j: nat :: Chosen(on, |cs|, j) <==> j == i;
    assert PointerTo(cs, ks, addr, i, i) == Logical(cs[i].isLocal, cs[i].bid, addr - cs[i].addr);
  }

  // ---------------------------------------------------------------------
  // Blocks that do not overlap
  // ---------------------------------------------------------------------

  /** Only the owner passes either test. */
  lemma InboundsOwner(cs: seq<Cand>, ks: seq<Known>, addr: nat, bytes: nat, limit: nat, owner: nat, i: nat)
    requires QueryOk(cs, ks, addr, bytes, limit) && bytes > 0 && owner < |cs| && OnlyOwner(cs, owner, addr) && i < |cs| && Considered(cs[i])
    ensures OfBlock(cs[i], ks[i], addr, bytes) ==> i == owner
    ensures InboundsOf(cs[i], ks[i], addr, bytes, limit) ==> OfBlock(cs[i], ks[i], addr, bytes)
  {
    assert KnownOk(cs[i], ks[i], addr, bytes, limit);
    assert OfBlock(cs[i], ks[i], addr, bytes) ==> Within(cs[i], addr);
  }

  lemma DerefOwner(cs: seq<Cand>, ks: seq<Known>, addr: nat, bytes: nat, limit: nat, owner: nat)
    requires QueryOk(cs, ks, addr, bytes, limit) && bytes > 0 && owner < |cs| && OnlyOwner(cs, owner, addr)
    ensures Deref(cs, ks, addr, bytes, limit, |cs|) <==> addr + bytes <= cs[owner].addr + cs[owner].size && cs[owner].usable
  {
    assert KnownOk(cs[owner], ks[owner], addr, bytes, limit);
    forall i: nat | i < |cs| && Considered(cs[i]) && InboundsOf(cs[i], ks[i], addr, bytes, limit)
      ensures i == owner
    {
      InboundsOwner(cs, ks, addr, bytes, limit, owner, i);
    }
  }

  /** `log_ptr`: a logical pointer is dereferenceable within its own block. */
  predicate LogicalDeref(c: Cand, off: int, bytes: nat) {
    off >= 0 && off + bytes <= c.size && c.usable
  }

  /** A logical pointer into a block turned into its address and back: among blocks that
      do not overlap the physical pointer resolves to the same block and offset, and
      it is dereferenceable for exactly the same lengths. */
  method RoundTrip(cs: seq<Cand>, ks: seq<Known>, i: nat, off: nat, bytes: nat, limit: nat) returns (ub: bool, p: Logical)
    requires i < |cs| && off < cs[i].size && Considered(cs[i]) && Disjoint(cs) && bytes > 0
    requires QueryOk(cs, ks, cs[i].addr + off, bytes, limit)
    ensures ub <==> LogicalDeref(cs[i], off, bytes)
    ensures ub ==> p == Logical(cs[i].isLocal, cs[i].bid, off)
  {
    var addr := cs[i].addr + off;
    OwnerIsOnly(cs, i, addr);
    ub, p := PhyPtr(cs, ks, addr, bytes, limit);
    DerefIff(cs, ks, addr, bytes, limit);
    DerefOwner(cs, ks, addr, bytes, limit, i);
    if ub {
      AllowsClaims(cs, ks, addr, bytes, limit, i);
      forall j: nat | j < |cs| && Claims(cs, ks, addr, bytes, j) ensures j == i { InboundsOwner(cs, ks, addr, bytes, limit, i, j); }
      SoleClaim(cs, ks, addr, bytes, i, p);
    }
  }

  /** Among blocks that do not overlap, a pointer one past the end of a block can be
      dereferenced exactly if a usable block starts there and is long enough. */
  lemma OnePastIff(cs: seq<Cand>, i: nat, bytes: nat)
    requires i < |cs| && Considered(cs[i]) && cs[i].size > 0 && Disjoint(cs) && bytes > 0
    ensures (exists j :: 0 <= j < |cs| && Considered(cs[j]) && Allows(cs[j], cs[i].addr + cs[i].size, bytes)) <==>
            (exists j :: 0 <= j < |cs| && Considered(cs[j]) && cs[j].usable
                         && cs[j].addr == cs[i].addr + cs[i].size && bytes <= cs[j].size)
  {
    var addr := cs[i].addr + cs[i].size;
    if j :| 0 <= j < |cs| && Considered(cs[j]) && Allows(cs[j], addr, bytes) {
      assert j != i;
      assert cs[j].addr == addr;
    }
    if j :| 0 <= j < |cs| && Considered(cs[j]) && cs[j].usable && cs[j].addr == addr && bytes <= cs[j].size {
      assert Allows(cs[j], addr, bytes);
    }
  }

  /** A neighbour makes it so, although the logical pointer cannot be dereferenced. */
  method OnePastResolvesElsewhere() returns (ub: bool, p: Logical)
    ensures ub && p == Logical(false, 2, 0)
    ensures !LogicalDeref(Cand(false, 1, 8, 4, true, true), 4, 1)
  {
    var cs := [Cand(false, 1, 8, 4, true, true), Cand(false, 2, 12, 4, true, true)];
    var ks := [UNKNOWN, UNKNOWN];
    assert forall i :: 0 <= i < |cs| ==> KnownOk(cs[i], ks[i], 12, 1, 100);
    assert Allows(cs[1], 12, 1);
    ub, p := PhyPtr(cs, ks, 12, 1, 100);
    SoleClaim(cs, ks, 12, 1, 1, p);
  }

  const UNKNOWN := Known(false, false, false, false)

  /** A dead block at the address of a live one is chosen if its test is a literal,
      although only the live one allowed the access: choosing does not look at
      liveness. */
  method DeadBlockChosen() returns (ub: bool, p: Logical)
    ensures ub && p == Logical(false, 2, 0)
    ensures Allows(Cand(false, 1, 8, 4, true, true), 8, 1) && !Allows(Cand(false, 2, 8, 4, false, true), 8, 1)
  {
    var cs := [Cand(false, 1, 8, 4, true, true), Cand(false, 2, 8, 4, false, true)];
    var ks := [UNKNOWN, Known(false, false, false, true)];
    assert forall i :: 0 <= i < |cs| ==> KnownOk(cs[i], ks[i], 8, 1, 100);
    assert Allows(cs[0], 8, 1);
    assert Claims(cs, ks, 8, 1, 1);
    ub, p := PhyPtr(cs, ks, 8, 1, 100);
    ResolveIff(cs, ks, 8, 1, p);
    var on := Tests(cs, ks, 8, 1);
    assert on[1].IsTrue();
    assert forall i: nat :: Chosen(on, 2, i) ==> i == 1;
  }

  /** A dead block that overlaps a live one: the id may come from the live block and
      the offset from the dead one, so that the pointer is to another byte. */
  lemma BaseOfAnother()
    ensures
      var cs := [Cand(false, 1, 8, 8, true, true), Cand(false, 2, 10, 4, false, true)];
      && Allows(cs[0], 11, 1) && QueryOk(cs, [UNKNOWN, UNKNOWN], 11, 1, 100)
      && MayResolve(cs, [UNKNOWN, UNKNOWN], 11, 1, Logical(false, 1, 1)) && !Right(cs, 11, 1, Logical(false, 1, 1))
  {
    var cs := [Cand(false, 1, 8, 8, true, true), Cand(false, 2, 10, 4, false, true)];
    var ks := [UNKNOWN, UNKNOWN];
    var on := Tests(cs, ks, 11, 1);
    assert forall i :: 0 <= i < |cs| ==> KnownOk(cs[i], ks[i], 11, 1, 100);
    assert Claims(cs, ks, 11, 1, 0) && Claims(cs, ks, 11, 1, 1);
    ResolveIff(cs, ks, 11, 1, Logical(false, 1, 1));
    assert Chosen(on, 2, 0) && Chosen(on, 2, 1);
    assert PointerTo(cs, ks, 11, 0, 1) == Logical(false, 1, 1) by { assert !AllSame(cs, ks, 2) by { assert !ks[0].sameSize; } }
  }

  /** An observed local block contains the address. */
  predicate ClaimsLocal(c: Cand, addr: nat) { c.isLocal && c.observed && Within(c, addr) }

  /** The tests of the local blocks; `lits` says which of them are literals. */
  function LocalTests(cs: seq<Cand>, lits: seq<bool>, addr: nat): seq<Cond>
    requires |lits| == |cs|
  {
    seq(|cs|, i requires 0 <= i < |cs| => if cs[i].isLocal && cs[i].observed then Cond(Within(cs[i], addr), lits[i]) else FALSE)
  }

  /** No local block was observed. */
  ghost predicate NoneObserved(cs: seq<Cand>) {
    forall i :: 0 <= i < |cs| ==> !(cs[i].isLocal && cs[i].observed)
  }

  lemma {:induction false} NoLocalEntries(cs: seq<Cand>, lits: seq<bool>, addr: nat, n: nat)
    requires n <= |cs| == |lits| && NoneObserved(cs)
    ensures Entries(LocalTests(cs, lits, addr), n) == []
  {
    if n > 0 { NoLocalEntries(cs, lits, addr, n - 1); }
  }

  /** `findLogicalLocalPointer`: an observed local block that contains the address, one
      the merge may take if they overlap, and the offset in it. */
  method FindLogicalLocal(cs: seq<Cand>, lits: seq<bool>, addr: nat) returns (p: Logical, found: bool)
    requires |lits| == |cs|
    ensures found <==> exists i :: 0 <= i < |cs| && ClaimsLocal(cs[i], addr)
    ensures found ==> exists i: nat :: Chosen(LocalTests(cs, lits, addr), |cs|, i) && p == Logical(true, cs[i].bid, addr - cs[i].addr)
    ensures Disjoint(cs) ==> forall i :: 0 <= i < |cs| && ClaimsLocal(cs[i], addr) ==>
              p == Logical(true, cs[i].bid, addr - cs[i].addr)
    ensures NoneObserved(cs) ==> p == Logical(false, 0, 0)
  {
    ghost var on := LocalTests(cs, lits, addr);
    var ret: seq<Guarded<nat>>, domain: seq<Cond> := [], [];
    for i := 0 to |cs|
      invariant SomeTrue(domain) <==> exists j :: 0 <= j < i && ClaimsLocal(cs[j], addr)
      invariant ret == Entries(on, i)
    {
      if cs[i].isLocal && cs[i].observed {
        var here := Cond(Within(cs[i], addr), lits[i]);
        AddOrSome(domain, here);
        assert here.val <==> ClaimsLocal(cs[i], addr);
        ret := Add(ret, i, here);
        domain := AddOr(domain, here);
      }
    }
    found := Or(domain).val;
    p := Logical(false, 0, 0);
    if NoneObserved(cs) { NoLocalEntries(cs, lits, addr, |cs|); }
    if ret != [] {
      var i := Merge(ret);
      MergedBelow(ret, |cs|, i);
      p := Logical(true, cs[i].bid, addr - cs[i].addr);
      if found { LocalMerged(cs, lits, addr, i); }
    }
    if found { EntriesSome(on, |cs|); LocalVal(cs, lits, addr); }
  }

  lemma {:induction false} LocalVal(cs: seq<Cand>, lits: seq<bool>, addr: nat)
    requires |lits| == |cs| && exists i :: 0 <= i < |cs| && ClaimsLocal(cs[i], addr)
    ensures SomeVal(LocalTests(cs, lits, addr))
  {
    var i :| 0 <= i < |cs| && ClaimsLocal(cs[i], addr);
    assert LocalTests(cs, lits, addr)[i].val;
  }

  lemma {:induction false} LocalMerged(cs: seq<Cand>, lits: seq<bool>, addr: nat, i: nat)
    requires |lits| == |cs| && i < |cs| && exists j :: 0 <= j < |cs| && ClaimsLocal(cs[j], addr)
    requires Merges(Entries(LocalTests(cs, lits, addr), |cs|), i)
    ensures Chosen(LocalTests(cs, lits, addr), |cs|, i) && ClaimsLocal(cs[i], addr)
    ensures Disjoint(cs) ==> forall j :: 0 <= j < |cs| && ClaimsLocal(cs[j], addr) ==> j == i
  {
    LocalVal(cs, lits, addr);
    MergesIff(LocalTests(cs, lits, addr), i);
  }
}
