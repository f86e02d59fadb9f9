/** Boolean expressions and the collections of `smt/exprs.h`, under one valuation
    of the variables. */
module Exprs {
  // ---------------------------------------------------------------------
  // Boolean expressions under a valuation
  // ---------------------------------------------------------------------

  /** The value of a boolean expression, and whether it is a literal constant. */
  datatype Cond = Cond(val: bool, known: bool) {
    predicate IsTrue() { known && val }
    predicate IsFalse() { known && !val }
    function Not(): Cond { Cond(!val, known) }
    function And(c: Cond): Cond { Cond(val && c.val, (known && c.known) || IsFalse() || c.IsFalse()) }
  }

  const TRUE := Cond(true, true)
  const FALSE := Cond(false, true)

  /** What folds to a literal: an expression that is true or false without being a
      literal does not. */
  lemma Literals(c: Cond, d: Cond)
    ensures (c.IsTrue() <==> c == TRUE) && (c.IsFalse() <==> c == FALSE)
    ensures (c.Not() == TRUE <==> c == FALSE) && (c.Not() == FALSE <==> c == TRUE) && c.Not().val == !c.val
    ensures (c.And(d) == TRUE <==> c == TRUE && d == TRUE) && (c.And(d) == FALSE <==> c == FALSE || d == FALSE)
    ensures c.And(d).val <==> c.val && d.val
  {
  }

  ghost predicate SomeTrue(cs: seq<Cond>) {
    exists i :: 0 <= i < |cs| && cs[i].val
  }

  /** `OrExpr`: literal false is never stored. */
  function AddOr(cs: seq<Cond>, c: Cond): seq<Cond> {
    if c.IsFalse() then cs else cs + [c]
  }

  function Or(cs: seq<Cond>): (r: Cond)
    ensures r.val <==> SomeTrue(cs)
  {
    if cs == [] then FALSE
    else
      var r := Or(cs[1..]);
      assert SomeTrue(cs[1..]) ==> SomeTrue(cs) by {
        if i :| 0 <= i < |cs[1..]| && cs[1..][i].val { assert cs[i + 1].val; }
      }
      assert SomeTrue(cs) ==> cs[0].val || SomeTrue(cs[1..]) by {
        if i :| 0 <= i < |cs| && cs[i].val { if i > 0 { assert cs[1..][i - 1].val; } }
      }
      Cond(cs[0].val || r.val, cs[0].IsTrue() || (cs[0].known && r.known) || r.IsTrue())
  }

  /** A disjunction is a literal exactly if one part is literally true or all are literally false. */
  lemma {:induction false} OrLiterals(cs: seq<Cond>)
    ensures Or(cs) == TRUE <==> TRUE in cs
    ensures Or(cs) == FALSE <==> forall i :: 0 <= i < |cs| ==> cs[i] == FALSE
  {
    if cs != [] {
      OrLiterals(cs[1..]);
      assert cs == [cs[0]] + cs[1..];
      assert Or(cs) == FALSE <==> cs[0] == FALSE && Or(cs[1..]) == FALSE;
    }
  }

  /** A value of a `DisjointExpr` with its domain. */
  datatype Guarded<T> = Guarded(v: T, on: Cond)

  /** `DisjointExpr::add`: a literal true domain drops the earlier values. */
  function Add<T>(xs: seq<Guarded<T>>, v: T, on: Cond): seq<Guarded<T>> {
    if on.IsFalse() then xs
    else if on.IsTrue() then [Guarded(v, on)]
    else xs + [Guarded(v, on)]
  }

  predicate AnyLiteral<T>(xs: seq<Guarded<T>>) {
    exists i :: 0 <= i < |xs| && xs[i].on.IsTrue()
  }

  /** `DisjointExpr::mk`: nested if-then-else over the stored values, in some order;
      the first literal true domain ends it. */
  function Mk<T>(xs: seq<Guarded<T>>): T
    requires xs != []
  {
    var n := |xs| - 1;
    if n == 0 || (xs[n].on.val && !AnyLiteral(xs[..n])) then xs[n].v else Mk(xs[..n])
  }

  ghost predicate SomeOn<T>(xs: seq<Guarded<T>>) {
    exists i :: 0 <= i < |xs| && xs[i].on.val
  }

  /** Some entry whose domain is true holds `v`. */
  ghost predicate Has<T(!new)>(xs: seq<Guarded<T>>, v: T) {
    exists i :: 0 <= i < |xs| && xs[i].on.val && xs[i].v == v
  }

  /** `v` is the one value whose domain is true. */
  ghost predicate OnlyHas<T(!new)>(xs: seq<Guarded<T>>, v: T) {
    SomeOn(xs) && forall w :: Has(xs, w) ==> w == v
  }

  /** `v` may be merged: a literal true domain wins, else any true one may. */
  ghost predicate Picks<T(!new)>(xs: seq<Guarded<T>>, v: T) {
    exists i :: 0 <= i < |xs| && xs[i].on.val && xs[i].v == v && (AnyLiteral(xs) ==> xs[i].on.IsTrue())
  }

  /** If some domain is true, the merged value is one that may be merged. */
  lemma {:induction false} MkPicks<T(!new)>(xs: seq<Guarded<T>>)
    requires SomeOn(xs)
    ensures xs != [] && Has(xs, Mk(xs)) && Picks(xs, Mk(xs))
  {
    var n := |xs| - 1;
    var i :| 0 <= i < |xs| && xs[i].on.val;
    if n > 0 && !(xs[n].on.val && !AnyLiteral(xs[..n])) {
      if AnyLiteral(xs[..n]) {
        var k :| 0 <= k < n && xs[..n][k].on.IsTrue();
        assert xs[..n][k].on.val;
      } else {
        assert xs[..n][i].on.val;
      }
      MkPicks(xs[..n]);
      var j :| 0 <= j < n && xs[..n][j].on.val && xs[..n][j].v == Mk(xs[..n]) && (AnyLiteral(xs[..n]) ==> xs[..n][j].on.IsTrue());
      assert xs[j].on.val && xs[j].v == Mk(xs);
      assert !AnyLiteral(xs[..n]) ==> !AnyLiteral(xs);
    }
  }

  /** The same entries in another order. */
  ghost predicate Reordered<T(!new)>(xs: seq<Guarded<T>>, ys: seq<Guarded<T>>) {
    multiset(xs) == multiset(ys)
  }

  lemma SameEntries<T(!new)>(xs: seq<Guarded<T>>, ys: seq<Guarded<T>>)
    requires Reordered(xs, ys)
    ensures |xs| == |ys| && forall x :: x in xs <==> x in ys
  {
    assert |xs| == |multiset(xs)| && |ys| == |multiset(ys)|;
    assert forall x :: x in xs <==> x in multiset(xs);
    assert forall x :: x in ys <==> x in multiset(ys);
  }

  lemma Reorders<T(!new)>(xs: seq<Guarded<T>>, ys: seq<Guarded<T>>, v: T)
    requires Reordered(xs, ys) && Picks(ys, v)
    ensures Picks(xs, v)
  {
    SameEntries(xs, ys);
    var i :| 0 <= i < |ys| && ys[i].on.val && ys[i].v == v && (AnyLiteral(ys) ==> ys[i].on.IsTrue());
    assert ys[i] in xs;
    if AnyLiteral(xs) {
      var k :| 0 <= k < |xs| && xs[k].on.IsTrue();
      assert xs[k] in ys;
    }
  }

  /** So what may be merged is exactly what is merged in some order. */
  lemma PicksIff<T(!new)>(xs: seq<Guarded<T>>, v: T)
    requires SomeOn(xs)
    ensures Picks(xs, v) <==> exists ys :: Reordered(xs, ys) && ys != [] && Mk(ys) == v
  {
    if Picks(xs, v) {
      var i :| 0 <= i < |xs| && xs[i].on.val && xs[i].v == v && (AnyLiteral(xs) ==> xs[i].on.IsTrue());
      var ys := if xs[i].on.IsTrue() then MovedTo(xs, i, 0) else MovedTo(xs, i, |xs| - 1);
      MovedIs(xs, i, if xs[i].on.IsTrue() then 0 else |xs| - 1);
      SameEntries(xs, ys);
      if xs[i].on.IsTrue() {
        FirstWins(ys);
      } else {
        assert forall y :: y in ys[..|ys| - 1] ==> y in ys && y in xs;
      }
      assert Mk(ys) == v;
    }
    if ys :| Reordered(xs, ys) && ys != [] && Mk(ys) == v {
      var i :| 0 <= i < |xs| && xs[i].on.val;
      SameEntries(xs, ys);
      assert xs[i] in ys;
      MkPicks(ys);
      Reorders(xs, ys, v);
    }
  }

  /** `v` is what is merged in every order. */
  ghost predicate OnlyPicks<T(!new)>(xs: seq<Guarded<T>>, v: T) {
    SomeOn(xs) && forall w :: Picks(xs, w) ==> w == v
  }

  lemma {:induction false} FirstWins<T(!new)>(ys: seq<Guarded<T>>)
    requires ys != [] && ys[0].on.IsTrue()
    ensures Mk(ys) == ys[0].v
  {
    var n := |ys| - 1;
    if n > 0 {
      assert ys[..n][0].on.IsTrue();
      FirstWins(ys[..n]);
    }
  }

  /** Entries `i` and `k` swapped. */
  function MovedTo<T>(xs: seq<Guarded<T>>, i: nat, k: nat): seq<Guarded<T>>
    requires i < |xs| && k < |xs|
  {
    xs[i := xs[k]][k := xs[i]]
  }

  lemma MovedIs<T(!new)>(xs: seq<Guarded<T>>, i: nat, k: nat)
    requires i < |xs| && k < |xs|
    ensures Reordered(xs, MovedTo(xs, i, k)) && MovedTo(xs, i, k)[k] == xs[i]
  {
  }

  /** What may be merged after one more value was added. */
  lemma AddPicks<T(!new)>(xs: seq<Guarded<T>>, v: T, on: Cond, w: T)
    ensures AnyLiteral(Add(xs, v, on)) <==> on.IsTrue() || AnyLiteral(xs)
    ensures Picks(Add(xs, v, on), w) <==>
      if on.IsTrue() then w == v else Picks(xs, w) || (on.val && w == v && !AnyLiteral(xs))
  {
    var ys := Add(xs, v, on);
    if on.IsTrue() {
      assert ys[0].on.IsTrue();
    } else if !on.IsFalse() {
      assert ys[..|xs|] == xs && ys[|xs|] == Guarded(v, on);
      assert forall i :: 0 <= i < |xs| ==> ys[i] == xs[i];
      assert AnyLiteral(ys) <==> AnyLiteral(xs);
    }
  }

  lemma AddSome<T(!new)>(xs: seq<Guarded<T>>, v: T, on: Cond)
    ensures SomeOn(Add(xs, v, on)) <==> SomeOn(xs) || on.val
  {
    var ys := Add(xs, v, on);
    if on.val { assert ys[|ys| - 1].on.val; }
    if !on.IsTrue() {
      if i :| 0 <= i < |xs| && xs[i].on.val { assert ys[i].on.val; }
      if i :| 0 <= i < |ys| && ys[i].on.val { if i < |xs| { assert xs[i].on.val; } }
    }
  }

  lemma AddHas<T(!new)>(xs: seq<Guarded<T>>, v: T, on: Cond, w: T)
    ensures Has(Add(xs, v, on), w) ==> Has(xs, w) || (on.val && w == v)
    ensures !on.val ==> (Has(Add(xs, v, on), w) <==> Has(xs, w))
    ensures on.val ==> Has(Add(xs, v, on), v)
  {
    var ys := Add(xs, v, on);
    if on.val { assert ys[|ys| - 1].on.val && ys[|ys| - 1].v == v; }
    if !on.IsTrue() {
      if i :| 0 <= i < |xs| && xs[i].on.val && xs[i].v == w { assert ys[i].on.val && ys[i].v == w; }
      if i :| 0 <= i < |ys| && ys[i].on.val && ys[i].v == w { if i < |xs| { assert xs[i].on.val && xs[i].v == w; } }
    }
  }

  /** `add_disj`: all values of `xs`, restricted to the domain `p`. */
  function AddDisj<T>(acc: seq<Guarded<T>>, xs: seq<Guarded<T>>, p: Cond): seq<Guarded<T>> {
    if xs == [] then acc
    else
      var last := xs[|xs| - 1];
      Add(AddDisj(acc, xs[..|xs| - 1], p), last.v, last.on.And(p))
  }

  lemma {:induction false} AddDisjHas<T(!new)>(acc: seq<Guarded<T>>, xs: seq<Guarded<T>>, p: Cond, w: T)
    ensures Has(AddDisj(acc, xs, p), w) ==> Has(acc, w) || (p.val && Has(xs, w))
  {
    if xs != [] {
      var n := |xs| - 1;
      AddDisjHas(acc, xs[..n], p, w);
      AddHas(AddDisj(acc, xs[..n], p), xs[n].v, xs[n].on.And(p), w);
      if Has(xs[..n], w) {
        var i :| 0 <= i < n && xs[..n][i].on.val && xs[..n][i].v == w;
        assert xs[i].on.val && xs[i].v == w;
      }
    }
  }

  lemma {:induction false} AddDisjSome<T(!new)>(acc: seq<Guarded<T>>, xs: seq<Guarded<T>>, p: Cond)
    ensures SomeOn(AddDisj(acc, xs, p)) <==> SomeOn(acc) || (p.val && SomeOn(xs))
  {
    if xs != [] {
      var n := |xs| - 1;
      AddDisjSome(acc, xs[..n], p);
      AddSome(AddDisj(acc, xs[..n], p), xs[n].v, xs[n].on.And(p));
      if SomeOn(xs[..n]) {
        var i :| 0 <= i < n && xs[..n][i].on.val;
        assert xs[i].on.val;
      }
      if i :| 0 <= i < |xs| && xs[i].on.val { if i < n { assert xs[..n][i].on.val; } }
    }
  }

  lemma AddOrSome(cs: seq<Cond>, c: Cond)
    ensures SomeTrue(AddOr(cs, c)) <==> SomeTrue(cs) || c.val
  {
    var ds := AddOr(cs, c);
    if c.val { assert ds[|ds| - 1].val; }
    if i :| 0 <= i < |cs| && cs[i].val { assert ds[i].val; }
    if i :| 0 <= i < |ds| && ds[i].val { if i < |cs| { assert cs[i].val; } }
  }
}
