/** `LoopLikeFunctionApproximator`: library loops encoded by bounded unrolling
    under a recorded precondition, and its two clients `strlen` and `memcmp`. */
module LoopApprox {
  import opened BitVectors
  import opened Exprs

  /** One iteration: its result if the loop ends here, whether the result is not
      poison, whether the iteration is well defined, and whether the loop goes on. */
  datatype Iter<T> = Iter(val: T, np: bool, ub: Cond, cont: Cond)

  /** The encoded loop and the precondition that was recorded for it. */
  datatype Encoded<T> = Encoded(val: T, np: bool, ub: bool, pre: bool)

  /** Iterations of a constant input are not cut off before this one. */
  const MAX_CONST: nat := 512

  /** `_loop`; `prefix` says that all earlier iterations are well defined and go on. */
  function Loop<T>(exec: nat -> Iter<T>, prefix: bool, i: nat, unroll: nat): Encoded<T>
    requires unroll > 0
    decreases MAX_CONST + unroll - i
  {
    var it := exec(i);
    var here := prefix && it.ub.val;
    var isLast := i >= unroll - 1 && !(i < MAX_CONST && it.cont.known);
    var pre := isLast ==> here ==> !it.cont.val;
    if isLast || it.cont.IsFalse() || it.ub.IsFalse() then
      Encoded(it.val, it.np, it.ub.val, pre)
    else
      var next := Loop(exec, here && it.cont.val, i + 1, unroll);
      Encoded(if it.cont.val then next.val else it.val,
              it.np && (it.cont.val ==> next.np),
              it.ub.val && (it.cont.val ==> next.ub),
              pre && next.pre)
  }

  /** The unbounded loop, started at `i`, ends at `k`: there for the first time an
      iteration is not well defined or does not go on. */
  ghost predicate EndsAt<T(!new)>(exec: nat -> Iter<T>, i: nat, k: nat) {
    && i <= k && (!exec(k).ub.val || !exec(k).cont.val)
    && forall j :: i <= j < k ==> exec(j).ub.val && exec(j).cont.val
  }

  ghost predicate EndsBy<T(!new)>(exec: nat -> Iter<T>, i: nat, n: nat) {
    exists k: nat :: k <= n && EndsAt(exec, i, k)
  }

  ghost predicate NoPoison<T(!new)>(exec: nat -> Iter<T>, i: nat, k: nat) {
    forall j :: i <= j <= k ==> exec(j).np
  }

  /** The first iteration after which the encoding gives up if the loop has not ended:
      the last one to be unrolled, or a later one as long as the input is constant. */
  ghost function Limit<T>(exec: nat -> Iter<T>, i: nat, unroll: nat): (n: nat)
    requires unroll > 0
    ensures n >= i
    decreases MAX_CONST + unroll - i
  {
    if i >= unroll - 1 && !(i < MAX_CONST && exec(i).cont.known) then i
    else Limit(exec, i + 1, unroll)
  }

  /** The recorded precondition holds exactly if the loop ends within the limit;
      then value, poison and definedness are those of the unbounded loop. */
  lemma {:induction false} LoopExact<T(!new)>(exec: nat -> Iter<T>, i: nat, unroll: nat)
    requires unroll > 0
    ensures Loop(exec, true, i, unroll).pre <==> EndsBy(exec, i, Limit(exec, i, unroll))
    ensures forall k: nat :: k <= Limit(exec, i, unroll) && EndsAt(exec, i, k) ==>
              var r := Loop(exec, true, i, unroll);
              && (r.ub <==> exec(k).ub.val)
              && (r.ub ==> r.val == exec(k).val && (r.np <==> NoPoison(exec, i, k)))
    decreases MAX_CONST + unroll - i
  {
    var it := exec(i);
    var isLast := i >= unroll - 1 && !(i < MAX_CONST && it.cont.known);
    if !it.ub.val || !it.cont.val {
      assert EndsAt(exec, i, i);
      assert forall k: nat :: EndsAt(exec, i, k) ==> k == i;
      assert NoPoison(exec, i, i) <==> it.np;
      FalsePrefix(exec, i + 1, unroll);
    } else if !isLast {
      LoopExact(exec, i + 1, unroll);
      forall k: nat
        ensures EndsAt(exec, i, k) <==> k > i && EndsAt(exec, i + 1, k)
        ensures k > i ==> (NoPoison(exec, i, k) <==> it.np && NoPoison(exec, i + 1, k))
      {
        ShiftEnd(exec, i, k);
      }
      var n := Limit(exec, i, unroll);
      if EndsBy(exec, i, n) {
        var k: nat :| k <= n && EndsAt(exec, i, k);
        assert EndsAt(exec, i + 1, k);
      }
      if EndsBy(exec, i + 1, n) {
        var k: nat :| k <= n && EndsAt(exec, i + 1, k);
        assert EndsAt(exec, i, k);
      }
    } else {
      assert forall k: nat :: EndsAt(exec, i, k) ==> k > i;
    }
  }

  lemma ShiftEnd<T(!new)>(exec: nat -> Iter<T>, i: nat, k: nat)
    requires exec(i).ub.val && exec(i).cont.val
    ensures EndsAt(exec, i, k) <==> k > i && EndsAt(exec, i + 1, k)
    ensures k > i ==> (NoPoison(exec, i, k) <==> exec(i).np && NoPoison(exec, i + 1, k))
  {
  }

  /** After the loop has ended nothing more is recorded. */
  lemma {:induction false} FalsePrefix<T>(exec: nat -> Iter<T>, i: nat, unroll: nat)
    requires unroll > 0
    ensures Loop(exec, false, i, unroll).pre
    decreases MAX_CONST + unroll - i
  {
    var it := exec(i);
    var isLast := i >= unroll - 1 && !(i < MAX_CONST && it.cont.known);
    if !(isLast || it.cont.IsFalse() || it.ub.IsFalse()) {
      FalsePrefix(exec, i + 1, unroll);
    }
  }

  // ---------------------------------------------------------------------
  // strlen
  // ---------------------------------------------------------------------

  /** A byte of memory: its value, and whether it can be read and is not poison. */
  datatype Cell = Cell(val: nat, readable: Cond)

  /** The iterations of `strlen` on the bytes from the pointer on; `bits` is the width
      of the result, `known` says that a byte compares to zero as a literal. */
  function StrlenIter(mem: nat -> Cell, bits: nat, known: nat -> bool): nat -> Iter<nat> {
    (i: nat) => Iter(i % Pow2(bits), true, mem(i).readable, Cond(mem(i).val != 0, known(i)))
  }

  /** The first zero byte, before which all bytes can be read. */
  ghost predicate IsStrlen(mem: nat -> Cell, k: nat) {
    mem(k).val == 0 && mem(k).readable.val && forall j :: 0 <= j < k ==> mem(j).val != 0 && mem(j).readable.val
  }

  /** If the precondition holds, `strlen` is well defined exactly if there is a first
      zero byte after readable bytes only, and returns its offset. */
  lemma StrlenExact(mem: nat -> Cell, bits: nat, known: nat -> bool, unroll: nat)
    requires unroll > 0
    ensures
      var r := Loop(StrlenIter(mem, bits, known), true, 0, unroll);
      && (r.pre && r.ub ==> r.np && exists k: nat :: IsStrlen(mem, k) && r.val == k % Pow2(bits))
      && (r.pre && !r.ub ==> forall k: nat :: !IsStrlen(mem, k))
      && (forall k: nat :: k < unroll && IsStrlen(mem, k) ==> r.pre && r.ub && r.val == k % Pow2(bits))
  {
    var exec := StrlenIter(mem, bits, known);
    LoopExact(exec, 0, unroll);
    LimitLarge(exec, 0, unroll);
    var r := Loop(exec, true, 0, unroll);
    forall k: nat | IsStrlen(mem, k)
      ensures EndsAt(exec, 0, k)
    {
      assert exec(k).ub.val && !exec(k).cont.val;
      forall j | 0 <= j < k ensures exec(j).ub.val && exec(j).cont.val { assert mem(j).val != 0; }
    }
    if r.pre {
      var k: nat :| k <= Limit(exec, 0, unroll) && EndsAt(exec, 0, k);
      assert NoPoison(exec, 0, k);
      forall j | 0 <= j < k ensures mem(j).val != 0 && mem(j).readable.val { assert exec(j).ub.val && exec(j).cont.val; }
      if r.ub { assert IsStrlen(mem, k); }
      forall m: nat | IsStrlen(mem, m) ensures m == k { EndsOnce(exec, k, m); }
    }
  }

  lemma EndsOnce<T(!new)>(exec: nat -> Iter<T>, k: nat, m: nat)
    requires EndsAt(exec, 0, k) && EndsAt(exec, 0, m)
    ensures k == m
  {
  }

  lemma {:induction false} LimitLarge<T>(exec: nat -> Iter<T>, i: nat, unroll: nat)
    requires unroll > 0
    ensures Limit(exec, i, unroll) >= unroll - 1
    decreases MAX_CONST + unroll - i
  {
    if !(i >= unroll - 1 && !(i < MAX_CONST && exec(i).cont.known)) { LimitLarge(exec, i + 1, unroll); }
  }

  // ---------------------------------------------------------------------
  // memcmp
  // ---------------------------------------------------------------------

  /** A byte as `memcmp` sees it: its bits as an integer, whether it is a pointer byte,
      a zero, or poison. */
  datatype CmpByte = CmpByte(val: nat, isPtr: bool, isZero: bool, poison: bool)

  predicate Comparable(a: CmpByte, b: CmpByte) {
    (a.isPtr == b.isPtr || a.isZero || b.isZero) && !a.poison && !b.poison
  }

  /** The iterations of `memcmp` (or `bcmp`) of `n` bytes; `above` and `below` are the
      results chosen for unequal bytes. */
  function MemcmpIter(a: nat -> CmpByte, b: nat -> CmpByte, n: nat, isBcmp: bool, above: int, below: int, known: nat -> bool):
    nat -> Iter<int>
  {
    (i: nat) =>
      var eq := a(i).val == b(i).val;
      Iter(if eq then 0 else if isBcmp || a(i).val >= b(i).val then above else below,
           Comparable(a(i), b(i)), TRUE, Cond(eq && n >= i + 2, known(i)))
  }

  /** `Memcmp::toSMT` */
  function Memcmp(a: nat -> CmpByte, b: nat -> CmpByte, n: nat, isBcmp: bool, above: int, below: int, known: nat -> bool,
                  unroll: nat): Encoded<int>
    requires unroll > 0
  {
    var r := Loop(MemcmpIter(a, b, n, isBcmp, above, below, known), true, 0, unroll);
    Encoded(if n == 0 then 0 else r.val, n != 0 ==> r.np, true, r.pre)
  }

  /** The first position below `n` where the bytes differ. */
  ghost predicate FirstDiff(a: nat -> CmpByte, b: nat -> CmpByte, n: nat, k: nat) {
    k < n && a(k).val != b(k).val && forall j :: 0 <= j < k ==> a(j).val == b(j).val
  }

  ghost predicate AllEqual(a: nat -> CmpByte, b: nat -> CmpByte, n: nat) {
    forall j :: 0 <= j < n ==> a(j).val == b(j).val
  }

  /** If the precondition holds, the result is zero exactly if all bytes are equal;
      otherwise its sign is that of the first difference, or for `bcmp` it is the
      nonzero value chosen. */
  lemma MemcmpExact(a: nat -> CmpByte, b: nat -> CmpByte, n: nat, isBcmp: bool, above: int, below: int, known: nat -> bool, unroll: nat)
    requires unroll > 0 && (if isBcmp then above != 0 else above > 0 && below < 0)
    ensures
      var r := Memcmp(a, b, n, isBcmp, above, below, known, unroll);
      && (r.pre ==> (r.val == 0 <==> AllEqual(a, b, n)))
      && (r.pre ==> forall k: nat :: FirstDiff(a, b, n, k) ==>
            && r.val == (if isBcmp || a(k).val > b(k).val then above else below)
            && (!isBcmp ==> (r.val > 0 <==> a(k).val > b(k).val))
            && (r.np <==> forall j: nat :: j <= k ==>
                  !a(j).poison && !b(j).poison && (a(j).isPtr == b(j).isPtr || a(j).isZero || b(j).isZero)))
      && (r.pre && AllEqual(a, b, n) ==> (r.np <==> forall j: nat :: j < n ==>
            !a(j).poison && !b(j).poison && (a(j).isPtr == b(j).isPtr || a(j).isZero || b(j).isZero)))
      && r.ub
      && (n <= unroll ==> r.pre)
  {
    var exec := MemcmpIter(a, b, n, isBcmp, above, below, known);
    LoopExact(exec, 0, unroll);
    LimitLarge(exec, 0, unroll);
    if n > 0 {
      if AllEqual(a, b, n) {
        EqualRun(a, b, n, isBcmp, above, below, known);
        NpIs(a, b, n, isBcmp, above, below, known, n - 1);
      } else {
        var d: nat := FindDiff(a, b, n);
        DiffRun(a, b, n, isBcmp, above, below, known, d);
        NpIs(a, b, n, isBcmp, above, below, known, d);
        assert forall k: nat :: FirstDiff(a, b, n, k) ==> k == d;
      }
      OnlyEnd(exec, unroll);
    } else {
      assert EndsAt(exec, 0, 0);
    }
  }

  /** The precondition says that the one place where the loop ends is within the limit. */
  lemma OnlyEnd<T(!new)>(exec: nat -> Iter<T>, unroll: nat)
    requires unroll > 0
    ensures forall k: nat :: EndsAt(exec, 0, k) ==> (EndsBy(exec, 0, Limit(exec, 0, unroll)) <==> k <= Limit(exec, 0, unroll))
  {
    forall k: nat, m: nat | EndsAt(exec, 0, k) && EndsAt(exec, 0, m) ensures k == m { EndsOnce(exec, k, m); }
  }

  lemma NpIs(a: nat -> CmpByte, b: nat -> CmpByte, n: nat, isBcmp: bool, above: int, below: int, known: nat -> bool, k: nat)
    ensures NoPoison(MemcmpIter(a, b, n, isBcmp, above, below, known), 0, k) <==> forall j: nat :: j <= k ==> Comparable(a(j), b(j))
  {
    var exec := MemcmpIter(a, b, n, isBcmp, above, below, known);
    if NoPoison(exec, 0, k) {
      forall j: nat | j <= k ensures Comparable(a(j), b(j)) { assert exec(j).np; }
    }
    if forall j: nat :: j <= k ==> Comparable(a(j), b(j)) {
      forall j | 0 <= j <= k ensures exec(j).np { assert Comparable(a(j), b(j)); }
    }
  }

  lemma EqualRun(a: nat -> CmpByte, b: nat -> CmpByte, n: nat, isBcmp: bool, above: int, below: int, known: nat -> bool)
    requires n > 0 && AllEqual(a, b, n)
    ensures EndsAt(MemcmpIter(a, b, n, isBcmp, above, below, known), 0, n - 1)
  {
  }

  lemma DiffRun(a: nat -> CmpByte, b: nat -> CmpByte, n: nat, isBcmp: bool, above: int, below: int, known: nat -> bool, d: nat)
    requires FirstDiff(a, b, n, d)
    ensures EndsAt(MemcmpIter(a, b, n, isBcmp, above, below, known), 0, d)
  {
  }

  lemma {:induction false} FindDiff(a: nat -> CmpByte, b: nat -> CmpByte, n: nat) returns (d: nat)
    requires !AllEqual(a, b, n)
    ensures FirstDiff(a, b, n, d)
  {
    if AllEqual(a, b, n - 1) {
      d := n - 1;
    } else {
      d := FindDiff(a, b, n - 1);
    }
  }
}
