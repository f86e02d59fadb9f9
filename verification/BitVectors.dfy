/** Bit-vectors as sequences of bits, and numbers at a given width. */
module BitVectors {
  type Bits = seq<bool>

  function Pow2(n: nat): (p: nat)
    ensures p > n
  {
    if n == 0 then 1 else 2 * Pow2(n - 1)
  }

  /** A number at `bw` bits. The cases that occur here are written out, so that
      proofs need no division; `WrapIsMod` says what it computes. */
  function Wrap(x: int, bw: nat): (r: int) {
    var m: int := Pow2(bw);
    if 0 <= x < m then x else if x == m then 0 else if -m < x < 0 then x + m else x % m
  }

  /** `Wrap` is arithmetic modulo two to the width. */
  lemma WrapIsMod(x: int, bw: nat)
    ensures 0 <= Wrap(x, bw) < Pow2(bw) && Wrap(x, bw) == x % Pow2(bw)
  {
    var m: int := Pow2(bw);
    if 0 <= x < m { ModIs(x, m, 0); }
    else if x == m { ModIs(x, m, 1); }
    else if -m < x < 0 { ModIs(x, m, -1); }
  }

  lemma ModIs(x: int, m: int, q: int)
    requires 0 <= x - q * m < m
    ensures x % m == x - q * m
  {
    var k := x / m;
    assert (k - q) * m == x - q * m - x % m;
    NoMultiple(k - q, m);
  }

  lemma NoMultiple(d: int, m: int)
    requires -m < d * m < m
    ensures d == 0
  {
    if d > 0 { AtLeastOnce(d, m); }
    if d < 0 { AtLeastOnce(-d, m); }
  }

  lemma {:induction false} AtLeastOnce(d: int, m: int)
    requires d >= 1 && m >= 0
    ensures d * m >= m
    decreases d
  {
    if d > 1 {
      AtLeastOnce(d - 1, m);
      assert d * m == (d - 1) * m + m;
    }
  }

  function Ones(bw: nat): Bits { seq(bw, _ => true) }
  function One(bw: nat): Bits { seq(bw, i => i == 0) }
  function Shl(v: Bits, n: int): Bits { seq(|v|, i requires 0 <= i < |v| => 0 <= i - n < |v| && v[i - n]) }
  function Lshr(v: Bits, n: int): Bits { seq(|v|, i requires 0 <= i < |v| => 0 <= i + n < |v| && v[i + n]) }
  function BitOr(v: Bits, w: Bits): Bits requires |v| == |w| { seq(|v|, i requires 0 <= i < |v| => v[i] || w[i]) }
  function BitAnd(v: Bits, w: Bits): Bits requires |v| == |w| { seq(|v|, i requires 0 <= i < |v| => v[i] && w[i]) }

  lemma {:induction false} Pow2Split(a: nat, b: nat)
    ensures Pow2(a) * Pow2(b) == Pow2(a + b)
    decreases a
  {
    if a > 0 {
      Pow2Split(a - 1, b);
      assert Pow2(a) * Pow2(b) == 2 * (Pow2(a - 1) * Pow2(b));
    }
  }
}
