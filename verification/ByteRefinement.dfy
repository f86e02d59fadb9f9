/** `Byte::refined` on integer bytes, and what it means for the integers and vectors
    that are loaded from them. */
module ByteRefinement {
  import opened Aggregates
  import opened BitVectors
  import opened Granularity
  import opened Options

  /** An integer byte: its bits and its non-poison bits. */
  datatype IntByte = IntByte(v: Bits, np: Bits)

  ghost predicate ByteOk(cfg: Config, b: IntByte) {
    |b.v| == cfg.bitsByte && |b.np| == cfg.poisonPerByte
  }

  lemma GroupIs(cfg: Config)
    requires Even(cfg)
    ensures Group(cfg) > 0 && Group(cfg) * cfg.poisonPerByte == cfg.bitsByte
  {
    var g := Group(cfg);
    assert cfg.bitsByte == g * cfg.poisonPerByte;
    assert g == 0 ==> g * cfg.poisonPerByte == 0;
  }

  /** The bits of group `i`. */
  function GroupBits(v: Bits, g: nat, i: nat): Bits
    requires i * g + g <= |v|
  {
    v[i * g..i * g + g]
  }

  /** The integer part of `refined`, in its three forms: a poison bit for every bit,
      for groups of bits, or one for the whole byte. */
  ghost predicate Refined(cfg: Config, s: IntByte, t: IntByte)
    requires Even(cfg) && ByteOk(cfg, s) && ByteOk(cfg, t)
  {
    if cfg.poisonPerByte == cfg.bitsByte then
      BitAnd(t.np, s.np) == s.np && BitAnd(s.v, s.np) == BitAnd(t.v, s.np)
    else if cfg.poisonPerByte > 1 then
      forall i :: 0 <= i < cfg.poisonPerByte ==> GroupRefined(cfg, s, t, i)
    else
      s.np == [false] || (t.np == [true] && s.v == t.v)
  }

  ghost predicate GroupRefined(cfg: Config, s: IntByte, t: IntByte, i: nat)
    requires Even(cfg) && ByteOk(cfg, s) && ByteOk(cfg, t) && i < cfg.poisonPerByte
  {
    GroupIs(cfg);
    GroupInByte(i, cfg.poisonPerByte, Group(cfg));
    !s.np[i] || (t.np[i] && GroupBits(s.v, Group(cfg), i) == GroupBits(t.v, Group(cfg), i))
  }

  lemma GroupInByte(i: nat, n: nat, g: nat)
    requires i < n
    ensures i * g + g <= n * g == g * n
  {
    if g > 0 { Spread(i, n, g); }
  }

  /** Bit `r` of group `j`, below poison bit `j`. */
  ghost predicate BitRefined(s: IntByte, t: IntByte, g: nat, j: nat, r: nat) {
    var k := j * g + r;
    j < |s.np| && j < |t.np| && k < |s.v| && k < |t.v| && s.np[j] ==> t.np[j] && s.v[k] == t.v[k]
  }

  /** Every bit whose poison bit is set in the source is the same in the target, and set there. */
  ghost predicate AllRefined(g: nat, n: nat, s: IntByte, t: IntByte) {
    forall j: nat {:trigger GroupAll(g, s, t, j)} :: j < n ==> GroupAll(g, s, t, j)
  }

  ghost predicate GroupAll(g: nat, s: IntByte, t: IntByte, j: nat) {
    forall r: nat {:trigger BitRefined(s, t, g, j, r)} :: r < g ==> BitRefined(s, t, g, j, r)
  }

  /** The three forms say the same. */
  lemma RefinedIff(cfg: Config, s: IntByte, t: IntByte)
    requires Even(cfg) && ByteOk(cfg, s) && ByteOk(cfg, t)
    ensures Refined(cfg, s, t) <==> AllRefined(Group(cfg), cfg.poisonPerByte, s, t)
  {
    GroupIs(cfg);
    var g, n := Group(cfg), cfg.poisonPerByte;
    if n == cfg.bitsByte {
      OneBitGroups(cfg, s, t);
    } else if n > 1 {
      forall i: nat | i < n
        ensures GroupRefined(cfg, s, t, i) <==> GroupAll(g, s, t, i)
      {
        GroupIff(cfg, s, t, i);
      }
    } else {
      assert g == cfg.bitsByte;
      WholeByte(cfg, s, t);
    }
  }

  lemma OneBitGroups(cfg: Config, s: IntByte, t: IntByte)
    requires Even(cfg) && ByteOk(cfg, s) && ByteOk(cfg, t) && cfg.poisonPerByte == cfg.bitsByte
    ensures Group(cfg) == 1
    ensures Refined(cfg, s, t) <==> AllRefined(1, cfg.poisonPerByte, s, t)
  {
    GroupIs(cfg);
    ModIs(cfg.bitsByte, cfg.poisonPerByte, 1);
    if Refined(cfg, s, t) {
      forall j: nat, r: nat | j < cfg.poisonPerByte && r < 1
        ensures BitRefined(s, t, 1, j, r)
      {
        assert BitAnd(t.np, s.np)[j] == s.np[j];
        assert BitAnd(s.v, s.np)[j] == BitAnd(t.v, s.np)[j];
      }
    }
    if AllRefined(1, cfg.poisonPerByte, s, t) {
      forall k: nat | k < cfg.bitsByte
        ensures BitAnd(t.np, s.np)[k] == s.np[k] && BitAnd(s.v, s.np)[k] == BitAnd(t.v, s.np)[k]
      {
        assert GroupAll(1, s, t, k) && BitRefined(s, t, 1, k, 0);
      }
    }
  }

  lemma GroupIff(cfg: Config, s: IntByte, t: IntByte, i: nat)
    requires Even(cfg) && ByteOk(cfg, s) && ByteOk(cfg, t) && i < cfg.poisonPerByte
    ensures GroupRefined(cfg, s, t, i) <==> GroupAll(Group(cfg), s, t, i)
  {
    GroupIs(cfg);
    var g := Group(cfg);
    GroupInByte(i, cfg.poisonPerByte, g);
    SliceIff(s, t, g, i);
  }

  lemma SliceIff(s: IntByte, t: IntByte, g: nat, i: nat)
    requires g > 0 && i < |s.np| && i < |t.np| && i * g + g <= |s.v| && i * g + g <= |t.v|
    ensures GroupAll(g, s, t, i) <==> !s.np[i] || (t.np[i] && GroupBits(s.v, g, i) == GroupBits(t.v, g, i))
  {
    var x, y := GroupBits(s.v, g, i), GroupBits(t.v, g, i);
    if s.np[i] {
      if t.np[i] && x == y {
        forall r: nat | r < g ensures BitRefined(s, t, g, i, r) { assert x[r] == y[r]; }
      }
      if GroupAll(g, s, t, i) {
        assert BitRefined(s, t, g, i, 0);
        forall r | 0 <= r < g ensures x[r] == y[r] { assert BitRefined(s, t, g, i, r); }
        assert x == y;
      }
    }
  }

  lemma WholeByte(cfg: Config, s: IntByte, t: IntByte)
    requires Even(cfg) && ByteOk(cfg, s) && ByteOk(cfg, t) && cfg.poisonPerByte == 1 && Group(cfg) == cfg.bitsByte > 1
    ensures Refined(cfg, s, t) <==> AllRefined(Group(cfg), 1, s, t)
  {
    var g := Group(cfg);
    assert s.np == [s.np[0]] && t.np == [t.np[0]];
    SliceIff(s, t, g, 0);
    assert GroupBits(s.v, g, 0) == s.v && GroupBits(t.v, g, 0) == t.v;
    assert AllRefined(g, 1, s, t) <==> GroupAll(g, s, t, 0);
  }

  /** Refinement of bytes is reflexive and transitive at every granularity. */
  lemma RefinedPreorder(cfg: Config, a: IntByte, b: IntByte, c: IntByte)
    requires Even(cfg) && ByteOk(cfg, a) && ByteOk(cfg, b) && ByteOk(cfg, c)
    ensures Refined(cfg, a, a)
    ensures Refined(cfg, a, b) && Refined(cfg, b, c) ==> Refined(cfg, a, c)
  {
    RefinedIff(cfg, a, a);
    RefinedIff(cfg, a, b);
    RefinedIff(cfg, b, c);
    RefinedIff(cfg, a, c);
    GroupIs(cfg);
    var g, n := Group(cfg), cfg.poisonPerByte;
    forall j: nat, r: nat | j < n && r < g ensures BitRefined(a, a, g, j, r) {}
    if Refined(cfg, a, b) && Refined(cfg, b, c) {
      forall j: nat | j < n
        ensures GroupAll(g, a, c, j)
      {
        assert GroupAll(g, a, b, j) && GroupAll(g, b, c, j);
        GroupInByte(j, n, g);
        forall r: nat | r < g
          ensures BitRefined(a, c, g, j, r)
        {
          assert BitRefined(a, b, g, j, r) && BitRefined(b, c, g, j, r);
        }
      }
    }
  }

  // ---------------------------------------------------------------------
  // Loads
  // ---------------------------------------------------------------------

  function ValueParts(bs: seq<IntByte>): seq<Bits> { seq(|bs|, i requires 0 <= i < |bs| => bs[i].v) }
  function NpParts(bs: seq<IntByte>): seq<Bits> { seq(|bs|, i requires 0 <= i < |bs| => bs[i].np) }

  /** The bytes joined, the first one lowest. */
  function Whole(bs: seq<IntByte>): IntByte { IntByte(CatUp(ValueParts(bs), |bs|), CatUp(NpParts(bs), |bs|)) }

  /** Source and target bytes, one refined by the other. */
  ghost predicate BytesRefined(cfg: Config, ss: seq<IntByte>, ts: seq<IntByte>)
    requires Even(cfg)
  {
    |ss| == |ts| && forall i :: 0 <= i < |ss| ==> ByteOk(cfg, ss[i]) && ByteOk(cfg, ts[i]) && Refined(cfg, ss[i], ts[i])
  }

  lemma {:induction false} WholeSize(cfg: Config, bs: seq<IntByte>, n: nat)
    requires Even(cfg) && n <= |bs| && forall i :: 0 <= i < |bs| ==> ByteOk(cfg, bs[i])
    ensures |CatUp(ValueParts(bs), n)| == n * cfg.bitsByte && |CatUp(NpParts(bs), n)| == n * cfg.poisonPerByte
  {
    if n > 0 {
      WholeSize(cfg, bs, n - 1);
      NextMultiple(n - 1, cfg.bitsByte);
      NextMultiple(n - 1, cfg.poisonPerByte);
    }
  }

  /** Refinement of all bytes is refinement of what they are joined to. */
  lemma {:induction false} WholeRefined(cfg: Config, ss: seq<IntByte>, ts: seq<IntByte>, n: nat)
    requires Even(cfg) && BytesRefined(cfg, ss, ts) && n <= |ss|
    ensures AllRefined(Group(cfg), n * cfg.poisonPerByte,
                       IntByte(CatUp(ValueParts(ss), n), CatUp(NpParts(ss), n)), IntByte(CatUp(ValueParts(ts), n), CatUp(NpParts(ts), n)))
  {
    GroupIs(cfg);
    WholeSize(cfg, ss, n);
    WholeSize(cfg, ts, n);
    if n > 0 {
      WholeRefined(cfg, ss, ts, n - 1);
      WholeSize(cfg, ss, n - 1);
      WholeSize(cfg, ts, n - 1);
      RefinedIff(cfg, ss[n - 1], ts[n - 1]);
      NextMultiple(n - 1, cfg.poisonPerByte);
      Scaled(n - 1, Group(cfg), cfg.poisonPerByte, cfg.bitsByte);
      var s0, t0 := IntByte(CatUp(ValueParts(ss), n - 1), CatUp(NpParts(ss), n - 1)), IntByte(CatUp(ValueParts(ts), n - 1), CatUp(NpParts(ts), n - 1));
      Appended(Group(cfg), (n - 1) * cfg.poisonPerByte, cfg.poisonPerByte, s0, t0, ss[n - 1], ts[n - 1]);
    }
  }

  lemma Scaled(m: nat, g: nat, p: nat, b: nat)
    requires g * p == b || p * g == b
    ensures (m * p) * g == m * b
  {
    assert (m * p) * g == m * (p * g);
  }

  lemma Appended(g: nat, n: nat, p: nat, s0: IntByte, t0: IntByte, s1: IntByte, t1: IntByte)
    requires AllRefined(g, n, s0, t0) && AllRefined(g, p, s1, t1)
    requires |s0.v| == |t0.v| == n * g && |s0.np| == |t0.np| == n && |s1.v| == |t1.v| == p * g && |s1.np| == |t1.np| == p
    ensures AllRefined(g, n + p, IntByte(s0.v + s1.v, s0.np + s1.np), IntByte(t0.v + t1.v, t0.np + t1.np))
  {
    var s, t := IntByte(s0.v + s1.v, s0.np + s1.np), IntByte(t0.v + t1.v, t0.np + t1.np);
    forall j: nat | j < n + p
      ensures GroupAll(g, s, t, j)
    {
      if j < n {
        assert GroupAll(g, s0, t0, j);
        LowGroup(g, n, s0, t0, s1, t1, j);
      } else {
        assert GroupAll(g, s1, t1, j - n);
        HighGroup(g, n, p, s0, t0, s1, t1, j);
      }
    }
  }

  lemma LowGroup(g: nat, n: nat, s0: IntByte, t0: IntByte, s1: IntByte, t1: IntByte, j: nat)
    requires |s0.v| == |t0.v| == n * g && |s0.np| == |t0.np| == n && j < n && GroupAll(g, s0, t0, j)
    ensures GroupAll(g, IntByte(s0.v + s1.v, s0.np + s1.np), IntByte(t0.v + t1.v, t0.np + t1.np), j)
  {
    var s, t := IntByte(s0.v + s1.v, s0.np + s1.np), IntByte(t0.v + t1.v, t0.np + t1.np);
    GroupInByte(j, n, g);
    forall r: nat | r < g ensures BitRefined(s, t, g, j, r) { assert BitRefined(s0, t0, g, j, r); }
  }

  lemma HighGroup(g: nat, n: nat, p: nat, s0: IntByte, t0: IntByte, s1: IntByte, t1: IntByte, j: nat)
    requires |s0.v| == |t0.v| == n * g && |s0.np| == |t0.np| == n && |s1.v| == |t1.v| == p * g && |s1.np| == |t1.np| == p
    requires n <= j < n + p && GroupAll(g, s1, t1, j - n)
    ensures GroupAll(g, IntByte(s0.v + s1.v, s0.np + s1.np), IntByte(t0.v + t1.v, t0.np + t1.np), j)
  {
    var s, t := IntByte(s0.v + s1.v, s0.np + s1.np), IntByte(t0.v + t1.v, t0.np + t1.np);
    GroupInByte(j - n, p, g);
    MinusMul(j, n, g);
    forall r: nat | r < g ensures BitRefined(s, t, g, j, r) { assert BitRefined(s1, t1, g, j - n, r); }
  }

  lemma MinusMul(j: nat, n: nat, g: nat)
    requires j >= n
    ensures (j - n) * g == j * g - n * g
  {
  }

  /** Refinement of one scalar value by another. */
  predicate ValRefined(s: Val, t: Val) {
    s.np.Flag? && t.np.Flag? && (s.np.b ==> t.np.b && s.value == t.value)
  }

  /** An element that starts at group `j0` and has `w` bits. */
  lemma ElementRefined(g: nat, n: nat, s: IntByte, t: IntByte, j0: nat, w: nat, m: nat)
    requires g > 0 && AllRefined(g, n, s, t) && |s.np| == |t.np| == n && |s.v| == |t.v| == n * g
    requires w > 0 && (m - 1) * g < w <= m * g && m > 0 && j0 + m <= n && j0 * g + w <= n * g
    ensures ValRefined(Val(s.v[j0 * g..j0 * g + w], Flag(AllOnes(s.np[j0..j0 + m]))), Val(t.v[j0 * g..j0 * g + w], Flag(AllOnes(t.np[j0..j0 + m]))))
  {
    var x, y := s.np[j0..j0 + m], t.np[j0..j0 + m];
    if AllOnes(x) {
      forall j: nat | j < m
        ensures x[j] && y[j]
      {
        assert x[j] in x;
        GroupInByte(j0 + j, n, g);
        assert GroupAll(g, s, t, j0 + j) && BitRefined(s, t, g, j0 + j, 0);
      }
      var u, z := s.v[j0 * g..j0 * g + w], t.v[j0 * g..j0 * g + w];
      forall k: nat | k < w
        ensures u[k] == z[k]
      {
        ElementBit(g, n, s, t, j0, w, m, k);
      }
      assert u == z;
    }
  }

  lemma ElementBit(g: nat, n: nat, s: IntByte, t: IntByte, j0: nat, w: nat, m: nat, k: nat)
    requires g > 0 && AllRefined(g, n, s, t) && |s.np| == |t.np| == n && |s.v| == |t.v| == n * g
    requires k < w <= m * g && j0 + m <= n && j0 * g + w <= n * g
    requires forall j :: j0 <= j < j0 + m ==> s.np[j]
    ensures s.v[j0 * g + k] == t.v[j0 * g + k]
  {
    BitInGroup(k, w, g, m);
    var j := k / g;
    GroupAt(s, t, g, n, j0, j, k % g, k);
  }

  lemma GroupAt(s: IntByte, t: IntByte, g: nat, n: nat, j0: nat, j: nat, r: nat, k: nat)
    requires AllRefined(g, n, s, t) && |s.np| == |t.np| == n && |s.v| == |t.v|
    requires j0 + j < n && s.np[j0 + j] && r < g && k == j * g + r && j0 * g + k < |s.v|
    ensures s.v[j0 * g + k] == t.v[j0 * g + k]
  {
    AddGroups(j0, j, g);
    assert GroupAll(g, s, t, j0 + j);
    assert BitRefined(s, t, g, j0 + j, r);
  }

  lemma AddGroups(a: nat, b: nat, g: nat)
    ensures (a + b) * g == a * g + b * g
  {
  }

  lemma BitInGroup(k: nat, w: nat, g: nat, m: nat)
    requires k < w <= m * g && g > 0
    ensures k / g < m && k == (k / g) * g + k % g && 0 <= k % g < g
  {
    var j := k / g;
    assert k == j * g + k % g;
    if j >= m { MulAtLeast(j, m, g); }
  }

  lemma MulAtLeast(a: nat, b: nat, g: nat)
    requires a >= b
    ensures a * g >= b * g
  {
    assert a * g == b * g + (a - b) * g;
  }

  lemma NpIntIs(cfg: Config, w: nat)
    requires Even(cfg) && w > 0
    ensures
      var m := NpInt(cfg, Scalar(w, false));
      m > 0 && (m - 1) * Group(cfg) < w <= m * Group(cfg)
  {
    GroupIs(cfg);
    var g, P, B := Group(cfg), cfg.poisonPerByte, cfg.bitsByte;
    CeilIs(w, g);
    CeilScaled(w, P, g, B, DivideUp(w, g));
    CeilSmall(w, g);
  }

  lemma CeilIs(a: nat, b: nat)
    requires a > 0 && b > 0
    ensures DivideUp(a, b) > 0 && (DivideUp(a, b) - 1) * b < a <= DivideUp(a, b) * b
  {
    var q := (a + b - 1) / b;
    assert a + b - 1 == q * b + (a + b - 1) % b;
    assert q == 0 ==> q * b == 0;
    assert (q - 1) * b == q * b - b;
  }

  lemma CeilUnique(c: int, q: int, b: nat, x: int)
    requires (c - 1) * b < x <= c * b && (q - 1) * b < x <= q * b
    ensures c == q
  {
    if c > q { MulAtLeastInt(c - 1, q, b); }
    if c < q { MulAtLeastInt(q - 1, c, b); }
  }

  lemma MulAtLeastInt(a: int, c: int, b: nat)
    requires a >= c
    ensures a * b >= c * b
  {
    assert a * b == c * b + (a - c) * b;
  }

  lemma CeilSmall(a: nat, b: nat)
    requires a > 0 && b > 0
    ensures DivideUp(a, b) <= a
  {
    CeilIs(a, b);
    AtLeastOnce(b, a);
    if DivideUp(a, b) > a { MulAtLeastInt(DivideUp(a, b) - 1, a, b); }
  }

  /** Rounding up after scaling both sides is the same. */
  lemma CeilScaled(w: nat, P: nat, g: nat, B: nat, q: nat)
    requires w > 0 && P > 0 && g > 0 && B == g * P && q > 0 && (q - 1) * g < w <= q * g
    ensures DivideUp(w * P, B) == q
  {
    AtLeastOnce(w, P);
    AtLeastOnce(g, P);
    CeilIs(w * P, B);
    Scaled(q, P, g, B);
    Scaled(q - 1, P, g, B);
    Swap(q, g, P);
    Swap(q - 1, g, P);
    MulAtLeastInt(q * g, w, P);
    MulAtLeastInt(w, (q - 1) * g + 1, P);
    AddOne((q - 1) * g, P);
    CeilUnique(DivideUp(w * P, B), q, B, w * P);
  }

  lemma Swap(q: nat, g: nat, p: nat)
    ensures (q * g) * p == (q * p) * g && p * g == g * p
  {
  }

  lemma AddOne(a: int, p: nat)
    ensures (a + 1) * p == a * p + p
  {
  }

  /** If all bytes are refined, so is every integer loaded from them. */
  lemma IntLoadRefined(cfg: Config, ss: seq<IntByte>, ts: seq<IntByte>, w: nat)
    requires Even(cfg) && BytesRefined(cfg, ss, ts) && w > 0 && w <= |ss| * cfg.bitsByte
    ensures
      var s, t, m := Whole(ss), Whole(ts), NpInt(cfg, Scalar(w, false));
      && w <= |s.v| && w <= |t.v| && m <= |s.np| && m <= |t.np|
      && ValRefined(FromInt(cfg, Scalar(w, false), s.v[..w], s.np[..m]), FromInt(cfg, Scalar(w, false), t.v[..w], t.np[..m]))
  {
    GroupIs(cfg);
    WholeSize(cfg, ss, |ss|);
    WholeSize(cfg, ts, |ts|);
    WholeRefined(cfg, ss, ts, |ss|);
    NpIntIs(cfg, w);
    var g, m, n := Group(cfg), NpInt(cfg, Scalar(w, false)), |ss| * cfg.poisonPerByte;
    Scaled(|ss|, g, cfg.poisonPerByte, cfg.bitsByte);
    if m > n { MulAtLeast(m - 1, n, g); }
    ElementRefined(g, n, Whole(ss), Whole(ts), 0, w, m);
  }

  lemma InsideVector(n: nat, w: nat, e: nat)
    requires e < n
    ensures e * w + w <= n * w
  {
    MulAtLeastInt(n, e + 1, w);
    AddOne(e, w);
  }

  lemma VectorNp(cfg: Config, n: nat, w: nat, m: nat)
    requires Even(cfg) && w > 0 && n > 0 && w == m * Group(cfg)
    ensures m > 0 && NpInt(cfg, Scalar(w, false)) == m && NpInt(cfg, VectorOf(n, w, false)) == n * m
  {
    GroupIs(cfg);
    NpIntIs(cfg, w);
    AddOne(m - 1, Group(cfg));
    CeilUnique(NpInt(cfg, Scalar(w, false)), m, Group(cfg), w);
    SumIntIs(cfg, n, w, m, n);
  }

  lemma {:induction false} SumIntIs(cfg: Config, n: nat, w: nat, m: nat, k: nat)
    requires cfg.bitsByte > 0 && NpInt(cfg, Scalar(w, false)) == m && k <= n
    ensures SumInt(cfg, VectorOf(n, w, false), k) == k * m
  {
    if k > 0 {
      SumIntIs(cfg, n, w, m, k - 1);
      AddOne(k - 1, m);
    }
  }

  lemma VectorElement(cfg: Config, n: nat, w: nat, m: nat, value: Bits, np: Bits, e: nat, from: nat, npFrom: nat)
    requires cfg.bitsByte > 0 && e < n && w > 0 && NpInt(cfg, Scalar(w, false)) == m
    requires Width(VectorOf(n, w, false)) == |value| == n * w && NpInt(cfg, VectorOf(n, w, false)) == |np| == n * m
    requires from == e * w && npFrom == e * m && from + w <= |value| && npFrom + m <= |np|
    ensures Fits(VectorOf(n, w, false), FromInt(cfg, VectorOf(n, w, false), value, np))
    ensures Extract(VectorOf(n, w, false), FromInt(cfg, VectorOf(n, w, false), value, np), e) ==
            Val(Piece(cfg, value, from, w), Flag(AllOnes(Piece(cfg, np, npFrom, m))))
  {
    FromIntFits(cfg, VectorOf(n, w, false), value, np);
    FromPartAt(cfg, VectorOf(n, w, false), value, np, n, e);
    VectorSums(n, w, false, e);
    SumIntIs(cfg, n, w, m, e);
    ExtractFrom(cfg, VectorOf(n, w, false), value, np, e);
  }

  lemma ExtractFrom(cfg: Config, ty: Type, value: Bits, np: Bits, e: nat)
    requires cfg.bitsByte > 0 && ty.Agg? && |value| == Width(ty) && |np| == NpInt(cfg, ty) && e < |ty.children|
    requires PartsFit(ty, FromParts(cfg, ty, value, np, |ty.children|))
    ensures Fits(ty, FromInt(cfg, ty, value, np))
    ensures Extract(ty, FromInt(cfg, ty, value, np), e) == FromParts(cfg, ty, value, np, |ty.children|)[e]
  {
    ExtractPack(ty, FromParts(cfg, ty, value, np, |ty.children|), e);
  }

  /** The place of an element counted from the low end. */
  function Low(cfg: Config, n: nat, e: nat): nat
    requires e < n
  {
    if cfg.little then e else n - 1 - e
  }

  /** Where the `w` bits of an element stand in the bits loaded. */
  predicate PlaceOk(cfg: Config, len: nat, w: nat, from: nat, at: nat) {
    from + w <= len && at == if cfg.little then from else len - from - w
  }

  lemma PlaceIs(cfg: Config, len: nat, n: nat, w: nat, e: nat, from: nat, at: nat)
    requires e < n && len == n * w && from == e * w && at == Low(cfg, n, e) * w
    ensures PlaceOk(cfg, len, w, from, at)
  {
    InsideVector(n, w, e);
    FromTop(n, w, e);
  }

  lemma FromTop(n: nat, w: nat, e: nat)
    requires e < n
    ensures n * w - e * w - w == (n - 1 - e) * w
  {
  }

  /** The sizes of a vector load, in groups: `k` poison bits were loaded, an element has `m`. */
  lemma VectorLoad(cfg: Config, ss: seq<IntByte>, ts: seq<IntByte>, n: nat, w: nat) returns (k: nat, m: nat)
    requires Even(cfg) && BytesRefined(cfg, ss, ts) && w > 0 && n > 0 && n * w <= |ss| * cfg.bitsByte
    requires w % Group(cfg) == 0
    ensures Group(cfg) > 0 && m > 0 && w == m * Group(cfg) && n * w <= k * Group(cfg)
    ensures NpInt(cfg, Scalar(w, false)) == m && NpInt(cfg, VectorOf(n, w, false)) == n * m && Width(VectorOf(n, w, false)) == n * w
    ensures |Whole(ss).np| == |Whole(ts).np| == k && |Whole(ss).v| == |Whole(ts).v| == k * Group(cfg)
    ensures AllRefined(Group(cfg), k, Whole(ss), Whole(ts))
  {
    GroupIs(cfg);
    k, m := |ss| * cfg.poisonPerByte, w / Group(cfg);
    assert w == m * Group(cfg);
    VectorNp(cfg, n, w, m);
    VectorSums(n, w, false, n);
    WholeSize(cfg, ss, |ss|);
    WholeSize(cfg, ts, |ts|);
    WholeRefined(cfg, ss, ts, |ss|);
    Scaled(|ss|, Group(cfg), cfg.poisonPerByte, cfg.bitsByte);
  }

  /** An element of a vector loaded from joined bytes. */
  function Element(cfg: Config, b: IntByte, n: nat, w: nat, e: nat): Option<Val>
    requires cfg.bitsByte > 0
  {
    var ty := VectorOf(n, w, false);
    if e < n && Width(ty) <= |b.v| && NpInt(cfg, ty) <= |b.np| then
      var x := FromInt(cfg, ty, b.v[..Width(ty)], b.np[..NpInt(cfg, ty)]);
      FromIntFits(cfg, ty, b.v[..Width(ty)], b.np[..NpInt(cfg, ty)]);
      Some(Extract(ty, x, e))
    else None
  }

  /** If all bytes are refined, so is every element of every vector of the program
      that is loaded from them. */
  lemma VectorLoadRefined(cfg: Config, types: seq<IrType>, ptrBits: nat, ss: seq<IntByte>, ts: seq<IntByte>, n: nat, w: nat, e: nat)
    requires Chosen(cfg, types, ptrBits) && OccursIn(types, w) && w > 0 && e < n
    requires Even(cfg) && BytesRefined(cfg, ss, ts) && n * w <= |ss| * cfg.bitsByte
    ensures
      var x, y := Element(cfg, Whole(ss), n, w, e), Element(cfg, Whole(ts), n, w, e);
      x.Some? && y.Some? && ValRefined(x.value, y.value)
  {
    ChosenAligned(cfg, types, ptrBits, w);
    AlignedLoadRefined(cfg, ss, ts, n, w, e);
  }

  /** The same where elements begin with a poison bit of their own. */
  lemma AlignedLoadRefined(cfg: Config, ss: seq<IntByte>, ts: seq<IntByte>, n: nat, w: nat, e: nat)
    requires Even(cfg) && BytesRefined(cfg, ss, ts) && w > 0 && e < n && n * w <= |ss| * cfg.bitsByte
    requires w % Group(cfg) == 0
    ensures
      var x, y := Element(cfg, Whole(ss), n, w, e), Element(cfg, Whole(ts), n, w, e);
      x.Some? && y.Some? && ValRefined(x.value, y.value)
  {
    var k, m := VectorLoad(cfg, ss, ts, n, w);
    ElementsRefined(cfg, Whole(ss), Whole(ts), k, n, w, m, e);
  }

  lemma ElementsRefined(cfg: Config, s: IntByte, t: IntByte, k: nat, n: nat, w: nat, m: nat, e: nat)
    requires cfg.poisonPerByte > 0 && cfg.bitsByte > 0 && Group(cfg) > 0 && m > 0 && w > 0 && e < n
    requires w == m * Group(cfg) && n * w <= k * Group(cfg) && NpInt(cfg, Scalar(w, false)) == m
    requires NpInt(cfg, VectorOf(n, w, false)) == n * m && Width(VectorOf(n, w, false)) == n * w
    requires |s.np| == |t.np| == k && |s.v| == |t.v| == k * Group(cfg) && AllRefined(Group(cfg), k, s, t)
    ensures
      var x, y := Element(cfg, s, n, w, e), Element(cfg, t, n, w, e);
      x.Some? && y.Some? && ValRefined(x.value, y.value)
  {
    var i := Low(cfg, n, e);
    ElementBounds(Group(cfg), k, n, w, m, i);
    PlaceIs(cfg, n * w, n, w, e, e * w, i * w);
    PlaceIs(cfg, n * m, n, m, e, e * m, i * m);
    SameElements(cfg, s, t, k, n, w, m, e, n * w, n * m, e * w, e * m, i * w, i * m);
  }

  lemma SameElements(cfg: Config, s: IntByte, t: IntByte, k: nat, n: nat, w: nat, m: nat, e: nat,
                     len: nat, npLen: nat, from: nat, npFrom: nat, at: nat, npAt: nat)
    requires cfg.poisonPerByte > 0 && cfg.bitsByte > 0 && Group(cfg) > 0 && e < n && w > 0 && m > 0
    requires NpInt(cfg, Scalar(w, false)) == m && (m - 1) * Group(cfg) < w <= m * Group(cfg)
    requires Width(VectorOf(n, w, false)) == len == n * w && NpInt(cfg, VectorOf(n, w, false)) == npLen == n * m
    requires |s.np| == |t.np| == k && |s.v| == |t.v| == k * Group(cfg) && AllRefined(Group(cfg), k, s, t)
    requires len <= |s.v| && npLen <= k && from == e * w && npFrom == e * m
    requires PlaceOk(cfg, len, w, from, at) && PlaceOk(cfg, npLen, m, npFrom, npAt)
    requires npAt * Group(cfg) == at && npAt + m <= k && at + w <= |s.v|
    ensures
      var x, y := Element(cfg, s, n, w, e), Element(cfg, t, n, w, e);
      x.Some? && y.Some? && ValRefined(x.value, y.value)
  {
    ElementAt(cfg, s, n, w, m, e, len, npLen, from, npFrom, at, npAt);
    ElementAt(cfg, t, n, w, m, e, len, npLen, from, npFrom, at, npAt);
    ElementRefined(Group(cfg), k, s, t, npAt, w, m);
  }

  lemma ElementAt(cfg: Config, b: IntByte, n: nat, w: nat, m: nat, e: nat, len: nat, npLen: nat,
                  from: nat, npFrom: nat, at: nat, npAt: nat)
    requires cfg.bitsByte > 0 && e < n && w > 0 && NpInt(cfg, Scalar(w, false)) == m
    requires Width(VectorOf(n, w, false)) == len == n * w && len <= |b.v|
    requires NpInt(cfg, VectorOf(n, w, false)) == npLen == n * m && npLen <= |b.np|
    requires from == e * w && npFrom == e * m && PlaceOk(cfg, len, w, from, at) && PlaceOk(cfg, npLen, m, npFrom, npAt)
    ensures Element(cfg, b, n, w, e) == Some(Val(b.v[at..at + w], Flag(AllOnes(b.np[npAt..npAt + m]))))
  {
    VectorElement(cfg, n, w, m, b.v[..len], b.np[..npLen], e, from, npFrom);
    PieceAt(cfg, b.v, len, w, from, at);
    PieceAt(cfg, b.np, npLen, m, npFrom, npAt);
  }

  lemma PieceAt(cfg: Config, v: Bits, len: nat, w: nat, from: nat, at: nat)
    requires len <= |v| && PlaceOk(cfg, len, w, from, at)
    ensures Piece(cfg, v[..len], from, w) == v[at..at + w]
  {
  }

  lemma ElementBounds(g: nat, k: nat, n: nat, w: nat, m: nat, i: nat)
    requires g > 0 && m > 0 && w == m * g && n * w <= k * g && i < n
    ensures n * m <= k && (i * m) * g == i * w && i * m + m <= k && i * w + w <= k * g && (m - 1) * g < w
  {
    Scaled(n, g, m, w);
    if n * m > k { MulAtLeastInt(n * m - 1, k, g); AddOne(n * m - 1, g); }
    Scaled(i, g, m, w);
    AddOne(m - 1, g);
    InsideVector(n, m, i);
    InsideVector(n, w, i);
  }
}
