/** How many poison bits a byte of memory gets (tools/transform.cpp): enough that
    the poison bits of every vector element of the program fill whole bits of bytes. */
module Granularity {
  import opened Aggregates
  import opened BitVectors

  // ---------------------------------------------------------------------
  // Divisors
  // ---------------------------------------------------------------------

  ghost predicate Divides(d: nat, x: nat) {
    exists k: nat :: Times(k, d, x)
  }

  predicate Times(k: nat, d: nat, x: nat) { k * d == x }

  /** `std::gcd` */
  function Gcd(a: nat, b: nat): (g: nat)
    ensures b > 0 ==> g > 0
    decreases b
  {
    if b == 0 then a else Gcd(b, a % b)
  }

  /** The divisors of the greatest common divisor are the common divisors. */
  lemma {:induction false} GcdIff(a: nat, b: nat, d: nat)
    ensures Divides(d, Gcd(a, b)) <==> Divides(d, a) && Divides(d, b)
    decreases b
  {
    assert Times(0, d, 0);
    if b > 0 {
      GcdIff(b, a % b, d);
      DivMod(a, b);
      if Divides(d, b) {
        if Divides(d, a % b) { DividesSum(d, a / b, b, a % b); }
        if Divides(d, a) { DividesRest(d, a / b, b, a % b); }
      }
    }
  }

  lemma DivMod(a: nat, b: nat)
    requires b > 0
    ensures a == a / b * b + a % b
  {
  }

  lemma DividesSum(d: nat, q: nat, b: nat, r: nat)
    requires Divides(d, b) && Divides(d, r)
    ensures Divides(d, q * b + r)
  {
    var k: nat :| Times(k, d, b);
    var l: nat :| Times(l, d, r);
    assert q * (k * d) == (q * k) * d;
    assert (q * k + l) * d == (q * k) * d + l * d;
    assert Times(q * k + l, d, q * b + r);
  }

  lemma DividesRest(d: nat, q: nat, b: nat, r: nat)
    requires Divides(d, b) && Divides(d, q * b + r)
    ensures Divides(d, r)
  {
    var k: nat :| Times(k, d, b);
    var l: nat :| Times(l, d, q * b + r);
    assert q * (k * d) == (q * k) * d;
    assert (l - q * k) * d == l * d - (q * k) * d;
    if l < q * k {
      if d > 0 { Negative(q * k - l, d); }
      assert Times(0, d, r);
    } else {
      assert Times(l - q * k, d, r);
    }
  }

  lemma Negative(x: nat, d: nat)
    requires x > 0 && d > 0
    ensures x * d > 0
  {
  }

  lemma DividesTrans(d: nat, e: nat, x: nat)
    requires Divides(d, e) && Divides(e, x)
    ensures Divides(d, x)
  {
    var k: nat :| Times(k, d, e);
    var l: nat :| Times(l, e, x);
    assert l * (k * d) == (l * k) * d;
    assert Times(l * k, d, x);
  }

  lemma DividesSelf(x: nat)
    ensures Divides(x, x)
  {
    assert Times(1, x, x);
  }

  // ---------------------------------------------------------------------
  // The least element width
  // ---------------------------------------------------------------------

  /** The types of a program; arrays are structs of equal fields. */
  datatype IrType = Int(width: nat) | Ptr | Vector(count: nat, width: nat, ofPtrs: bool) | Struct(fields: seq<IrType>)

  /** `d` divides the element width of every vector in the type; a pointer element
      counts with the width of a pointer in the program. */
  ghost predicate DividesAll(t: IrType, ptrBits: nat, d: nat) {
    match t
    case Int(_) => true
    case Ptr => true
    case Vector(_, w, ofPtrs) => Divides(d, if ofPtrs then ptrBits else w)
    case Struct(fs) => forall i :: 0 <= i < |fs| ==> DividesAll(fs[i], ptrBits, d)
  }

  /** `minVectorElemSize` */
  method MinVectorElemSize(t: IrType, ptrBits: nat) returns (m: nat)
    ensures forall d: nat :: Divides(d, m) <==> DividesAll(t, ptrBits, d)
    decreases t
  {
    ghost var zero := 0;
    forall d: nat ensures Divides(d, zero) { assert Times(0, d, zero); }
    match t
    case Int(_) => m := 0;
    case Ptr => m := 0;
    case Vector(_, w, ofPtrs) => m := if ofPtrs then ptrBits else w;
    case Struct(fs) =>
      m := 0;
      for i := 0 to |fs|
        invariant forall d: nat :: Divides(d, m) <==> forall j :: 0 <= j < i ==> DividesAll(fs[j], ptrBits, d)
      {
        var c := MinVectorElemSize(fs[i], ptrBits);
        m := Folded(m, c);
      }
  }

  /** One more width; 0 stands for none. */
  function Folded(m: nat, c: nat): (r: nat)
    ensures forall d: nat :: Divides(d, r) <==> Divides(d, m) && Divides(d, c)
  {
    FoldedIff(m, c);
    if c == 0 then m else if m == 0 then c else Gcd(m, c)
  }

  lemma FoldedIff(m: nat, c: nat)
    ensures forall d: nat :: Divides(d, 0)
    ensures forall d: nat :: Divides(d, Gcd(m, c)) <==> Divides(d, m) && Divides(d, c)
  {
    forall d: nat ensures Divides(d, 0) { assert Times(0, d, 0); }
    forall d: nat
      ensures Divides(d, Gcd(m, c)) <==> Divides(d, m) && Divides(d, c)
    {
      GcdIff(m, c, d);
    }
  }

  /** `m` is the greatest common divisor of the element widths, 0 without vectors. */
  ghost predicate LeastWidth(ts: seq<IrType>, ptrBits: nat, m: nat) {
    forall d: nat :: Divides(d, m) <==> forall i :: 0 <= i < |ts| ==> DividesAll(ts[i], ptrBits, d)
  }

  /** `min_vect_elem_sz`: folded over the types of all inputs, operands and results. */
  method MinOverTypes(ts: seq<IrType>, ptrBits: nat) returns (m: nat)
    ensures LeastWidth(ts, ptrBits, m)
  {
    m := 0;
    forall d: nat ensures Divides(d, 0) { assert Times(0, d, 0); }
    for i := 0 to |ts|
      invariant forall d: nat :: Divides(d, m) <==> forall j :: 0 <= j < i ==> DividesAll(ts[j], ptrBits, d)
    {
      var c := MinVectorElemSize(ts[i], ptrBits);
      m := Folded(m, c);
    }
  }

  // ---------------------------------------------------------------------
  // The choice
  // ---------------------------------------------------------------------

  /** `bits_poison_per_byte` */
  function PoisonPerByte(bitsByte: nat, m: nat): nat {
    if m == 0 then 1
    else if m % 8 != 0 then bitsByte
    else bitsByte / Gcd(bitsByte, m)
  }

  /** The configuration is the one the program gets for its types. */
  ghost predicate Chosen(cfg: Config, ts: seq<IrType>, ptrBits: nat) {
    cfg.bitsByte > 0 && exists m: nat :: LeastWidth(ts, ptrBits, m) && cfg.poisonPerByte == PoisonPerByte(cfg.bitsByte, m)
  }

  /** Octets per byte are the greatest common divisor of all access sizes. */
  method Choose(ts: seq<IrType>, ptrBits: nat, minAccess: nat, little: bool) returns (cfg: Config)
    requires minAccess > 0
    ensures Chosen(cfg, ts, ptrBits) && cfg.bitsByte == 8 * minAccess && cfg.little == little
  {
    var m := MinOverTypes(ts, ptrBits);
    cfg := Config(PoisonPerByte(8 * minAccess, m), 8 * minAccess, little);
  }

  /** Bits that share one poison bit. */
  function Group(cfg: Config): nat
    requires cfg.poisonPerByte > 0
  {
    cfg.bitsByte / cfg.poisonPerByte
  }

  /** Poison bits divide a byte evenly. */
  ghost predicate Even(cfg: Config) {
    ConfigOk(cfg) && cfg.bitsByte % cfg.poisonPerByte == 0
  }

  /** The choice is even. */
  lemma ChosenEven(cfg: Config, ts: seq<IrType>, ptrBits: nat)
    requires Chosen(cfg, ts, ptrBits)
    ensures Even(cfg) && Group(cfg) * cfg.poisonPerByte == cfg.bitsByte
  {
    var m: nat :| LeastWidth(ts, ptrBits, m) && cfg.poisonPerByte == PoisonPerByte(cfg.bitsByte, m);
    if m != 0 && m % 8 == 0 {
      GcdQuotient(cfg.bitsByte, m);
    } else if m == 0 {
      Quotient(cfg.bitsByte, 1);
    }
  }

  lemma GcdQuotient(b: nat, m: nat)
    requires b > 0 && m > 0
    ensures
      var g := Gcd(b, m);
      g > 0 && 0 < b / g <= b && b % (b / g) == 0 && b / (b / g) == g && g * (b / g) == b
  {
    var g := Gcd(b, m);
    DividesSelf(g);
    GcdIff(b, m, g);
    var k: nat :| Times(k, g, b);
    Quotient(k, g);
    WholeFits(k, g);
  }

  lemma WholeFits(k: nat, g: nat)
    requires g > 0 && k * g > 0
    ensures 0 < k <= k * g && (k * g) % k == 0 && k * g / k == g && g * k == k * g
  {
    assert k != 0;
    Quotient(g, k);
    assert k * g == k + k * (g - 1);
  }

  lemma Quotient(k: nat, g: nat)
    requires g > 0
    ensures k * g / g == k && (k * g) % g == 0
  {
    ModIs(k * g, g, k);
    DivMod(k * g, g);
    assert (k - k * g / g) * g == 0;
    NoMultiple(k - k * g / g, g);
  }

  /** A vector of integers of width `w` occurs in the type. */
  ghost predicate Occurs(t: IrType, w: nat) {
    match t
    case Vector(_, x, ofPtrs) => !ofPtrs && x == w
    case Struct(fs) => exists i :: 0 <= i < |fs| && Occurs(fs[i], w)
    case _ => false
  }

  ghost predicate OccursIn(ts: seq<IrType>, w: nat) {
    exists i :: 0 <= i < |ts| && Occurs(ts[i], w)
  }

  lemma {:induction false} OccursDivides(t: IrType, ptrBits: nat, d: nat, w: nat)
    requires DividesAll(t, ptrBits, d) && Occurs(t, w)
    ensures Divides(d, w)
    decreases t
  {
    if t.Struct? {
      var i :| 0 <= i < |t.fields| && Occurs(t.fields[i], w);
      OccursDivides(t.fields[i], ptrBits, d, w);
    }
  }

  /** The bits that share a poison bit divide the element width of every vector of
      the program, so the poison bits of an element are whole ones. */
  lemma ChosenAligned(cfg: Config, ts: seq<IrType>, ptrBits: nat, w: nat)
    requires Chosen(cfg, ts, ptrBits) && OccursIn(ts, w) && w > 0
    ensures Even(cfg) && Group(cfg) > 0
    ensures w % Group(cfg) == 0 && (w * cfg.poisonPerByte) % cfg.bitsByte == 0
  {
    ChosenEven(cfg, ts, ptrBits);
    var m: nat :| LeastWidth(ts, ptrBits, m) && cfg.poisonPerByte == PoisonPerByte(cfg.bitsByte, m);
    var i :| 0 <= i < |ts| && Occurs(ts[i], w);
    LeastDivides(ts, ptrBits, m, i, w);
    GroupDivides(cfg, m);
    DividesTrans(Group(cfg), m, w);
    AlignedBits(Group(cfg), cfg.poisonPerByte, cfg.bitsByte, w);
  }

  lemma AlignedBits(g: nat, p: nat, b: nat, w: nat)
    requires g > 0 && b > 0 && g * p == b && Divides(g, w)
    ensures w % g == 0 && (w * p) % b == 0
  {
    var k: nat :| Times(k, g, w);
    Quotient(k, g);
    assert (k * g) * p == k * (g * p);
    Quotient(k, b);
  }

  /** With a vector in the program the least width is not 0 and divides its elements. */
  lemma LeastDivides(ts: seq<IrType>, ptrBits: nat, m: nat, i: nat, w: nat)
    requires LeastWidth(ts, ptrBits, m) && i < |ts| && Occurs(ts[i], w) && w > 0
    ensures Divides(m, w) && m > 0
  {
    DividesSelf(m);
    OccursDivides(ts[i], ptrBits, m, w);
    var k: nat :| Times(k, m, w);
  }

  /** The bits of one poison bit divide the least width. */
  lemma GroupDivides(cfg: Config, m: nat)
    requires m > 0 && cfg.bitsByte > 0 && cfg.poisonPerByte == PoisonPerByte(cfg.bitsByte, m)
    requires cfg.poisonPerByte > 0
    ensures Divides(Group(cfg), m) && Group(cfg) > 0
  {
    if m % 8 == 0 {
      GcdQuotient(cfg.bitsByte, m);
      DividesSelf(Gcd(cfg.bitsByte, m));
      GcdIff(cfg.bitsByte, m, Gcd(cfg.bitsByte, m));
    } else {
      Quotient(1, cfg.bitsByte);
      assert Times(m, 1, m);
    }
  }

  /** A vector of integers with elements of width `w`. */
  ghost predicate IsVector(ty: Type, n: nat, w: nat) {
    n > 0 && w > 0 && ty == VectorOf(n, w, false)
  }

  /** What is encoded as one value: an integer, or a vector of integers of the program. */
  ghost predicate Encodable(ts: seq<IrType>, ty: Type) {
    || (ty.Scalar? && !ty.isPtr && ty.width > 0)
    || exists n: nat, w: nat :: IsVector(ty, n, w) && OccursIn(ts, w)
  }
}
