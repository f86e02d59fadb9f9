/** Packing of nested aggregates into bit-vectors: `AggregateType::aggregateVals`,
    `extract`, `toInt`, `fromInt`, and the instructions `insertvalue` and
    `extractvalue` on top of them. */
module Aggregates {
  import opened BitVectors

  /** A type: a scalar (never of width 0), or an aggregate whose children may be padding. */
  datatype Type = Scalar(width: nat, isPtr: bool) | Agg(children: seq<Child>)

  datatype Child = Child(ty: Type, padding: bool)

  /** The non-poison part of a value: one truth value, or bits. */
  datatype Np = Flag(b: bool) | Vec(bits: Bits)

  datatype Val = Val(value: Bits, np: Np)

  /** How poison is kept in memory: poison bits per byte, bits per byte, byte order. */
  datatype Config = Config(poisonPerByte: nat, bitsByte: nat, little: bool)

  ghost predicate TypeOk(ty: Type) {
    match ty
    case Scalar(w, _) => w > 0
    case Agg(cs) => forall i :: 0 <= i < |cs| ==> TypeOk(cs[i].ty)
  }

  // ---------------------------------------------------------------------
  // Sizes
  // ---------------------------------------------------------------------

  /** `bits` */
  function Width(ty: Type): nat {
    match ty
    case Scalar(w, _) => w
    case Agg(cs) => if cs == [] then 1 else SumWidth(ty, |cs|)
  }

  function SumWidth(ty: Type, n: nat): nat
    requires ty.Agg? && n <= |ty.children|
    decreases ty, 0, n
  {
    if n == 0 then 0 else SumWidth(ty, n - 1) + Width(ty.children[n - 1].ty)
  }

  function DivideUp(a: nat, b: nat): nat
    requires b > 0
  {
    (a + b - 1) / b
  }

  function Min(a: nat, b: nat): nat { if a < b then a else b }

  /** `np_bits(false)`: in the packed form. */
  function NpWidth(ty: Type): nat {
    match ty
    case Scalar(_, _) => 1
    case Agg(cs) => if cs == [] then 1 else SumNp(ty, |cs|)
  }

  function SumNp(ty: Type, n: nat): nat
    requires ty.Agg? && n <= |ty.children|
    decreases ty, 0, n
  {
    if n == 0 then 0 else SumNp(ty, n - 1) + NpWidth(ty.children[n - 1].ty)
  }

  // ---------------------------------------------------------------------
  // Packing
  // ---------------------------------------------------------------------

  function Zeros(n: nat): Bits { seq(n, _ => false) }

  /** `concat`: the first argument is the high part. */
  function Concat(hi: Bits, lo: Bits): Bits { lo + hi }

  function NpBits(np: Np): Bits { if np.Flag? then [np.b] else np.bits }

  /** `toBV`: a truth value becomes one bit. */
  function ToBV(v: Val): (Bits, Bits) { (v.value, NpBits(v.np)) }

  function AllOnes(v: Bits): bool { false !in v }

  /** `fromBV` */
  function FromBV(ty: Type, value: Bits, np: Bits): Val {
    Val(value, if ty.Scalar? then Flag(AllOnes(np)) else Vec(np))
  }

  /** A value of the widths of its type. */
  ghost predicate Fits(ty: Type, v: Val) {
    |v.value| == Width(ty) && (ty.Scalar? <==> v.np.Flag?) && |NpBits(v.np)| == NpWidth(ty)
  }

  lemma BVRoundTrip(ty: Type, v: Val)
    requires Fits(ty, v)
    ensures FromBV(ty, ToBV(v).0, ToBV(v).1) == v
  {
  }

  /** The first `n` bit-vectors, earlier ones in higher bits. */
  function Cat(xs: seq<Bits>, n: nat): Bits
    requires n <= |xs|
  {
    if n == 0 then [] else Concat(Cat(xs, n - 1), xs[n - 1])
  }

  function Len(xs: seq<Bits>, n: nat): nat
    requires n <= |xs|
  {
    if n == 0 then 0 else Len(xs, n - 1) + |xs[n - 1]|
  }

  lemma {:induction false} CatLen(xs: seq<Bits>, m: nat, n: nat)
    requires m <= n <= |xs|
    ensures |Cat(xs, n)| == Len(xs, n) && Len(xs, m) <= Len(xs, n)
    decreases n
  {
    if m < n { CatLen(xs, m, n - 1); } else if n > 0 { CatLen(xs, n - 1, n - 1); }
  }

  /** Where the i-th one is. */
  lemma {:induction false} CatSlice(xs: seq<Bits>, n: nat, i: nat)
    requires i < n <= |xs|
    ensures |Cat(xs, n)| == Len(xs, n) && Len(xs, i) + |xs[i]| <= Len(xs, n)
    ensures Cat(xs, n)[Len(xs, n) - Len(xs, i) - |xs[i]|..Len(xs, n) - Len(xs, i)] == xs[i]
  {
    CatLen(xs, i + 1, n);
    CatLen(xs, n - 1, n - 1);
    if i < n - 1 {
      CatSlice(xs, n - 1, i);
      CatLen(xs, i, n - 1);
      Shifted(xs[n - 1], Cat(xs, n - 1), Len(xs, n - 1) - Len(xs, i) - |xs[i]|, Len(xs, n - 1) - Len(xs, i));
    }
  }

  lemma Shifted(lo: Bits, hi: Bits, a: nat, b: nat)
    requires a <= b <= |hi|
    ensures (lo + hi)[|lo| + a..|lo| + b] == hi[a..b]
  {
  }

  function Values(parts: seq<Val>): seq<Bits> { seq(|parts|, i requires 0 <= i < |parts| => ToBV(parts[i]).0) }
  function Nps(parts: seq<Val>): seq<Bits> { seq(|parts|, i requires 0 <= i < |parts| => ToBV(parts[i]).1) }

  /** The packed value of one part for each child. */
  function Pack(ty: Type, parts: seq<Val>): Val
    requires ty.Agg?
  {
    if ty.children == [] then Val([false], Vec([false]))
    else Val(Cat(Values(parts), |parts|), Vec(Cat(Nps(parts), |parts|)))
  }

  /** `getDummyValue` */
  function Dummy(ty: Type, np: bool): Val
    decreases ty, 1
  {
    match ty
    case Scalar(w, _) => Val(Zeros(w), Flag(np))
    case Agg(cs) => Pack(ty, DummyParts(ty, np, |cs|))
  }

  function DummyParts(ty: Type, np: bool, n: nat): (s: seq<Val>)
    requires ty.Agg? && n <= |ty.children|
    ensures |s| == n
    decreases ty, 0, n
  {
    if n == 0 then []
    else DummyParts(ty, np, n - 1) + [Dummy(ty.children[n - 1].ty, np && !ty.children[n - 1].padding)]
  }

  /** One part for each of the first `n` children: the given values in turn, poison for padding. */
  function Fill(ty: Type, vals: seq<Val>, n: nat): (s: seq<Val>)
    requires ty.Agg? && n <= |ty.children| && NonPadding(ty, n) <= |vals|
    ensures |s| == n
  {
    if n == 0 then []
    else
      var c := ty.children[n - 1];
      Fill(ty, vals, n - 1) + [if c.padding then Dummy(c.ty, false) else vals[NonPadding(ty, n - 1)]]
  }

  /** The number of children among the first `n` that are not padding. */
  function NonPadding(ty: Type, n: nat): (k: nat)
    requires ty.Agg? && n <= |ty.children|
    ensures k <= n
  {
    if n == 0 then 0 else NonPadding(ty, n - 1) + if ty.children[n - 1].padding then 0 else 1
  }

  /** `aggregateVals` */
  method AggregateVals(ty: Type, vals: seq<Val>) returns (r: Val)
    requires ty.Agg? && |vals| == NonPadding(ty, |ty.children|)
    ensures r == Pack(ty, Fill(ty, vals, |ty.children|))
  {
    if ty.children == [] {
      return Val([false], Vec([false]));
    }
    var value, np: Bits := [], [];
    var used := 0;
    ghost var parts := Fill(ty, vals, |ty.children|);
    for idx := 0 to |ty.children|
      invariant used == NonPadding(ty, idx) && NonPadding(ty, idx) <= |vals|
      invariant parts[..idx] == Fill(ty, vals, idx)
      invariant value == Cat(Values(parts), idx) && np == Cat(Nps(parts), idx)
    {
      FillPrefix(ty, vals, idx + 1, |ty.children|);
      NonPaddingGrows(ty, idx + 1, |ty.children|);
      var c := ty.children[idx];
      var v: Val;
      if c.padding {
        v := Dummy(c.ty, false);
      } else {
        v := vals[used];
        used := used + 1;
      }
      assert v == parts[..idx + 1][idx];
      var bv := ToBV(v);
      value, np := Concat(value, bv.0), Concat(np, bv.1);
    }
    r := Val(value, Vec(np));
  }

  lemma {:induction false} NonPaddingGrows(ty: Type, m: nat, n: nat)
    requires ty.Agg? && m <= n <= |ty.children|
    ensures NonPadding(ty, m) <= NonPadding(ty, n)
  {
    if m < n { NonPaddingGrows(ty, m, n - 1); }
  }

  lemma {:induction false} FillPrefix(ty: Type, vals: seq<Val>, m: nat, n: nat)
    requires ty.Agg? && m <= n <= |ty.children| && NonPadding(ty, n) <= |vals|
    ensures NonPadding(ty, m) <= |vals| && Fill(ty, vals, n)[..m] == Fill(ty, vals, m)
  {
    NonPaddingGrows(ty, m, n);
    if m < n { FillPrefix(ty, vals, m, n - 1); }
  }

  // ---------------------------------------------------------------------
  // Extracting
  // ---------------------------------------------------------------------

  /** The bits of child `i` in a packed value. */
  function ValueBits(ty: Type, v: Val, i: nat): (r: Bits)
    requires ty.Agg? && i < |ty.children| && Fits(ty, v)
    ensures |r| == Width(ty.children[i].ty)
  {
    SumGrows(ty, i + 1, |ty.children|);
    var h := Width(ty) - SumWidth(ty, i);
    v.value[h - Width(ty.children[i].ty)..h]
  }

  function PoisonBits(ty: Type, v: Val, i: nat): (r: Bits)
    requires ty.Agg? && i < |ty.children| && Fits(ty, v)
    ensures |r| == NpWidth(ty.children[i].ty)
  {
    SumGrows(ty, i + 1, |ty.children|);
    var h := NpWidth(ty) - SumNp(ty, i);
    v.np.bits[h - NpWidth(ty.children[i].ty)..h]
  }

  /** `extract` of child `i` of a packed value. */
  function Extract(ty: Type, v: Val, i: nat): (r: Val)
    requires ty.Agg? && i < |ty.children| && Fits(ty, v)
  {
    FromBV(ty.children[i].ty, ValueBits(ty, v, i), PoisonBits(ty, v, i))
  }

  lemma {:induction false} SumGrows(ty: Type, m: nat, n: nat)
    requires ty.Agg? && m <= n <= |ty.children|
    ensures SumWidth(ty, m) <= SumWidth(ty, n) && SumNp(ty, m) <= SumNp(ty, n)
  {
    if m < n { SumGrows(ty, m, n - 1); }
  }

  lemma ExtractFits(ty: Type, v: Val, i: nat)
    requires ty.Agg? && i < |ty.children| && Fits(ty, v)
    ensures Fits(ty.children[i].ty, Extract(ty, v, i))
  {
    if ty.children[i].ty.Scalar? { assert NpWidth(ty.children[i].ty) == 1; }
  }

  ghost predicate PartsFit(ty: Type, parts: seq<Val>)
    requires ty.Agg?
  {
    |parts| == |ty.children| && forall i :: 0 <= i < |parts| ==> Fits(ty.children[i].ty, parts[i])
  }

  lemma {:induction false} PackedSize(ty: Type, parts: seq<Val>, n: nat)
    requires ty.Agg? && PartsFit(ty, parts) && n <= |parts|
    ensures Len(Values(parts), n) == SumWidth(ty, n) && Len(Nps(parts), n) == SumNp(ty, n)
  {
    if n > 0 { PackedSize(ty, parts, n - 1); }
  }

  lemma PackFits(ty: Type, parts: seq<Val>)
    requires ty.Agg? && PartsFit(ty, parts)
    ensures Fits(ty, Pack(ty, parts))
  {
    PackedSize(ty, parts, |parts|);
    CatLen(Values(parts), |parts|, |parts|);
    CatLen(Nps(parts), |parts|, |parts|);
  }

  /** `extract` undoes `aggregateVals`. */
  lemma ExtractPack(ty: Type, parts: seq<Val>, i: nat)
    requires ty.Agg? && PartsFit(ty, parts) && i < |parts|
    ensures Fits(ty, Pack(ty, parts)) && Extract(ty, Pack(ty, parts), i) == parts[i]
  {
    PackFits(ty, parts);
    PackedBits(ty, parts, i);
    BVRoundTrip(ty.children[i].ty, parts[i]);
  }

  lemma PackedBits(ty: Type, parts: seq<Val>, i: nat)
    requires ty.Agg? && PartsFit(ty, parts) && i < |parts| && Fits(ty, Pack(ty, parts))
    ensures ValueBits(ty, Pack(ty, parts), i) == ToBV(parts[i]).0
    ensures PoisonBits(ty, Pack(ty, parts), i) == ToBV(parts[i]).1
  {
    PackedValue(ty, parts, i);
    PackedPoison(ty, parts, i);
  }

  lemma SameSlice(v: Bits, x: Bits, h: int, w: int, h2: int, w2: int)
    requires h == h2 && w == w2 && 0 <= h - w <= h <= |v| && v[h - w..h] == x
    ensures 0 <= h2 - w2 <= h2 <= |v| && v[h2 - w2..h2] == x
  {
  }

  lemma PackedValue(ty: Type, parts: seq<Val>, i: nat)
    requires ty.Agg? && PartsFit(ty, parts) && i < |parts| && Fits(ty, Pack(ty, parts))
    ensures ValueBits(ty, Pack(ty, parts), i) == Values(parts)[i]
  {
    PackedSize(ty, parts, i);
    var value := Pack(ty, parts).value;
    SliceIs(Values(parts), value, i);
    assert Fits(ty.children[i].ty, parts[i]);
    SameSlice(value, Values(parts)[i], |value| - Len(Values(parts), i), |Values(parts)[i]|, Width(ty) - SumWidth(ty, i), Width(ty.children[i].ty));
  }

  lemma PackedPoison(ty: Type, parts: seq<Val>, i: nat)
    requires ty.Agg? && PartsFit(ty, parts) && i < |parts| && Fits(ty, Pack(ty, parts))
    ensures PoisonBits(ty, Pack(ty, parts), i) == Nps(parts)[i]
  {
    PackedSize(ty, parts, i);
    var np := Pack(ty, parts).np.bits;
    SliceIs(Nps(parts), np, i);
    assert Fits(ty.children[i].ty, parts[i]);
    SameSlice(np, Nps(parts)[i], |np| - Len(Nps(parts), i), |Nps(parts)[i]|, NpWidth(ty) - SumNp(ty, i), NpWidth(ty.children[i].ty));
  }

  lemma SliceIs(xs: seq<Bits>, v: Bits, i: nat)
    requires i < |xs| && v == Cat(xs, |xs|)
    ensures |v| == Len(xs, |xs|) && Len(xs, i) + |xs[i]| <= |v|
    ensures v[|v| - Len(xs, i) - |xs[i]|..|v| - Len(xs, i)] == xs[i]
  {
    CatSlice(xs, |xs|, i);
  }

  /** All parts of a packed value. */
  function Parts(ty: Type, v: Val, n: nat): (s: seq<Val>)
    requires ty.Agg? && n <= |ty.children| && Fits(ty, v)
    ensures |s| == n && forall i :: 0 <= i < n ==> s[i] == Extract(ty, v, i)
  {
    if n == 0 then [] else Parts(ty, v, n - 1) + [Extract(ty, v, n - 1)]
  }

  /** Piece `i` of `xs` is the next one from the top of `v`. */
  ghost predicate IsPiece(v: Bits, xs: seq<Bits>, i: nat)
    requires i < |xs|
  {
    Len(xs, i) + |xs[i]| <= |v| && xs[i] == v[|v| - Len(xs, i) - |xs[i]|..|v| - Len(xs, i)]
  }

  lemma Paste(v: Bits, a: nat, b: nat)
    requires a <= b <= |v|
    ensures v[a..b] + v[b..] == v[a..]
  {
  }

  /** Cutting bits into pieces from the top and joining them again. */
  lemma {:induction false} CatPieces(v: Bits, xs: seq<Bits>, n: nat)
    requires n <= |xs| && forall i {:trigger IsPiece(v, xs, i)} :: 0 <= i < |xs| ==> IsPiece(v, xs, i)
    ensures Len(xs, n) <= |v| && Cat(xs, n) == v[|v| - Len(xs, n)..]
  {
    if n > 0 {
      CatPieces(v, xs, n - 1);
      assert IsPiece(v, xs, n - 1);
      Paste(v, |v| - Len(xs, n - 1) - |xs[n - 1]|, |v| - Len(xs, n - 1));
    }
  }

  /** The empty aggregate has one value. */
  ghost predicate EmptyOk(ty: Type, v: Val) {
    ty == Agg([]) ==> v == Val([false], Vec([false]))
  }

  /** Packing all parts of an aggregate gives it back. */
  lemma PackParts(ty: Type, v: Val)
    requires ty.Agg? && Fits(ty, v) && EmptyOk(ty, v)
    ensures PartsFit(ty, Parts(ty, v, |ty.children|)) && Pack(ty, Parts(ty, v, |ty.children|)) == v
  {
    var parts := Parts(ty, v, |ty.children|);
    forall i | 0 <= i < |ty.children| ensures Fits(ty.children[i].ty, parts[i]) { ExtractFits(ty, v, i); }
    if ty.children != [] {
      forall i: nat | i < |ty.children|
        ensures IsPiece(v.value, Values(parts), i) && IsPiece(v.np.bits, Nps(parts), i)
      {
        PieceIs(ty, v, parts, i);
      }
      JoinPieces(ty, v, parts);
    }
  }

  lemma JoinPieces(ty: Type, v: Val, parts: seq<Val>)
    requires ty.Agg? && ty.children != [] && Fits(ty, v) && PartsFit(ty, parts)
    requires forall i {:trigger IsPiece(v.value, Values(parts), i)} :: 0 <= i < |parts| ==> IsPiece(v.value, Values(parts), i)
    requires forall i {:trigger IsPiece(v.np.bits, Nps(parts), i)} :: 0 <= i < |parts| ==> IsPiece(v.np.bits, Nps(parts), i)
    ensures Pack(ty, parts) == v
  {
    PackedSize(ty, parts, |parts|);
    CatPieces(v.value, Values(parts), |parts|);
    CatPieces(v.np.bits, Nps(parts), |parts|);
  }

  lemma OneBit(np: Bits)
    requires |np| == 1
    ensures [AllOnes(np)] == np
  {
    assert np == [np[0]];
    if np[0] { assert AllOnes(np); } else { assert np[0] in np; }
  }

  lemma PieceIs(ty: Type, v: Val, parts: seq<Val>, i: nat)
    requires ty.Agg? && Fits(ty, v) && i < |ty.children| && PartsFit(ty, parts) && parts[i] == Extract(ty, v, i)
    ensures IsPiece(v.value, Values(parts), i) && IsPiece(v.np.bits, Nps(parts), i)
  {
    SumGrows(ty, i + 1, |ty.children|);
    PackedSize(ty, parts, i);
    if ty.children[i].ty.Scalar? { OneBit(PoisonBits(ty, v, i)); }
    assert Nps(parts)[i] == PoisonBits(ty, v, i);
    assert Values(parts)[i] == ValueBits(ty, v, i);
  }

  // ---------------------------------------------------------------------
  // Index paths
  // ---------------------------------------------------------------------

  lemma {:induction false} DummyFits(ty: Type, np: bool)
    ensures Fits(ty, Dummy(ty, np))
    decreases ty, 1
  {
    if ty.Agg? {
      forall i: nat | i < |ty.children|
        ensures Fits(ty.children[i].ty, DummyParts(ty, np, |ty.children|)[i])
      {
        DummyPartFits(ty, np, |ty.children|, i);
      }
      PackFits(ty, DummyParts(ty, np, |ty.children|));
    }
  }

  lemma {:induction false} DummyPartFits(ty: Type, np: bool, n: nat, i: nat)
    requires ty.Agg? && i < n <= |ty.children|
    ensures Fits(ty.children[i].ty, DummyParts(ty, np, n)[i])
    decreases ty, 0, n
  {
    if i < n - 1 {
      DummyPartFits(ty, np, n - 1, i);
    } else {
      DummyFits(ty.children[i].ty, np && !ty.children[i].padding);
    }
  }

  /** A path of child indices that leads through no padding. */
  ghost predicate PathOk(ty: Type, path: seq<nat>) {
    && path != [] && ty.Agg? && path[0] < |ty.children| && !ty.children[path[0]].padding
    && (|path| > 1 ==> PathOk(ty.children[path[0]].ty, path[1..]))
  }

  ghost function TypeAt(ty: Type, path: seq<nat>): Type
    requires path == [] || PathOk(ty, path)
  {
    if path == [] then ty else TypeAt(ty.children[path[0]].ty, path[1..])
  }

  /** `extractvalue` */
  ghost function ExtractPath(ty: Type, v: Val, path: seq<nat>): Val
    requires (path == [] || PathOk(ty, path)) && Fits(ty, v)
    decreases path
  {
    if path == [] then v
    else
      ExtractFits(ty, v, path[0]);
      ExtractPath(ty.children[path[0]].ty, Extract(ty, v, path[0]), path[1..])
  }

  /** The parts of an aggregate with the one at the path replaced and padding reset. */
  ghost function UpdateParts(ty: Type, v: Val, elem: Val, path: seq<nat>, n: nat): (s: seq<Val>)
    requires PathOk(ty, path) && Fits(ty, v) && n <= |ty.children|
    ensures |s| == n
    decreases path, 0, n
  {
    if n == 0 then []
    else UpdateParts(ty, v, elem, path, n - 1) + [UpdatePart(ty, v, elem, path, n - 1)]
  }

  ghost function UpdatePart(ty: Type, v: Val, elem: Val, path: seq<nat>, i: nat): Val
    requires PathOk(ty, path) && Fits(ty, v) && i < |ty.children|
    decreases path, 0, i
  {
    if ty.children[i].padding then Dummy(ty.children[i].ty, false)
    else if i != path[0] then Extract(ty, v, i)
    else if |path| == 1 then elem
    else
      ExtractFits(ty, v, i);
      Update(ty.children[i].ty, Extract(ty, v, i), elem, path[1..])
  }

  /** What `update_repack` computes. */
  ghost function Update(ty: Type, v: Val, elem: Val, path: seq<nat>): Val
    requires PathOk(ty, path) && Fits(ty, v)
    decreases path, 1
  {
    Pack(ty, UpdateParts(ty, v, elem, path, |ty.children|))
  }

  lemma {:induction false} UpdatePartsAt(ty: Type, v: Val, elem: Val, path: seq<nat>, n: nat, i: nat)
    requires PathOk(ty, path) && Fits(ty, v) && i < n <= |ty.children|
    ensures UpdateParts(ty, v, elem, path, n)[i] == UpdatePart(ty, v, elem, path, i)
  {
    if i < n - 1 { UpdatePartsAt(ty, v, elem, path, n - 1, i); }
  }

  lemma {:induction false} UpdateFits(ty: Type, v: Val, elem: Val, path: seq<nat>)
    requires PathOk(ty, path) && Fits(ty, v) && Fits(TypeAt(ty, path), elem)
    ensures PartsFit(ty, UpdateParts(ty, v, elem, path, |ty.children|)) && Fits(ty, Update(ty, v, elem, path))
    decreases path, 1
  {
    var parts := UpdateParts(ty, v, elem, path, |ty.children|);
    forall i: nat | i < |ty.children|
      ensures Fits(ty.children[i].ty, parts[i])
    {
      UpdatePartsAt(ty, v, elem, path, |ty.children|, i);
      UpdatePartFits(ty, v, elem, path, i);
    }
    PackFits(ty, parts);
  }

  lemma {:induction false} UpdatePartFits(ty: Type, v: Val, elem: Val, path: seq<nat>, i: nat)
    requires PathOk(ty, path) && Fits(ty, v) && Fits(TypeAt(ty, path), elem) && i < |ty.children|
    ensures Fits(ty.children[i].ty, UpdatePart(ty, v, elem, path, i))
    decreases path, 0
  {
    var c := ty.children[i];
    if c.padding {
      DummyFits(c.ty, false);
    } else if i != path[0] {
      ExtractFits(ty, v, i);
    } else if |path| == 1 {
      assert path[1..] == [];
      assert TypeAt(ty, path) == TypeAt(c.ty, []);
      assert TypeAt(c.ty, []) == c.ty;
    } else {
      ExtractFits(ty, v, i);
      UpdateFits(c.ty, Extract(ty, v, i), elem, path[1..]);
    }
  }

  /** A child of an updated aggregate. */
  lemma UpdateExtract(ty: Type, v: Val, elem: Val, path: seq<nat>, i: nat)
    requires PathOk(ty, path) && Fits(ty, v) && Fits(TypeAt(ty, path), elem) && i < |ty.children|
    ensures Fits(ty, Update(ty, v, elem, path)) && Extract(ty, Update(ty, v, elem, path), i) == UpdatePart(ty, v, elem, path, i)
  {
    UpdateFits(ty, v, elem, path);
    UpdatePartsAt(ty, v, elem, path, |ty.children|, i);
    ExtractPack(ty, UpdateParts(ty, v, elem, path, |ty.children|), i);
  }

  /** What was inserted is extracted. */
  lemma {:induction false} InsertThenExtract(ty: Type, v: Val, elem: Val, path: seq<nat>)
    requires PathOk(ty, path) && Fits(ty, v) && Fits(TypeAt(ty, path), elem)
    ensures Fits(ty, Update(ty, v, elem, path)) && ExtractPath(ty, Update(ty, v, elem, path), path) == elem
    decreases path
  {
    UpdateExtract(ty, v, elem, path, path[0]);
    if |path| > 1 {
      ExtractFits(ty, v, path[0]);
      InsertThenExtract(ty.children[path[0]].ty, Extract(ty, v, path[0]), elem, path[1..]);
    }
  }

  /** The paths take different children somewhere. */
  ghost predicate Diverge(p: seq<nat>, q: seq<nat>) {
    p != [] && q != [] && (p[0] != q[0] || Diverge(p[1..], q[1..]))
  }

  /** Inserting along one path does not change what is extracted along another. */
  lemma {:induction false} InsertFrame(ty: Type, v: Val, elem: Val, path: seq<nat>, other: seq<nat>)
    requires PathOk(ty, path) && PathOk(ty, other) && Diverge(path, other) && Fits(ty, v) && Fits(TypeAt(ty, path), elem)
    ensures Fits(ty, Update(ty, v, elem, path))
    ensures ExtractPath(ty, Update(ty, v, elem, path), other) == ExtractPath(ty, v, other)
    decreases path
  {
    UpdateExtract(ty, v, elem, path, other[0]);
    if path[0] == other[0] {
      ExtractFits(ty, v, path[0]);
      InsertFrame(ty.children[path[0]].ty, Extract(ty, v, path[0]), elem, path[1..], other[1..]);
    }
  }

  /** The second of two insertions along one path wins. */
  lemma {:induction false} InsertTwice(ty: Type, v: Val, elem: Val, elem2: Val, path: seq<nat>)
    requires PathOk(ty, path) && Fits(ty, v) && Fits(TypeAt(ty, path), elem) && Fits(TypeAt(ty, path), elem2)
    ensures Fits(ty, Update(ty, v, elem, path))
    ensures Update(ty, Update(ty, v, elem, path), elem2, path) == Update(ty, v, elem2, path)
    decreases path
  {
    UpdateFits(ty, v, elem, path);
    var w := Update(ty, v, elem, path);
    var n := |ty.children|;
    forall i | 0 <= i < n
      ensures UpdateParts(ty, w, elem2, path, n)[i] == UpdateParts(ty, v, elem2, path, n)[i]
    {
      UpdatePartsAt(ty, w, elem2, path, n, i);
      UpdatePartsAt(ty, v, elem2, path, n, i);
      UpdateExtract(ty, v, elem, path, i);
      if i == path[0] && |path| > 1 {
        ExtractFits(ty, v, i);
        InsertTwice(ty.children[i].ty, Extract(ty, v, i), elem, elem2, path[1..]);
      }
    }
    assert UpdateParts(ty, w, elem2, path, n) == UpdateParts(ty, v, elem2, path, n);
  }

  /** A value whose padding is poison, as every packed value's is. */
  ghost predicate Canon(ty: Type, v: Val)
    decreases ty
  {
    && Fits(ty, v) && EmptyOk(ty, v)
    && (ty.Agg? ==> forall i :: 0 <= i < |ty.children| ==>
          if ty.children[i].padding then Extract(ty, v, i) == Dummy(ty.children[i].ty, false)
          else Canon(ty.children[i].ty, Extract(ty, v, i)))
  }

  /** Inserting what is there already changes nothing. */
  lemma {:induction false} InsertSame(ty: Type, v: Val, path: seq<nat>)
    requires PathOk(ty, path) && Canon(ty, v)
    ensures Update(ty, v, ExtractPath(ty, v, path), path) == v
    decreases path, 1
  {
    var n := |ty.children|;
    var elem := ExtractPath(ty, v, path);
    forall i: nat | i < n
      ensures UpdateParts(ty, v, elem, path, n)[i] == Parts(ty, v, n)[i]
    {
      UpdatePartsAt(ty, v, elem, path, n, i);
      SamePart(ty, v, path, i);
    }
    assert UpdateParts(ty, v, elem, path, n) == Parts(ty, v, n);
    PackParts(ty, v);
  }

  lemma {:induction false} SamePart(ty: Type, v: Val, path: seq<nat>, i: nat)
    requires PathOk(ty, path) && Canon(ty, v) && i < |ty.children|
    ensures UpdatePart(ty, v, ExtractPath(ty, v, path), path, i) == Extract(ty, v, i)
    decreases path, 0
  {
    if i == path[0] {
      if |path| == 1 {
        assert path[1..] == [];
      } else {
        InsertSame(ty.children[i].ty, Extract(ty, v, i), path[1..]);
      }
    }
  }

  /** `update_repack`: `indices` is the path from its last element to its first. */
  method UpdateRepack(ty: Type, v: Val, elem: Val, ghost path: seq<nat>, indices: seq<nat>) returns (r: Val)
    requires PathOk(ty, path) && Fits(ty, v) && |indices| == |path|
    requires forall i :: 0 <= i < |path| ==> indices[i] == path[|path| - 1 - i]
    ensures r == Update(ty, v, elem, path)
    decreases path
  {
    var cur := indices[|indices| - 1];
    var rest := indices[..|indices| - 1];
    var vals: seq<Val> := [];
    ghost var parts := UpdateParts(ty, v, elem, path, |ty.children|);
    for i := 0 to |ty.children|
      invariant |vals| == NonPadding(ty, i)
      invariant Fill(ty, vals, i) == UpdateParts(ty, v, elem, path, i)
    {
      if !ty.children[i].padding {
        ghost var vals0 := vals;
        ExtractFits(ty, v, i);
        var w := Extract(ty, v, i);
        if i == cur {
          if rest != [] {
            w := UpdateRepack(ty.children[i].ty, w, elem, path[1..], rest);
          } else {
            w := elem;
          }
        }
        vals := vals + [w];
        FillMore(ty, vals0, vals, i);
      }
    }
    r := AggregateVals(ty, vals);
  }

  lemma {:induction false} FillMore(ty: Type, vals: seq<Val>, more: seq<Val>, n: nat)
    requires ty.Agg? && n <= |ty.children| && NonPadding(ty, n) <= |vals| && vals <= more
    ensures Fill(ty, more, n) == Fill(ty, vals, n)
  {
    if n > 0 {
      NonPaddingGrows(ty, n - 1, n);
      FillMore(ty, vals, more, n - 1);
    }
  }

  // ---------------------------------------------------------------------
  // Integers in memory
  // ---------------------------------------------------------------------

  /** `np_bits(true)`: as integers in memory. */
  function NpInt(cfg: Config, ty: Type): nat
    requires cfg.bitsByte > 0
    decreases ty
  {
    match ty
    case Scalar(w, isPtr) => if isPtr then 1 else Min(w, DivideUp(w * cfg.poisonPerByte, cfg.bitsByte))
    case Agg(cs) => if cs == [] then 1 else SumInt(cfg, ty, |cs|)
  }

  function SumInt(cfg: Config, ty: Type, n: nat): nat
    requires cfg.bitsByte > 0 && ty.Agg? && n <= |ty.children|
    decreases ty, 0, n
  {
    if n == 0 then 0 else SumInt(cfg, ty, n - 1) + NpInt(cfg, ty.children[n - 1].ty)
  }

  ghost predicate ConfigOk(cfg: Config) {
    0 < cfg.poisonPerByte <= cfg.bitsByte
  }

  lemma {:induction false} NpIntPositive(cfg: Config, w: nat)
    requires ConfigOk(cfg) && w > 0
    ensures Min(w, DivideUp(w * cfg.poisonPerByte, cfg.bitsByte)) > 0
  {
    AtLeastOnce(w, cfg.poisonPerByte);
    OneByte(w * cfg.poisonPerByte, cfg.bitsByte);
  }

  lemma OneByte(a: nat, b: nat)
    requires a > 0 && b > 0
    ensures DivideUp(a, b) > 0
  {
    var q := (a + b - 1) / b;
    assert (a + b - 1) == q * b + (a + b - 1) % b;
  }

  function Rep(b: bool, n: nat): Bits { seq(n, _ => b) }

  /** Pieces joined with the first one lowest. */
  function CatUp(xs: seq<Bits>, n: nat): Bits
    requires n <= |xs|
  {
    if n == 0 then [] else CatUp(xs, n - 1) + xs[n - 1]
  }

  lemma {:induction false} CatUpSlice(xs: seq<Bits>, n: nat, i: nat)
    requires i < n <= |xs|
    ensures |CatUp(xs, n)| == Len(xs, n) && Len(xs, i) + |xs[i]| <= Len(xs, n)
    ensures CatUp(xs, n)[Len(xs, i)..Len(xs, i) + |xs[i]|] == xs[i]
  {
    CatUpLen(xs, n - 1);
    if i < n - 1 {
      CatUpSlice(xs, n - 1, i);
      assert (CatUp(xs, n - 1) + xs[n - 1])[..Len(xs, n - 1)] == CatUp(xs, n - 1);
      assert CatUp(xs, n)[Len(xs, i)..Len(xs, i) + |xs[i]|] == CatUp(xs, n - 1)[Len(xs, i)..Len(xs, i) + |xs[i]|];
    }
  }

  lemma {:induction false} CatUpLen(xs: seq<Bits>, n: nat)
    requires n <= |xs|
    ensures |CatUp(xs, n)| == Len(xs, n)
  {
    if n > 0 { CatUpLen(xs, n - 1); }
  }

  /** Pieces joined as `cfg.little` says. */
  function Join(cfg: Config, xs: seq<Bits>): Bits { if cfg.little then CatUp(xs, |xs|) else Cat(xs, |xs|) }

  /** Piece of `len` bits after `before` bits, counted from the end the first piece is at. */
  function Piece(cfg: Config, v: Bits, before: nat, len: nat): Bits
    requires before + len <= |v|
  {
    if cfg.little then v[before..before + len] else v[|v| - before - len..|v| - before]
  }

  lemma JoinPiece(cfg: Config, xs: seq<Bits>, i: nat)
    requires i < |xs|
    ensures |Join(cfg, xs)| == Len(xs, |xs|) && Len(xs, i) + |xs[i]| <= Len(xs, |xs|)
    ensures Piece(cfg, Join(cfg, xs), Len(xs, i), |xs[i]|) == xs[i]
  {
    if cfg.little { CatUpSlice(xs, |xs|, i); } else { CatSlice(xs, |xs|, i); }
  }

  /** `toInt`: a truth value is spread over the poison bits of memory. */
  function ToInt(cfg: Config, ty: Type, v: Val): (Bits, Bits)
    requires cfg.bitsByte > 0 && Fits(ty, v)
    decreases ty, 1
  {
    match ty
    case Scalar(_, _) => (v.value, Rep(v.np.b, NpInt(cfg, ty)))
    case Agg(cs) =>
      if cs == [] then ([false], [true])
      else
        var us := IntParts(cfg, ty, v, |cs|);
        (Join(cfg, Firsts(us)), Join(cfg, Seconds(us)))
  }

  function Firsts(us: seq<(Bits, Bits)>): seq<Bits> { seq(|us|, i requires 0 <= i < |us| => us[i].0) }
  function Seconds(us: seq<(Bits, Bits)>): seq<Bits> { seq(|us|, i requires 0 <= i < |us| => us[i].1) }

  function IntParts(cfg: Config, ty: Type, v: Val, n: nat): (s: seq<(Bits, Bits)>)
    requires cfg.bitsByte > 0 && ty.Agg? && Fits(ty, v) && n <= |ty.children|
    ensures |s| == n
    decreases ty, 0, n
  {
    if n == 0 then []
    else
      ExtractFits(ty, v, n - 1);
      IntParts(cfg, ty, v, n - 1) + [ToInt(cfg, ty.children[n - 1].ty, Extract(ty, v, n - 1))]
  }

  lemma {:induction false} SumIntGrows(cfg: Config, ty: Type, m: nat, n: nat)
    requires cfg.bitsByte > 0 && ty.Agg? && m <= n <= |ty.children|
    ensures SumInt(cfg, ty, m) <= SumInt(cfg, ty, n)
  {
    if m < n { SumIntGrows(cfg, ty, m, n - 1); }
  }

  /** `fromInt`, child by child through `extract` with its integer flag. */
  function FromInt(cfg: Config, ty: Type, value: Bits, np: Bits): Val
    requires cfg.bitsByte > 0 && |value| == Width(ty) && |np| == NpInt(cfg, ty)
    decreases ty, 1
  {
    match ty
    case Scalar(_, _) => Val(value, Flag(AllOnes(np)))
    case Agg(cs) => Pack(ty, FromParts(cfg, ty, value, np, |cs|))
  }

  function FromParts(cfg: Config, ty: Type, value: Bits, np: Bits, n: nat): (s: seq<Val>)
    requires cfg.bitsByte > 0 && ty.Agg? && n <= |ty.children| && |value| == Width(ty) && |np| == NpInt(cfg, ty)
    ensures |s| == n
    decreases ty, 0, n
  {
    if n == 0 then [] else FromParts(cfg, ty, value, np, n - 1) + [FromPart(cfg, ty, value, np, n - 1)]
  }

  /** `extract` of child `i` with the integer flag. */
  function FromPart(cfg: Config, ty: Type, value: Bits, np: Bits, i: nat): Val
    requires cfg.bitsByte > 0 && ty.Agg? && i < |ty.children| && |value| == Width(ty) && |np| == NpInt(cfg, ty)
    decreases ty, 0, i
  {
    SumGrows(ty, i + 1, |ty.children|);
    SumIntGrows(cfg, ty, i + 1, |ty.children|);
    var c := ty.children[i].ty;
    FromInt(cfg, c, Piece(cfg, value, SumWidth(ty, i), Width(c)), Piece(cfg, np, SumInt(cfg, ty, i), NpInt(cfg, c)))
  }

  /** What comes back has the widths of the type. */
  lemma {:induction false} FromIntFits(cfg: Config, ty: Type, value: Bits, np: Bits)
    requires cfg.bitsByte > 0 && |value| == Width(ty) && |np| == NpInt(cfg, ty)
    ensures Fits(ty, FromInt(cfg, ty, value, np))
    ensures ty.Agg? ==> PartsFit(ty, FromParts(cfg, ty, value, np, |ty.children|))
    decreases ty, 1
  {
    if ty.Agg? {
      forall i: nat | i < |ty.children|
        ensures Fits(ty.children[i].ty, FromParts(cfg, ty, value, np, |ty.children|)[i])
      {
        FromPartFits(cfg, ty, value, np, |ty.children|, i);
      }
      PackFits(ty, FromParts(cfg, ty, value, np, |ty.children|));
    }
  }

  lemma {:induction false} FromPartFits(cfg: Config, ty: Type, value: Bits, np: Bits, n: nat, i: nat)
    requires cfg.bitsByte > 0 && ty.Agg? && i < n <= |ty.children| && |value| == Width(ty) && |np| == NpInt(cfg, ty)
    ensures Fits(ty.children[i].ty, FromParts(cfg, ty, value, np, n)[i])
    decreases ty, 0, n
  {
    if i < n - 1 {
      FromPartFits(cfg, ty, value, np, n - 1, i);
    } else {
      SumGrows(ty, n, |ty.children|);
      SumIntGrows(cfg, ty, n, |ty.children|);
      var c := ty.children[i].ty;
      FromIntFits(cfg, c, Piece(cfg, value, SumWidth(ty, i), Width(c)), Piece(cfg, np, SumInt(cfg, ty, i), NpInt(cfg, c)));
    }
  }

  ghost predicate NoPadding(ty: Type) {
    ty.Agg? ==> forall i :: 0 <= i < |ty.children| ==> !ty.children[i].padding && NoPadding(ty.children[i].ty)
  }

  lemma {:induction false} ToIntSize(cfg: Config, ty: Type, v: Val)
    requires cfg.bitsByte > 0 && Fits(ty, v)
    ensures |ToInt(cfg, ty, v).0| == Width(ty) && |ToInt(cfg, ty, v).1| == NpInt(cfg, ty)
    decreases ty, 1
  {
    if ty.Agg? && ty.children != [] {
      IntPartsSize(cfg, ty, v, |ty.children|);
      var us := IntParts(cfg, ty, v, |ty.children|);
      JoinPiece(cfg, Firsts(us), 0);
      JoinPiece(cfg, Seconds(us), 0);
    }
  }

  lemma {:induction false} IntPartsSize(cfg: Config, ty: Type, v: Val, n: nat)
    requires cfg.bitsByte > 0 && ty.Agg? && Fits(ty, v) && n <= |ty.children|
    ensures Len(Firsts(IntParts(cfg, ty, v, n)), n) == SumWidth(ty, n)
    ensures Len(Seconds(IntParts(cfg, ty, v, n)), n) == SumInt(cfg, ty, n)
    decreases ty, 0, n
  {
    if n > 0 {
      IntPartsSize(cfg, ty, v, n - 1);
      ExtractFits(ty, v, n - 1);
      ToIntSize(cfg, ty.children[n - 1].ty, Extract(ty, v, n - 1));
      var us := IntParts(cfg, ty, v, n);
      LenPrefix(Firsts(us), Firsts(us[..n - 1]), n - 1);
      LenPrefix(Seconds(us), Seconds(us[..n - 1]), n - 1);
      assert us[..n - 1] == IntParts(cfg, ty, v, n - 1);
    }
  }

  lemma {:induction false} LenPrefix(xs: seq<Bits>, ys: seq<Bits>, n: nat)
    requires n <= |xs| && n <= |ys| && forall i :: 0 <= i < n ==> xs[i] == ys[i]
    ensures Len(xs, n) == Len(ys, n)
  {
    if n > 0 { LenPrefix(xs, ys, n - 1); }
  }

  lemma {:induction false} IntPartsPrefix(cfg: Config, ty: Type, v: Val, m: nat, n: nat)
    requires cfg.bitsByte > 0 && ty.Agg? && Fits(ty, v) && m <= n <= |ty.children|
    ensures IntParts(cfg, ty, v, n)[..m] == IntParts(cfg, ty, v, m)
  {
    if m < n { IntPartsPrefix(cfg, ty, v, m, n - 1); }
  }

  /** Where child `i` is in the integer form. */
  lemma IntPiece(cfg: Config, ty: Type, v: Val, i: nat)
    requires cfg.bitsByte > 0 && ty.Agg? && Fits(ty, v) && i < |ty.children|
    ensures Fits(ty.children[i].ty, Extract(ty, v, i))
    ensures
      var c := ty.children[i].ty;
      var u, x := ToInt(cfg, ty, v), ToInt(cfg, c, Extract(ty, v, i));
      && |u.0| == Width(ty) && |u.1| == NpInt(cfg, ty)
      && SumWidth(ty, i) + Width(c) <= |u.0| && SumInt(cfg, ty, i) + NpInt(cfg, c) <= |u.1|
      && Piece(cfg, u.0, SumWidth(ty, i), Width(c)) == x.0
      && Piece(cfg, u.1, SumInt(cfg, ty, i), NpInt(cfg, c)) == x.1
  {
    ExtractFits(ty, v, i);
    ToIntSize(cfg, ty, v);
    ToIntSize(cfg, ty.children[i].ty, Extract(ty, v, i));
    SumGrows(ty, i + 1, |ty.children|);
    SumIntGrows(cfg, ty, i + 1, |ty.children|);
    var us := IntParts(cfg, ty, v, |ty.children|);
    IntPartsPrefix(cfg, ty, v, i + 1, |ty.children|);
    IntPartsPrefix(cfg, ty, v, i, |ty.children|);
    assert us[i] == us[..i + 1][i];
    IntPartsSize(cfg, ty, v, i);
    LenPrefix(Firsts(us), Firsts(us[..i]), i);
    LenPrefix(Seconds(us), Seconds(us[..i]), i);
    JoinPiece(cfg, Firsts(us), i);
    JoinPiece(cfg, Seconds(us), i);
  }

  /** `fromInt` undoes `toInt` in both byte orders. */
  lemma {:induction false} IntRoundTrip(cfg: Config, ty: Type, v: Val)
    requires ConfigOk(cfg) && TypeOk(ty) && NoPadding(ty) && Canon(ty, v)
    ensures |ToInt(cfg, ty, v).0| == Width(ty) && |ToInt(cfg, ty, v).1| == NpInt(cfg, ty)
    ensures FromInt(cfg, ty, ToInt(cfg, ty, v).0, ToInt(cfg, ty, v).1) == v
    decreases ty, 1
  {
    ToIntSize(cfg, ty, v);
    if ty.Scalar? {
      if !ty.isPtr { NpIntPositive(cfg, ty.width); }
      SpreadBack(v.np.b, NpInt(cfg, ty));
    } else {
      var n := |ty.children|;
      PartsRoundTrip(cfg, ty, v, n);
      PackParts(ty, v);
    }
  }

  lemma SpreadBack(b: bool, n: nat)
    requires n > 0
    ensures AllOnes(Rep(b, n)) == b
  {
    if !b { assert Rep(b, n)[0] == false; }
  }

  lemma {:induction false} PartsRoundTrip(cfg: Config, ty: Type, v: Val, n: nat)
    requires ConfigOk(cfg) && ty.Agg? && TypeOk(ty) && NoPadding(ty) && Canon(ty, v) && n <= |ty.children|
    requires |ToInt(cfg, ty, v).0| == Width(ty) && |ToInt(cfg, ty, v).1| == NpInt(cfg, ty)
    ensures FromParts(cfg, ty, ToInt(cfg, ty, v).0, ToInt(cfg, ty, v).1, n) == Parts(ty, v, n)
    decreases ty, 0, n
  {
    if n > 0 {
      PartsRoundTrip(cfg, ty, v, n - 1);
      IntPiece(cfg, ty, v, n - 1);
      IntRoundTrip(cfg, ty.children[n - 1].ty, Extract(ty, v, n - 1));
    }
  }

  /** `AggregateType::toInt` */
  method AggregateToInt(cfg: Config, ty: Type, v: Val) returns (value: Bits, np: Bits)
    requires cfg.bitsByte > 0 && ty.Agg? && Fits(ty, v)
    ensures (value, np) == ToInt(cfg, ty, v)
  {
    if ty.children == [] {
      return [false], [true];
    }
    value, np := [], [];
    ghost var us := IntParts(cfg, ty, v, |ty.children|);
    for i := 0 to |ty.children|
      invariant value == JoinUpTo(cfg, Firsts(us), i) && np == JoinUpTo(cfg, Seconds(us), i)
    {
      ExtractFits(ty, v, i);
      var u := ToInt(cfg, ty.children[i].ty, Extract(ty, v, i));
      IntPartAt(cfg, ty, v, |ty.children|, i);
      assert Firsts(us)[i] == u.0 && Seconds(us)[i] == u.1;
      if i == 0 {
        value, np := u.0, u.1;
      } else if cfg.little {
        value, np := Concat(u.0, value), Concat(u.1, np);
      } else {
        value, np := Concat(value, u.0), Concat(np, u.1);
      }
    }
  }

  function JoinUpTo(cfg: Config, xs: seq<Bits>, n: nat): Bits
    requires n <= |xs|
  {
    if cfg.little then CatUp(xs, n) else Cat(xs, n)
  }

  lemma {:induction false} IntPartAt(cfg: Config, ty: Type, v: Val, n: nat, i: nat)
    requires cfg.bitsByte > 0 && ty.Agg? && Fits(ty, v) && i < n <= |ty.children|
    ensures Fits(ty.children[i].ty, Extract(ty, v, i)) && IntParts(cfg, ty, v, n)[i] == ToInt(cfg, ty.children[i].ty, Extract(ty, v, i))
  {
    ExtractFits(ty, v, i);
    if i < n - 1 { IntPartAt(cfg, ty, v, n - 1, i); }
  }

  lemma {:induction false} FromPartAt(cfg: Config, ty: Type, value: Bits, np: Bits, n: nat, i: nat)
    requires cfg.bitsByte > 0 && ty.Agg? && i < n <= |ty.children| && |value| == Width(ty) && |np| == NpInt(cfg, ty)
    ensures FromParts(cfg, ty, value, np, n)[i] == FromPart(cfg, ty, value, np, i)
  {
    if i < n - 1 { FromPartAt(cfg, ty, value, np, n - 1, i); }
  }

  // ---------------------------------------------------------------------
  // Vectors
  // ---------------------------------------------------------------------

  function VectorOf(n: nat, w: nat, isPtr: bool): Type {
    Agg(seq(n, _ => Child(Scalar(w, isPtr), false)))
  }

  lemma {:induction false} VectorSums(n: nat, w: nat, isPtr: bool, k: nat)
    requires k <= n
    ensures SumWidth(VectorOf(n, w, isPtr), k) == k * w && SumNp(VectorOf(n, w, isPtr), k) == k
  {
    if k > 0 {
      VectorSums(n, w, isPtr, k - 1);
      assert k * w == (k - 1) * w + w;
    }
  }

  /** The bit offset of an element, at the width of the whole vector. */
  function ElemShift(index: nat, w: nat, bits: nat): int {
    Wrap(Wrap(index, bits) * w, bits)
  }

  lemma ElemShiftIs(index: nat, n: nat, w: nat)
    requires index < n && w > 0
    ensures ElemShift(index, w, n * w) == index * w && index * w + w <= n * w
  {
    assert n * w == index * w + (n - index) * w;
    AtLeastOnce(n - index, w);
    assert index * w >= index;
    AtLeastOnce(n, w);
    AtLeastOnce(w, n);
  }

  /** `VectorType::extract` by shifting. */
  function VectorExtract(n: nat, w: nat, isPtr: bool, v: Val, index: nat): Val
    requires n > 0 && v.np.Vec? && |v.value| == n * w && |v.np.bits| == n && (n - 1) * w <= n * w
  {
    var value := Shl(v.value, ElemShift(index, w, n * w));
    var np := Shl(v.np.bits, ElemShift(index, 1, n));
    FromBV(Scalar(w, isPtr), value[(n - 1) * w..n * w], np[n - 1..n])
  }

  lemma ShiftTop(v: Bits, n: nat, w: nat, index: nat)
    requires index < n && w > 0 && |v| == n * w
    ensures (n - 1) * w <= n * w && 0 <= n * w - (index + 1) * w <= n * w - index * w <= |v|
    ensures Shl(v, ElemShift(index, w, n * w))[(n - 1) * w..n * w] == v[n * w - (index + 1) * w..n * w - index * w]
  {
    ElemShiftIs(index, n, w);
    assert (index + 1) * w == index * w + w && n * w == (n - 1) * w + w;
    ShlTop(v, index * w, w);
  }

  lemma ShlTop(v: Bits, k: nat, w: nat)
    requires k + w <= |v|
    ensures Shl(v, k)[|v| - w..|v|] == v[|v| - k - w..|v| - k]
  {
  }

  /** For every index in range it is plain indexing. */
  lemma VectorExtractIs(n: nat, w: nat, isPtr: bool, v: Val, index: nat)
    requires index < n && w > 0 && Fits(VectorOf(n, w, isPtr), v)
    ensures |v.value| == n * w && |v.np.bits| == n && (n - 1) * w <= n * w
    ensures VectorExtract(n, w, isPtr, v, index) == Extract(VectorOf(n, w, isPtr), v, index)
  {
    VectorSums(n, w, isPtr, n);
    VectorSums(n, w, isPtr, index);
    VectorSums(n, w, isPtr, index + 1);
    assert |v.value| == n * w && |v.np.bits| == n * 1;
    ShiftTop(v.value, n, w, index);
    ShiftTop(v.np.bits, n, 1, index);
    assert n * w - index * w - w == n * w - (index + 1) * w;
  }

  function BitNot(v: Bits): Bits { seq(|v|, i requires 0 <= i < |v| => !v[i]) }

  /** One of the two halves of `VectorType::update`: mask the element out, shift the new one in. */
  function Splice(v: Bits, elem: Bits, shift: int): (r: Bits)
    requires |elem| <= |v|
    ensures |r| == |v|
  {
    var fill := Zeros(|v| - |elem|);
    var mask := BitNot(Lshr(Concat(Ones(|elem|), fill), shift));
    BitOr(BitAnd(v, mask), Lshr(Concat(elem, fill), shift))
  }

  /** `VectorType::update` by masking and shifting. */
  function VectorUpdate(n: nat, w: nat, v: Val, elem: Val, index: nat): Val
    requires n > 0 && v.np.Vec? && |v.value| == n * w && |v.np.bits| == n && |elem.value| == w <= n * w && elem.np.Flag?
  {
    if n == 1 then Val(elem.value, Vec([elem.np.b]))
    else Val(Splice(v.value, elem.value, ElemShift(index, w, n * w)), Vec(Splice(v.np.bits, [elem.np.b], ElemShift(index, 1, n))))
  }

  /** Splicing replaces one piece and keeps the others. */
  lemma SplicePiece(v: Bits, elem: Bits, n: nat, w: nat, index: nat, i: nat)
    requires index < n && i < n && w > 0 && |v| == n * w && |elem| == w
    ensures w <= n * w && 0 <= n * w - (i + 1) * w <= n * w - i * w <= n * w
    ensures Splice(v, elem, index * w)[n * w - (i + 1) * w..n * w - i * w] ==
            if i == index then elem else v[n * w - (i + 1) * w..n * w - i * w]
  {
    AtLeastOnce(n, w);
    ElemShiftIs(i, n, w);
    ElemShiftIs(index, n, w);
    NextMultiple(i, w);
    var x, y := index * w, i * w;
    if i < index { Spread(i, index, w); }
    if i > index { Spread(index, i, w); }
    SpliceAt(v, elem, x, |v| - y - w, if i == index then 0 else if i < index then 1 else -1);
  }

  lemma NextMultiple(i: nat, w: nat)
    ensures (i + 1) * w == i * w + w
  {
  }

  lemma Spread(i: nat, j: nat, w: nat)
    requires i < j
    ensures i * w + w <= j * w
  {
    AtLeastOnce(j - i, w);
    assert j * w == i * w + (j - i) * w;
  }

  /** A window of the width of the element: at its place, or entirely above or below it. */
  lemma SpliceAt(v: Bits, elem: Bits, shift: nat, a: nat, where_: int)
    requires |elem| <= |v| && a + |elem| <= |v| && shift + |elem| <= |v|
    requires where_ == 0 ==> a == |v| - |elem| - shift
    requires where_ == 1 ==> a >= |v| - shift
    requires where_ == -1 ==> a + |elem| <= |v| - |elem| - shift
    requires where_ == 0 || where_ == 1 || where_ == -1
    ensures Splice(v, elem, shift)[a..a + |elem|] == if where_ == 0 then elem else v[a..a + |elem|]
  {
  }

  /** For every index in range the update is the insertion at that index. */
  lemma VectorUpdateIs(n: nat, w: nat, isPtr: bool, v: Val, elem: Val, index: nat)
    requires index < n && w > 0 && Fits(VectorOf(n, w, isPtr), v) && Fits(Scalar(w, isPtr), elem)
    ensures |v.value| == n * w && |v.np.bits| == n && w <= n * w
    ensures VectorUpdate(n, w, v, elem, index) == Update(VectorOf(n, w, isPtr), v, elem, [index])
  {
    var ty := VectorOf(n, w, isPtr);
    VectorSums(n, w, isPtr, n);
    AtLeastOnce(n, w);
    assert |v.value| == n * w && |v.np.bits| == n;
    var r := VectorUpdate(n, w, v, elem, index);
    assert Fits(ty, r);
    forall i: nat | i < n
      ensures Parts(ty, r, n)[i] == UpdateParts(ty, v, elem, [index], n)[i]
    {
      UpdatePartsAt(ty, v, elem, [index], n, i);
      UpdatedElem(n, w, isPtr, v, elem, index, i);
    }
    assert Parts(ty, r, n) == UpdateParts(ty, v, elem, [index], n);
    PackParts(ty, r);
  }

  lemma UpdatedElem(n: nat, w: nat, isPtr: bool, v: Val, elem: Val, index: nat, i: nat)
    requires index < n && i < n && w > 0 && Fits(VectorOf(n, w, isPtr), v) && Fits(Scalar(w, isPtr), elem)
    requires |v.value| == n * w && |v.np.bits| == n && w <= n * w
    requires Fits(VectorOf(n, w, isPtr), VectorUpdate(n, w, v, elem, index))
    ensures Extract(VectorOf(n, w, isPtr), VectorUpdate(n, w, v, elem, index), i) ==
            if i == index then elem else Extract(VectorOf(n, w, isPtr), v, i)
  {
    var ty := VectorOf(n, w, isPtr);
    var r := VectorUpdate(n, w, v, elem, index);
    VectorSlices(n, w, isPtr, v, i);
    VectorSlices(n, w, isPtr, r, i);
    UpdatedBits(n, w, v, elem, index, i);
    if i == index { OneBit([elem.np.b]); }
  }

  /** The bits of element `i` after an update. */
  lemma UpdatedBits(n: nat, w: nat, v: Val, elem: Val, index: nat, i: nat)
    requires index < n && i < n && w > 0 && v.np.Vec? && elem.np.Flag? && |elem.value| == w
    requires |v.value| == n * w && |v.np.bits| == n && w <= n * w
    ensures 0 <= n * w - (i + 1) * w <= n * w - i * w <= n * w && 0 <= n * 1 - (i + 1) * 1 <= n * 1 - i * 1 <= n
    ensures VectorUpdate(n, w, v, elem, index).value[n * w - (i + 1) * w..n * w - i * w] ==
            if i == index then elem.value else v.value[n * w - (i + 1) * w..n * w - i * w]
    ensures VectorUpdate(n, w, v, elem, index).np.bits[n * 1 - (i + 1) * 1..n * 1 - i * 1] ==
            if i == index then [elem.np.b] else v.np.bits[n * 1 - (i + 1) * 1..n * 1 - i * 1]
  {
    ElemShiftIs(i, n, w);
    NextMultiple(i, w);
    if n > 1 {
      ElemShiftIs(index, n, w);
      ElemShiftIs(index, n, 1);
      SplicePiece(v.value, elem.value, n, w, index, i);
      SplicePiece(v.np.bits, [elem.np.b], n, 1, index, i);
    } else {
      assert elem.value[0..w] == elem.value;
    }
  }

  /** Where element `i` of a vector is. */
  lemma VectorSlices(n: nat, w: nat, isPtr: bool, v: Val, i: nat)
    requires i < n && w > 0 && Fits(VectorOf(n, w, isPtr), v)
    ensures |v.value| == n * w && |v.np.bits| == n
    ensures 0 <= n * w - (i + 1) * w <= n * w - i * w <= n * w && 0 <= n * 1 - (i + 1) * 1 <= n * 1 - i * 1 <= n
    ensures ValueBits(VectorOf(n, w, isPtr), v, i) == v.value[n * w - (i + 1) * w..n * w - i * w]
    ensures PoisonBits(VectorOf(n, w, isPtr), v, i) == v.np.bits[n * 1 - (i + 1) * 1..n * 1 - i * 1]
  {
    VectorSums(n, w, isPtr, n);
    VectorSums(n, w, isPtr, i);
    VectorSums(n, w, isPtr, i + 1);
    ElemShiftIs(i, n, w);
    NextMultiple(i, w);
  }
}
