/** Bytes of the block memory as bit-vectors: `Byte`, `valueToBytes`, `bytesToValue`,
    and their layout in memory. */
module ByteEncoding {
  import opened Aggregates
  import opened BitVectors
  import opened Granularity

  // ---------------------------------------------------------------------
  // One byte
  // ---------------------------------------------------------------------

  /** Widths of the fields of a byte; the two kinds of bytes are padded to one width.
      A kind of access that the program does not have leaves its fields empty. */
  datatype Fields = Fields(poison: nat, bits: nat, sub: nat, number: nat, ptr: nat, offset: nat) {
    /** `bitsByte`; the first bit always tells pointer bytes from the others. */
    function ByteWidth(): nat {
      1 + (if 1 + ptr + offset > poison + bits + sub + number then 1 + ptr + offset else poison + bits + sub + number)
    }
    function PaddingInt(): nat { ByteWidth() - 1 - poison - bits - sub - number }
    function PaddingPtr(): nat { ByteWidth() - 1 - 1 - ptr - offset }
  }

  /** `x` at `w` bits. */
  function Num(x: nat, w: nat): (b: Bits)
    ensures |b| == w
  {
    if w == 0 then [] else [x % 2 == 1] + Num(x / 2, w - 1)
  }

  /** `concat` of fields, the first one highest. */
  function IntByte(f: Fields, np: Bits, value: Bits, stored: nat, number: nat): Bits {
    var parts := [[false], np, value, Num(stored, f.sub), Num(number, f.number), Zeros(f.PaddingInt())];
    Cat(parts, 6)
  }

  function PtrByte(f: Fields, np: bool, ptr: Bits, offset: nat): Bits {
    var parts := [[true], [np], ptr, Num(offset, f.offset), Zeros(f.PaddingPtr())];
    Cat(parts, 5)
  }

  /** `extract` of `n` bits from bit `start` on; nothing if the byte is too short. */
  function Field(p: Bits, start: int, n: nat): Bits {
    if 0 <= start && start + n <= |p| then p[start..start + n] else []
  }

  predicate IsPtr(p: Bits) { p != [] && p[|p| - 1] }
  function IntNp(f: Fields, p: Bits): Bits { Field(p, f.PaddingInt() + f.number + f.sub + f.bits, f.poison) }
  function IntValue(f: Fields, p: Bits): Bits { Field(p, f.PaddingInt() + f.number + f.sub, f.bits) }
  function StoredBits(f: Fields, p: Bits): Bits { Field(p, f.PaddingInt() + f.number, f.sub) }
  function ByteNumber(f: Fields, p: Bits): Bits { Field(p, f.PaddingInt(), f.number) }
  predicate PtrNp(p: Bits) { |p| > 1 && p[|p| - 2] }
  function PtrValue(f: Fields, p: Bits): Bits { Field(p, f.PaddingPtr() + f.offset, f.ptr) }
  function PtrOffset(f: Fields, p: Bits): Bits { Field(p, f.PaddingPtr(), f.offset) }

  /** Every field of an integer byte is read back. */
  lemma IntByteFields(f: Fields, np: Bits, value: Bits, stored: nat, number: nat)
    requires |np| == f.poison && |value| == f.bits
    ensures
      var p := IntByte(f, np, value, stored, number);
      && |p| == f.ByteWidth() && !IsPtr(p) && IntNp(f, p) == np && IntValue(f, p) == value
      && StoredBits(f, p) == Num(stored, f.sub) && ByteNumber(f, p) == Num(number, f.number)
  {
    var parts := [[false], np, value, Num(stored, f.sub), Num(number, f.number), Zeros(f.PaddingInt())];
    var p := IntByte(f, np, value, stored, number);
    Lens6(parts);
    CatLen(parts, 6, 6);
    FieldAt(parts, 6, 0, |p| - 1);
    FieldAt(parts, 6, 1, f.PaddingInt() + f.number + f.sub + f.bits);
    FieldAt(parts, 6, 2, f.PaddingInt() + f.number + f.sub);
    FieldAt(parts, 6, 3, f.PaddingInt() + f.number);
    FieldAt(parts, 6, 4, f.PaddingInt());
    BitAt(p, |p| - 1, false);
  }

  /** Where the i-th field is. */
  lemma FieldAt(parts: seq<Bits>, n: nat, i: nat, start: int)
    requires i < n <= |parts| && start == Len(parts, n) - Len(parts, i) - |parts[i]|
    ensures start >= 0 && Field(Cat(parts, n), start, |parts[i]|) == parts[i]
  {
    CatSlice(parts, n, i);
  }

  lemma BitAt(p: Bits, i: nat, b: bool)
    requires Field(p, i, 1) == [b]
    ensures i < |p| && p[i] == b
  {
    assert p[i..i + 1][0] == p[i];
  }

  lemma Lens6(parts: seq<Bits>)
    requires |parts| == 6
    ensures Len(parts, 0) == 0 && Len(parts, 1) == |parts[0]| && Len(parts, 2) == |parts[0]| + |parts[1]|
    ensures Len(parts, 3) == |parts[0]| + |parts[1]| + |parts[2]|
    ensures Len(parts, 4) == |parts[0]| + |parts[1]| + |parts[2]| + |parts[3]|
    ensures Len(parts, 5) == |parts[0]| + |parts[1]| + |parts[2]| + |parts[3]| + |parts[4]|
    ensures Len(parts, 6) == |parts[0]| + |parts[1]| + |parts[2]| + |parts[3]| + |parts[4]| + |parts[5]|
  {
  }

  lemma Lens5(parts: seq<Bits>)
    requires |parts| == 5
    ensures Len(parts, 0) == 0 && Len(parts, 1) == |parts[0]| && Len(parts, 2) == |parts[0]| + |parts[1]|
    ensures Len(parts, 3) == |parts[0]| + |parts[1]| + |parts[2]|
    ensures Len(parts, 4) == |parts[0]| + |parts[1]| + |parts[2]| + |parts[3]|
    ensures Len(parts, 5) == |parts[0]| + |parts[1]| + |parts[2]| + |parts[3]| + |parts[4]|
  {
  }

  /** Every field of a pointer byte is read back. */
  lemma PtrByteFields(f: Fields, np: bool, ptr: Bits, offset: nat)
    requires |ptr| == f.ptr
    ensures
      var p := PtrByte(f, np, ptr, offset);
      |p| == f.ByteWidth() && IsPtr(p) && PtrNp(p) == np && PtrValue(f, p) == ptr && PtrOffset(f, p) == Num(offset, f.offset)
  {
    var parts := [[true], [np], ptr, Num(offset, f.offset), Zeros(f.PaddingPtr())];
    var p := PtrByte(f, np, ptr, offset);
    Lens5(parts);
    CatLen(parts, 5, 5);
    FieldAt(parts, 5, 0, |p| - 1);
    FieldAt(parts, 5, 1, |p| - 2);
    FieldAt(parts, 5, 2, f.PaddingPtr() + f.offset);
    FieldAt(parts, 5, 3, f.PaddingPtr());
    BitAt(p, |p| - 1, true);
    BitAt(p, |p| - 2, np);
  }

  // ---------------------------------------------------------------------
  // Integers and vectors of integers
  // ---------------------------------------------------------------------

  /** What is stored of the width: 0 for a whole number of octets. */
  function SubWidth(n: nat): nat { if n % 8 == 0 then 0 else n }

  /** Byte `i` of a value and its poison bits, both padded. */
  function ByteAt(f: Fields, value: Bits, np: Bits, n: nat, i: nat): Bits {
    IntByte(f, Field(np, i * f.poison, f.poison), Field(value, i * f.bits, f.bits), SubWidth(n), i)
  }

  /** `valueToBytes` of an integer type: value and poison bits get the same amount of
      arbitrary padding on top. */
  method ValueToBytes(f: Fields, cfg: Config, ty: Type, v: Val, padValue: Bits, padNp: Bits) returns (bytes: seq<Bits>)
    requires f.bits > 0 && cfg.bitsByte == f.bits && cfg.poisonPerByte == f.poison && Fits(ty, v)
    requires |padValue| == |padNp| == DivideUp(Width(ty), f.bits) * f.bits - Width(ty)
    ensures |bytes| == DivideUp(Width(ty), f.bits)
    ensures forall i :: 0 <= i < |bytes| ==>
              bytes[i] == ByteAt(f, ToInt(cfg, ty, v).0 + padValue, ToInt(cfg, ty, v).1 + padNp, Width(ty), i)
  {
    var u := ToInt(cfg, ty, v);
    var value, np := Concat(padValue, u.0), Concat(padNp, u.1);
    bytes := [];
    for i := 0 to DivideUp(Width(ty), f.bits)
      invariant |bytes| == i
      invariant forall j :: 0 <= j < i ==> bytes[j] == ByteAt(f, u.0 + padValue, u.1 + padNp, Width(ty), j)
    {
      bytes := bytes + [ByteAt(f, value, np, Width(ty), i)];
    }
  }

  /** What a loaded byte contributes: its poison bits, all cleared for a byte of
      another kind, width or number, and its value. */
  function Contribution(f: Fields, p: Bits, n: nat, i: nat): (Bits, Bits) {
    var ok := !IsPtr(p) && (f.sub > 0 ==> StoredBits(f, p) == Num(SubWidth(n), f.sub) && ByteNumber(f, p) == Num(i, f.number));
    (IntValue(f, p), if ok then IntNp(f, p) else Zeros(|IntNp(f, p)|))
  }

  function ValuesOf(f: Fields, n: nat, bytes: seq<Bits>): seq<Bits> {
    seq(|bytes|, i requires 0 <= i < |bytes| => Contribution(f, bytes[i], n, i).0)
  }

  function PoisonOf(f: Fields, n: nat, bytes: seq<Bits>): seq<Bits> {
    seq(|bytes|, i requires 0 <= i < |bytes| => Contribution(f, bytes[i], n, i).1)
  }

  /** `bytesToValue` of an integer type: the bytes joined with the first one lowest,
      cut to the width, and turned back. */
  method BytesToValue(f: Fields, cfg: Config, ty: Type, bytes: seq<Bits>) returns (v: Val)
    requires cfg.bitsByte > 0 && bytes != []
    requires |CatUp(ValuesOf(f, Width(ty), bytes), |bytes|)| >= Width(ty)
    requires |CatUp(PoisonOf(f, Width(ty), bytes), |bytes|)| >= NpInt(cfg, ty)
    ensures v == FromInt(cfg, ty, CatUp(ValuesOf(f, Width(ty), bytes), |bytes|)[..Width(ty)],
                         CatUp(PoisonOf(f, Width(ty), bytes), |bytes|)[..NpInt(cfg, ty)])
  {
    var value, np := JoinBytes(f, Width(ty), bytes);
    v := FromInt(cfg, ty, value[..Width(ty)], np[..NpInt(cfg, ty)]);
  }

  method JoinBytes(f: Fields, n: nat, bytes: seq<Bits>) returns (value: Bits, np: Bits)
    ensures value == CatUp(ValuesOf(f, n, bytes), |bytes|) && np == CatUp(PoisonOf(f, n, bytes), |bytes|)
  {
    value, np := [], [];
    ghost var xs, ys := ValuesOf(f, n, bytes), PoisonOf(f, n, bytes);
    for i := 0 to |bytes|
      invariant value == CatUp(xs, i) && np == CatUp(ys, i)
    {
      var c := Contribution(f, bytes[i], n, i);
      assert xs[i] == c.0 && ys[i] == c.1;
      if i == 0 {
        value, np := c.0, c.1;
      } else {
        value, np := Concat(c.0, value), Concat(c.1, np);
      }
    }
  }

  /** Cutting bits into equal pieces from below and joining them again. */
  lemma {:induction false} Rejoin(v: Bits, xs: seq<Bits>, w: nat, n: nat)
    requires n <= |xs| && n * w <= |v| && forall i :: 0 <= i < |xs| ==> xs[i] == Field(v, i * w, w)
    ensures CatUp(xs, n) == v[..n * w]
  {
    if n > 0 {
      assert n * w == (n - 1) * w + w;
      Rejoin(v, xs, w, n - 1);
      assert v[..(n - 1) * w] + v[(n - 1) * w..n * w] == v[..n * w];
    }
  }

  /** The bytes that encode a value, whatever the padding. */
  ghost predicate Encodes(f: Fields, cfg: Config, ty: Type, v: Val, padValue: Bits, padNp: Bits, bytes: seq<Bits>)
    requires cfg.bitsByte > 0 && f.bits > 0 && Fits(ty, v)
  {
    && |bytes| == DivideUp(Width(ty), f.bits)
    && forall i :: 0 <= i < |bytes| ==>
         bytes[i] == ByteAt(f, ToInt(cfg, ty, v).0 + padValue, ToInt(cfg, ty, v).1 + padNp, Width(ty), i)
  }

  lemma ContributionIs(f: Fields, value: Bits, np: Bits, n: nat, i: nat)
    requires i * f.bits + f.bits <= |value| && i * f.poison + f.poison <= |np|
    ensures Contribution(f, ByteAt(f, value, np, n, i), n, i) == (Field(value, i * f.bits, f.bits), Field(np, i * f.poison, f.poison))
  {
    IntByteFields(f, Field(np, i * f.poison, f.poison), Field(value, i * f.bits, f.bits), SubWidth(n), i);
  }

  /** The bytes joined again are the value and the poison bits they were cut from. */
  lemma BytesJoin(f: Fields, n: nat, value: Bits, np: Bits, bytes: seq<Bits>, npLen: nat)
    requires |bytes| * f.bits == |value| && |bytes| * f.poison == npLen <= |np|
    requires forall i :: 0 <= i < |bytes| ==> bytes[i] == ByteAt(f, value, np, n, i)
    ensures CatUp(ValuesOf(f, n, bytes), |bytes|) == value
    ensures CatUp(PoisonOf(f, n, bytes), |bytes|) == np[..npLen]
  {
    forall i: nat | i < |bytes|
      ensures ValuesOf(f, n, bytes)[i] == Field(value, i * f.bits, f.bits)
      ensures PoisonOf(f, n, bytes)[i] == Field(np, i * f.poison, f.poison)
    {
      InRange(i, |bytes|, f.bits);
      InRange(i, |bytes|, f.poison);
      ContributionIs(f, value, np, n, i);
    }
    Rejoin(value, ValuesOf(f, n, bytes), f.bits, |bytes|);
    Rejoin(np, PoisonOf(f, n, bytes), f.poison, |bytes|);
  }

  lemma InRange(i: nat, n: nat, w: nat)
    requires i < n
    ensures i * w + w <= n * w
  {
    if w > 0 { Spread(i, n, w); }
  }

  // ---------------------------------------------------------------------
  // Layout in memory
  // ---------------------------------------------------------------------

  /** The memory after storing bytes from a location on: byte `i` goes to offset `i`,
      or counted from the end on big-endian targets. */
  function Stored(mem: int -> Bits, at: int, bytes: seq<Bits>, little: bool): int -> Bits {
    (x: int) =>
      if at <= x < at + |bytes| then bytes[if little then x - at else |bytes| - (x - at) - 1] else mem(x)
  }

  /** Loading `n` bytes, from left to right exactly on little-endian targets. */
  function Loaded(mem: int -> Bits, at: int, n: nat, little: bool): (bytes: seq<Bits>)
    ensures |bytes| == n
  {
    seq(n, i requires 0 <= i < n => mem(at + if little then i else n - i - 1))
  }

  lemma LoadStored(mem: int -> Bits, at: int, bytes: seq<Bits>, little: bool)
    ensures Loaded(Stored(mem, at, bytes, little), at, |bytes|, little) == bytes
  {
  }

  // ---------------------------------------------------------------------
  // Loads at another width or address
  // ---------------------------------------------------------------------

  lemma HalfMod(a: nat, k: nat)
    requires k > 0
    ensures a % (2 * k) == 2 * ((a / 2) % k) + a % 2
  {
    var q, r := (a / 2) / k, (a / 2) % k;
    assert a / 2 == q * k + r;
    assert a == q * (2 * k) + (2 * r + a % 2) by { assert q * (2 * k) == 2 * (q * k); }
    ModOf(a, 2 * k, q, 2 * r + a % 2);
  }

  lemma ModOf(a: nat, m: nat, q: nat, r: nat)
    requires m > 0 && a == q * m + r && r < m
    ensures a % m == r
  {
    var d := a / m - q;
    assert a == (a / m) * m + a % m;
    assert d * m == r - a % m;
    assert (-d) * m == -(d * m);
    if d > 0 { AtLeastOnce(d, m); } else if d < 0 { AtLeastOnce(-d, m); }
  }

  /** A number in `w` bits is known modulo two to the `w`. */
  lemma {:induction false} NumIff(a: nat, b: nat, w: nat)
    ensures Num(a, w) == Num(b, w) <==> a % Pow2(w) == b % Pow2(w)
  {
    if w > 0 {
      NumIff(a / 2, b / 2, w - 1);
      HalfMod(a, Pow2(w - 1));
      HalfMod(b, Pow2(w - 1));
      var x, y := Num(a, w), Num(b, w);
      assert x[0] == (a % 2 == 1) && x[1..] == Num(a / 2, w - 1);
      assert y[0] == (b % 2 == 1) && y[1..] == Num(b / 2, w - 1);
    }
  }

  /** What is stored of the widths is the same: both are whole octets, or they agree as
      far as `sub` bits tell. */
  ghost predicate WidthsAgree(sub: nat, m: nat, n: nat) {
    if m % 8 == 0 then n % 8 == 0 || n % Pow2(sub) == 0
    else if n % 8 == 0 then m % Pow2(sub) == 0
    else m % Pow2(sub) == n % Pow2(sub)
  }

  lemma WidthsIff(sub: nat, m: nat, n: nat)
    ensures Num(SubWidth(m), sub) == Num(SubWidth(n), sub) <==> WidthsAgree(sub, m, n)
  {
    NumIff(SubWidth(m), SubWidth(n), sub);
    ModOf(0, Pow2(sub), 0, 0);
  }

  /** The marks of byte `i` of a value of `m` bits are those of byte `j` of a load of `n`
      bits, if there are marks. */
  ghost predicate MarksAgree(f: Fields, m: nat, i: nat, n: nat, j: nat) {
    f.sub > 0 ==> WidthsAgree(f.sub, m, n) && i % Pow2(f.number) == j % Pow2(f.number)
  }

  /** Byte `i` of a value of `m` bits, read as byte `j` of a load of `n` bits, gives its value,
      and its poison bits exactly if the marks agree. */
  lemma ReadAcross(f: Fields, value: Bits, np: Bits, m: nat, i: nat, n: nat, j: nat)
    requires |Field(value, i * f.bits, f.bits)| == f.bits && |Field(np, i * f.poison, f.poison)| == f.poison
    ensures Contribution(f, ByteAt(f, value, np, m, i), n, j) ==
            (Field(value, i * f.bits, f.bits), if MarksAgree(f, m, i, n, j) then Field(np, i * f.poison, f.poison) else Zeros(f.poison))
  {
    ReadByte(f, Field(np, i * f.poison, f.poison), Field(value, i * f.bits, f.bits), m, i, n, j);
  }

  lemma ReadByte(f: Fields, np: Bits, value: Bits, m: nat, i: nat, n: nat, j: nat)
    requires |value| == f.bits && |np| == f.poison
    ensures Contribution(f, IntByte(f, np, value, SubWidth(m), i), n, j) == (value, if MarksAgree(f, m, i, n, j) then np else Zeros(f.poison))
  {
    IntByteFields(f, np, value, SubWidth(m), i);
    WidthsIff(f.sub, m, n);
    NumIff(i, j, f.number);
  }

  /** Byte `j` of a load of `n` bytes at the address of a value stored in `|bytes|`. */
  lemma LoadedFirst(mem: int -> Bits, at: int, bytes: seq<Bits>, n: nat, little: bool, j: nat)
    requires j < n <= |bytes|
    ensures Loaded(Stored(mem, at, bytes, little), at, n, little)[j] == bytes[if little then j else |bytes| - n + j]
  {
  }

  /** A load of `n` bytes at the address where a value of `m` bits was stored in `|bytes|`
      gives the lowest part of it, or on big-endian targets the highest. Its poison
      bits are there exactly if the marks agree: on little-endian targets if the
      widths do, on big-endian ones if also the numbers of the bytes do. */
  lemma ShorterLoad(f: Fields, value: Bits, np: Bits, m: nat, bytes: seq<Bits>, w: nat, n: nat, mem: int -> Bits, at: int, little: bool)
    returns (k: nat, loaded: seq<Bits>)
    requires 0 < n <= |bytes| && CutInto(f, value, np, m, bytes)
    ensures loaded == Loaded(Stored(mem, at, bytes, little), at, n, little)
    ensures k == if little then 0 else |bytes| - n
    ensures Gives(f, w, loaded, Pieces(value, f.bits, k, n), Pieces(np, f.poison, k, n), MarksAgree(f, m, k, w, 0))
  {
    loaded := Loaded(Stored(mem, at, bytes, little), at, n, little);
    k := if little then 0 else |bytes| - n;
    forall j: nat | j < n
      ensures loaded[j] == bytes[k + j]
    {
      LoadedFirst(mem, at, bytes, n, little, j);
    }
    ConsecutiveBytes(f, value, np, m, bytes, w, k, n, loaded);
  }

  /** The bytes hold the bits and poison bits of a value of `m` bits, padded. */
  ghost predicate CutInto(f: Fields, value: Bits, np: Bits, m: nat, bytes: seq<Bits>) {
    && |value| == |bytes| * f.bits && |np| == |bytes| * f.poison
    && forall i :: 0 <= i < |bytes| ==> bytes[i] == ByteAt(f, value, np, m, i)
  }

  /** In a load of width `w` the bytes join to these bits and, if `keep` says so, to these
      poison bits, else all is poison. */
  ghost predicate Gives(f: Fields, w: nat, bytes: seq<Bits>, value: Bits, np: Bits, keep: bool) {
    && CatUp(ValuesOf(f, w, bytes), |bytes|) == value
    && if keep then CatUp(PoisonOf(f, w, bytes), |bytes|) == np else true !in CatUp(PoisonOf(f, w, bytes), |bytes|)
  }

  lemma ConsecutiveBytes(f: Fields, value: Bits, np: Bits, m: nat, bytes: seq<Bits>, w: nat, k: nat, n: nat, loaded: seq<Bits>)
    requires CutInto(f, value, np, m, bytes) && k + n <= |bytes| && |loaded| == n && forall j: nat :: j < n ==> loaded[j] == bytes[k + j]
    ensures Gives(f, w, loaded, Pieces(value, f.bits, k, n), Pieces(np, f.poison, k, n), MarksAgree(f, m, k, w, 0))
  {
    PartInside(|bytes|, k, n, f.bits);
    PartInside(|bytes|, k, n, f.poison);
    PartLoaded(f, value, np, m, bytes, w, k, n, loaded, k * f.bits, n * f.bits, k * f.poison, n * f.poison);
  }

  /** Of bits cut into pieces of `w` from below, pieces `k` to `k + n`. */
  function Pieces(v: Bits, w: nat, k: nat, n: nat): Bits { Field(v, k * w, n * w) }

  lemma PartInside(b: nat, k: nat, n: nat, w: nat)
    requires k + n <= b
    ensures k * w + n * w <= b * w
  {
    MulMono(w, k + n, b);
    AddProducts(k, n, w);
  }

  lemma PartLoaded(f: Fields, value: Bits, np: Bits, m: nat, bytes: seq<Bits>, w: nat, k: nat, n: nat, loaded: seq<Bits>,
                   kb: nat, nb: nat, kp: nat, pb: nat)
    requires k + n <= |bytes| && |loaded| == n && forall j: nat :: j < n ==> loaded[j] == bytes[k + j]
    requires forall i :: 0 <= i < |bytes| ==> bytes[i] == ByteAt(f, value, np, m, i)
    requires kb == k * f.bits && nb == n * f.bits && kp == k * f.poison && pb == n * f.poison
    requires kb + nb <= |value| && kp + pb <= |np|
    ensures CatUp(ValuesOf(f, w, loaded), n) == value[kb..kb + nb]
    ensures CatUp(PoisonOf(f, w, loaded), n) == if MarksAgree(f, m, k, w, 0) then np[kp..kp + pb] else Zeros(pb)
  {
    var v, p := value[kb..kb + nb], if MarksAgree(f, m, k, w, 0) then np[kp..kp + pb] else Zeros(pb);
    var xs, ys := ValuesOf(f, w, loaded), PoisonOf(f, w, loaded);
    forall j: nat | j < n
      ensures xs[j] == Field(v, j * f.bits, f.bits) && ys[j] == Field(p, j * f.poison, f.poison)
    {
      PartAt(f, value, np, m, w, k, n, j, kb, nb, kp, pb, j * f.bits, j * f.poison);
    }
    Rejoin(v, xs, f.bits, n);
    Rejoin(p, ys, f.poison, n);
    assert v[..nb] == v && p[..pb] == p;
  }

  /** The pieces of a part are pieces of the whole. */
  lemma PieceOfPart(v: Bits, from: nat, len: nat, at: nat, n: nat)
    requires from + len <= |v| && at + n <= len
    ensures Field(v[from..from + len], at, n) == Field(v, from + at, n) && |Field(v, from + at, n)| == n
  {
    var part := v[from..from + len];
    var a, b := part[at..at + n], v[from + at..from + at + n];
    forall i | 0 <= i < n
      ensures a[i] == b[i]
    {
      assert part[at + i] == v[from + (at + i)];
    }
  }

  lemma PartAt(f: Fields, value: Bits, np: Bits, m: nat, w: nat, k: nat, n: nat, j: nat,
               kb: nat, nb: nat, kp: nat, pb: nat, jb: nat, jp: nat)
    requires j < n && kb == k * f.bits && nb == n * f.bits && kp == k * f.poison && pb == n * f.poison
    requires jb == j * f.bits && jp == j * f.poison && kb + nb <= |value| && kp + pb <= |np|
    ensures var c := Contribution(f, ByteAt(f, value, np, m, k + j), w, j);
      && c.0 == Field(value[kb..kb + nb], jb, f.bits)
      && c.1 == Field(if MarksAgree(f, m, k, w, 0) then np[kp..kp + pb] else Zeros(pb), jp, f.poison)
  {
    InRange(j, n, f.bits);
    InRange(j, n, f.poison);
    AddProducts(k, j, f.bits);
    AddProducts(k, j, f.poison);
    PieceOfPart(value, kb, nb, jb, f.bits);
    PieceOfPart(np, kp, pb, jp, f.poison);
    PieceOfZeros(pb, jp, f.poison);
    ReadAcross(f, value, np, m, k + j, w, j);
    SameShift(k, j, Pow2(f.number));
  }

  lemma PieceOfZeros(len: nat, at: nat, n: nat)
    requires at + n <= len
    ensures Field(Zeros(len), at, n) == Zeros(n)
  {
  }

  lemma SameShift(k: nat, j: nat, m: nat)
    requires m > 0
    ensures (k + j) % m == j % m <==> k % m == 0 % m
  {
    AddMod(k, j, m, k / m, j / m);
    ModOf(0, m, 0, 0);
  }

  lemma AddMod(k: nat, j: nat, m: nat, q: nat, s: nat)
    requires m > 0 && k == q * m + k % m && j == s * m + j % m
    ensures (k + j) % m == if k % m + j % m < m then k % m + j % m else k % m + j % m - m
  {
    var r := k % m + j % m;
    AddProducts(q, s, m);
    AddProducts(q + s, 1, m);
    if r < m { ModOf(k + j, m, q + s, r); } else { ModOf(k + j, m, q + s + 1, r - m); }
  }

  /** The poison bits of a value fit into the bytes that hold it. */
  ghost predicate PoisonFits(f: Fields, cfg: Config, ty: Type)
    requires f.bits > 0 && cfg.bitsByte > 0
  {
    NpInt(cfg, ty) <= DivideUp(Width(ty), f.bits) * f.poison
  }

  ghost predicate NoPointers(ty: Type) {
    match ty
    case Scalar(_, isPtr) => !isPtr
    case Agg(cs) => forall i :: 0 <= i < |cs| ==> NoPointers(cs[i].ty)
  }

  lemma DivideUpIs(a: nat, b: nat)
    requires b > 0
    ensures a <= DivideUp(a, b) * b < a + b
  {
    var q, r := (a + b - 1) / b, (a + b - 1) % b;
    assert a + b - 1 == q * b + r;
  }

  /** There are at least as many poison bits as the width asks for. */
  lemma {:induction false} EnoughPoison(cfg: Config, ty: Type)
    requires ConfigOk(cfg) && NoPointers(ty)
    ensures NpInt(cfg, ty) * cfg.bitsByte >= Width(ty) * cfg.poisonPerByte
    decreases ty, 1
  {
    var B, P := cfg.bitsByte, cfg.poisonPerByte;
    if ty.Scalar? {
      var w := ty.width;
      DivideUpIs(w * P, B);
      MulMono(w, P, B);
    } else if ty.children != [] {
      EnoughPoisonSum(cfg, ty, |ty.children|);
    }
  }

  lemma {:induction false} EnoughPoisonSum(cfg: Config, ty: Type, n: nat)
    requires ConfigOk(cfg) && NoPointers(ty) && ty.Agg? && n <= |ty.children|
    ensures SumInt(cfg, ty, n) * cfg.bitsByte >= SumWidth(ty, n) * cfg.poisonPerByte
    decreases ty, 0, n
  {
    if n > 0 {
      EnoughPoisonSum(cfg, ty, n - 1);
      var c := ty.children[n - 1].ty;
      EnoughPoison(cfg, c);
      AddProducts(SumInt(cfg, ty, n - 1), NpInt(cfg, c), cfg.bitsByte);
      AddProducts(SumWidth(ty, n - 1), Width(c), cfg.poisonPerByte);
    }
  }

  lemma AddProducts(a: nat, b: nat, m: nat)
    ensures (a + b) * m == a * m + b * m
  {
  }

  lemma MulMono(w: nat, a: nat, b: nat)
    requires a <= b
    ensures w * a <= w * b
  {
    assert w * b == w * a + w * (b - a);
  }

  /** So with the padding every byte gets its poison bits. */
  lemma PaddingEnough(m: nat, n: nat, b: nat, B: nat, P: nat)
    requires 0 < P <= B && m * B >= n * P && n <= b * B
    ensures b * P <= m + (b * B - n)
  {
    var x := m + (b * B - n) - b * P;
    MulMono(b * B - n, P, B);
    assert x * B == m * B + (b * B - n) * B - b * P * B;
    assert (b * B - n) * P == b * P * B - n * P by { assert (b * B) * P == b * P * B; }
    assert x * B >= 0;
    if x < 0 { AtLeastOnce(-x, B); }
  }

  /** For integers of any width the poison bits fit. */
  lemma ScalarPoisonFits(f: Fields, cfg: Config, w: nat)
    requires ConfigOk(cfg) && cfg.bitsByte == f.bits && cfg.poisonPerByte == f.poison
    ensures PoisonFits(f, cfg, Scalar(w, false))
  {
    FitsInBytes(w * f.poison, DivideUp(w, f.bits) * f.poison, f.bits) by {
      DivideUpIs(w, f.bits);
      MulMono(f.poison, w, DivideUp(w, f.bits) * f.bits);
      assert f.poison * (DivideUp(w, f.bits) * f.bits) == DivideUp(w, f.bits) * f.poison * f.bits;
    }
  }

  lemma FitsInBytes(a: nat, c: nat, b: nat)
    requires b > 0 && a <= c * b
    ensures DivideUp(a, b) <= c
  {
    DivideUpIs(a, b);
    if DivideUp(a, b) > c {
      AddProducts(c, DivideUp(a, b) - c, b);
      AtLeastOnce(DivideUp(a, b) - c, b);
    }
  }

  lemma {:induction false} VectorPoison(cfg: Config, n: nat, w: nat, k: nat)
    requires cfg.bitsByte > 0 && k <= n
    ensures SumInt(cfg, VectorOf(n, w, false), k) == k * Min(w, DivideUp(w * cfg.poisonPerByte, cfg.bitsByte))
  {
    var m := Min(w, DivideUp(w * cfg.poisonPerByte, cfg.bitsByte));
    if k > 0 {
      VectorPoison(cfg, n, w, k - 1);
      assert k * m == (k - 1) * m + m;
    }
  }

  /** If the elements' poison bits are aligned with the bytes, those of a vector fit. */
  lemma VectorPoisonFits(f: Fields, cfg: Config, n: nat, w: nat)
    requires ConfigOk(cfg) && cfg.bitsByte == f.bits && cfg.poisonPerByte == f.poison && n > 0
    requires (w * f.poison) % f.bits == 0
    ensures PoisonFits(f, cfg, VectorOf(n, w, false))
  {
    var q := w * f.poison / f.bits;
    assert w * f.poison == q * f.bits;
    FitsInBytes(w * f.poison, q, f.bits);
    VectorPoison(cfg, n, w, n);
    VectorSums(n, w, false, n);
    var m := Min(w, DivideUp(w * f.poison, f.bits));
    MulMono(n, m, q);
    DivideUpIs(n * w, f.bits);
    ScaleUp(n, w, f.poison, f.bits, q, DivideUp(n * w, f.bits));
  }

  /** They fit for vectors of every length exactly if the poison bits of an element
      are aligned with the bytes. */
  lemma VectorsFitIff(f: Fields, cfg: Config, w: nat)
    requires ConfigOk(cfg) && cfg.bitsByte == f.bits && cfg.poisonPerByte == f.poison
    ensures (forall n: nat {:trigger VectorOf(n, w, false)} :: n > 0 ==> PoisonFits(f, cfg, VectorOf(n, w, false))) <==> (w * f.poison) % f.bits == 0
  {
    if (w * f.poison) % f.bits == 0 {
      forall n: nat | n > 0
        ensures PoisonFits(f, cfg, VectorOf(n, w, false))
      {
        VectorPoisonFits(f, cfg, n, w);
      }
    } else {
      LongVectorDoesNotFit(f, cfg, w);
    }
  }

  /** Each element wastes part of a poison bit, so enough of them do not fit. */
  lemma LongVectorDoesNotFit(f: Fields, cfg: Config, w: nat)
    requires ConfigOk(cfg) && cfg.bitsByte == f.bits && cfg.poisonPerByte == f.poison
    requires (w * f.poison) % f.bits != 0
    ensures f.bits * f.poison > 0 && !PoisonFits(f, cfg, VectorOf(f.bits * f.poison, w, false))
  {
    var B, P := f.bits, f.poison;
    var n, m := B * P, Min(w, DivideUp(w * P, B));
    AtLeastOnce(B, P);
    VectorPoison(cfg, n, w, n);
    VectorSums(n, w, false, n);
    ElementWastes(w, P, B);
    DivideUpIs(n * w, B);
    TooMany(n, w, P, B, m, DivideUp(n * w, B));
  }

  /** An element has more poison bits than its share. */
  lemma ElementWastes(w: nat, P: nat, B: nat)
    requires 0 < P <= B && (w * P) % B != 0
    ensures Min(w, DivideUp(w * P, B)) * B > w * P
  {
    DivideUpIs(w * P, B);
    MulMono(w, P, B);
    var m := Min(w, DivideUp(w * P, B));
    if m * B == w * P { ModIs(w * P, B, m); }
  }

  lemma TooMany(n: nat, w: nat, P: nat, B: nat, m: nat, bytes: nat)
    requires B > 0 && P > 0 && n == B * P && m * B >= w * P + 1 && bytes * B < n * w + B
    ensures n * m > bytes * P
  {
    Needed(n, w, P, B, m);
    Available(n, w, P, B, bytes);
    if n * m <= bytes * P { MulMono(B, n * m, bytes * P); }
  }

  lemma Needed(n: nat, w: nat, P: nat, B: nat, m: nat)
    requires m * B >= w * P + 1
    ensures B * (n * m) >= (n * w) * P + n
  {
    MulMono(n, w * P + 1, m * B);
    Regroup(n, w, P);
    Regroup(n, m, B);
    Regroup(B, n * m, 1);
    assert n * (w * P + 1) == n * (w * P) + n;
  }

  lemma Available(n: nat, w: nat, P: nat, B: nat, bytes: nat)
    requires P > 0 && n == B * P && bytes * B < n * w + B
    ensures B * (bytes * P) < (n * w) * P + n
  {
    MulMono(P, bytes * B + 1, n * w + B);
    Regroup(bytes, B, P);
    Regroup(B, P, 1);
    Regroup(bytes, P, B);
    assert P * (bytes * B + 1) == (bytes * B) * P + P;
    assert P * (n * w + B) == (n * w) * P + n;
    assert B * (bytes * P) == (bytes * B) * P;
  }

  lemma ScaleUp(n: nat, w: nat, P: nat, B: nat, q: nat, bytes: nat)
    requires B > 0 && w * P == q * B && n * w <= bytes * B
    ensures n * q <= bytes * P
  {
    MulMono(P, n * w, bytes * B);
    Regroup(n, q, B);
    Regroup(n, w, P);
    Regroup(P, bytes, B);
    assert (n * q) * B == n * (w * P);
    assert P * (bytes * B) == (P * bytes) * B;
    Cancel(n * q, P * bytes, B);
  }

  lemma Regroup(a: nat, b: nat, c: nat)
    ensures (a * b) * c == a * (b * c) && a * b == b * a
  {
  }

  lemma Cancel(a: int, c: int, b: nat)
    requires b > 0 && a * b <= c * b
    ensures a <= c
  {
    if a > c {
      assert (a - c) * b == a * b - c * b;
      AtLeastOnce(a - c, b);
    }
  }

  /** With the granularity the program gets, the poison bits of everything it encodes fit. */
  lemma AlwaysFits(f: Fields, cfg: Config, ts: seq<IrType>, ptrBits: nat, ty: Type)
    requires Chosen(cfg, ts, ptrBits) && Encodable(ts, ty) && cfg.bitsByte == f.bits && cfg.poisonPerByte == f.poison
    ensures ConfigOk(cfg) && PoisonFits(f, cfg, ty) && TypeOk(ty) && NoPadding(ty) && NoPointers(ty)
  {
    ChosenEven(cfg, ts, ptrBits);
    if ty.Scalar? {
      ScalarPoisonFits(f, cfg, ty.width);
    } else {
      var n: nat, w: nat :| IsVector(ty, n, w) && OccursIn(ts, w);
      ChosenAligned(cfg, ts, ptrBits, w);
      VectorPoisonFits(f, cfg, n, w);
    }
  }

  /** The bits that were cut into bytes come back. */
  lemma BitsBack(f: Fields, cfg: Config, types: seq<IrType>, ptrBits: nat, ty: Type, v: Val, padValue: Bits, padNp: Bits, bytes: seq<Bits>)
    requires Chosen(cfg, types, ptrBits) && Encodable(types, ty) && cfg.bitsByte == f.bits && cfg.poisonPerByte == f.poison
    requires Fits(ty, v) && |padValue| == |padNp| == DivideUp(Width(ty), f.bits) * f.bits - Width(ty)
    requires Encodes(f, cfg, ty, v, padValue, padNp, bytes)
    ensures
      var value, np := CatUp(ValuesOf(f, Width(ty), bytes), |bytes|), CatUp(PoisonOf(f, Width(ty), bytes), |bytes|);
      && |value| >= Width(ty) && |np| >= NpInt(cfg, ty)
      && value[..Width(ty)] == ToInt(cfg, ty, v).0 && np[..NpInt(cfg, ty)] == ToInt(cfg, ty, v).1
  {
    AlwaysFits(f, cfg, types, ptrBits, ty);
    FittingBitsBack(f, cfg, ty, v, padValue, padNp, bytes);
  }

  /** The same for every type whose poison bits fit. */
  lemma FittingBitsBack(f: Fields, cfg: Config, ty: Type, v: Val, padValue: Bits, padNp: Bits, bytes: seq<Bits>)
    requires ConfigOk(cfg) && cfg.bitsByte == f.bits && cfg.poisonPerByte == f.poison
    requires Fits(ty, v) && NoPointers(ty) && PoisonFits(f, cfg, ty)
    requires |padValue| == |padNp| == DivideUp(Width(ty), f.bits) * f.bits - Width(ty)
    requires Encodes(f, cfg, ty, v, padValue, padNp, bytes)
    ensures
      var value, np := CatUp(ValuesOf(f, Width(ty), bytes), |bytes|), CatUp(PoisonOf(f, Width(ty), bytes), |bytes|);
      && |value| >= Width(ty) && |np| >= NpInt(cfg, ty)
      && value[..Width(ty)] == ToInt(cfg, ty, v).0 && np[..NpInt(cfg, ty)] == ToInt(cfg, ty, v).1
  {
    ToIntSize(cfg, ty, v);
    DivideUpIs(Width(ty), f.bits);
    EnoughPoison(cfg, ty);
    PaddingEnough(NpInt(cfg, ty), Width(ty), |bytes|, f.bits, f.poison);
    var u := ToInt(cfg, ty, v);
    BytesJoin(f, Width(ty), u.0 + padValue, u.1 + padNp, bytes, |bytes| * f.poison);
    CutBack(u.0, padValue, |u.0 + padValue|);
    CutBack(u.1, padNp, |bytes| * f.poison);
  }

  lemma CutBack(a: Bits, b: Bits, n: nat)
    requires |a| <= n <= |a| + |b|
    ensures (a + b)[..n][..|a|] == a
  {
  }

  /** Storing an integer or a vector of the program and loading it at the same type gives
      the value and its poison back: for every width, padding and byte order. */
  lemma StoreLoadRoundTrip(f: Fields, cfg: Config, types: seq<IrType>, ptrBits: nat, ty: Type, v: Val,
                           padValue: Bits, padNp: Bits, bytes: seq<Bits>, mem: int -> Bits, at: int)
    requires Chosen(cfg, types, ptrBits) && Encodable(types, ty) && cfg.bitsByte == f.bits && cfg.poisonPerByte == f.poison
    requires Fits(ty, v) && |padValue| == |padNp| == DivideUp(Width(ty), f.bits) * f.bits - Width(ty)
    requires Encodes(f, cfg, ty, v, padValue, padNp, bytes)
    ensures
      var loaded := Loaded(Stored(mem, at, bytes, cfg.little), at, |bytes|, cfg.little);
      var value, np := CatUp(ValuesOf(f, Width(ty), loaded), |loaded|), CatUp(PoisonOf(f, Width(ty), loaded), |loaded|);
      |value| >= Width(ty) && |np| >= NpInt(cfg, ty) && FromInt(cfg, ty, value[..Width(ty)], np[..NpInt(cfg, ty)]) == v
  {
    LoadStored(mem, at, bytes, cfg.little);
    AlwaysFits(f, cfg, types, ptrBits, ty);
    FittingBitsBack(f, cfg, ty, v, padValue, padNp, bytes);
    EncodableCanon(types, ty, v);
    IntRoundTrip(cfg, ty, v);
  }

  /** Without padding every value of the right widths is as packing leaves it. */
  lemma EncodableCanon(types: seq<IrType>, ty: Type, v: Val)
    requires Encodable(types, ty) && Fits(ty, v)
    ensures Canon(ty, v)
  {
    if ty.Agg? {
      var n: nat, w: nat :| IsVector(ty, n, w) && OccursIn(types, w);
      forall i | 0 <= i < |ty.children|
        ensures Canon(ty.children[i].ty, Extract(ty, v, i))
      {
        ExtractFits(ty, v, i);
      }
    }
  }

  // ---------------------------------------------------------------------
  // Pointers
  // ---------------------------------------------------------------------

  /** `valueToBytes` of a pointer: every byte holds the whole pointer and its own number. */
  function PtrBytes(f: Fields, ptr: Bits, np: bool, n: nat): seq<Bits> {
    seq(n, i requires 0 <= i < n => PtrByte(f, np, ptr, i))
  }

  /** `bytesToValue` of a pointer, for bytes of the pointer kind. */
  function PtrFromBytes(f: Fields, bytes: seq<Bits>): (Bits, bool)
    requires bytes != []
  {
    (PtrValue(f, bytes[0]),
     forall i :: 0 <= i < |bytes| ==>
       IsPtr(bytes[i]) && PtrNp(bytes[i]) && PtrValue(f, bytes[i]) == PtrValue(f, bytes[0]) && PtrOffset(f, bytes[i]) == Num(i, f.offset))
  }

  /** A pointer comes back with its poison, in both byte orders. */
  lemma PtrRoundTrip(f: Fields, ptr: Bits, np: bool, n: nat, mem: int -> Bits, at: int, little: bool)
    requires n > 0 && |ptr| == f.ptr
    ensures PtrFromBytes(f, Loaded(Stored(mem, at, PtrBytes(f, ptr, np, n), little), at, n, little)) == (ptr, np)
  {
    var bytes := PtrBytes(f, ptr, np, n);
    LoadStored(mem, at, bytes, little);
    forall i: nat | i < n
      ensures IsPtr(bytes[i]) && PtrNp(bytes[i]) == np && PtrValue(f, bytes[i]) == ptr && PtrOffset(f, bytes[i]) == Num(i, f.offset)
    {
      PtrByteFields(f, np, ptr, i);
    }
    if !np { assert !PtrNp(bytes[0]); }
  }

  /** A pointer byte gives an integer load nothing but poison. */
  lemma PtrByteAsInt(f: Fields, ptr: Bits, np: bool, offset: nat, n: nat, i: nat)
    requires |ptr| == f.ptr
    ensures true !in Contribution(f, PtrByte(f, np, ptr, offset), n, i).1
  {
    PtrByteFields(f, np, ptr, offset);
  }
}
