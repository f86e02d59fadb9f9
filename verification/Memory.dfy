/** The block memory model under one valuation: blocks kept as one byte or as an
    array, accesses fanned out over the may-alias set, and type tags that let a
    load skip a block. It refines a flat map from locations to bytes. The width of
    a byte and the number of its poison bits are arbitrary constants. */
module MemoryModel {
  import opened AliasSets
  import opened Exprs
  import opened Options

  // ---------------------------------------------------------------------
  // Bytes
  // ---------------------------------------------------------------------

  type Positive = n: int | n > 0 witness 1

  // Poison bits of a byte, and bits that share one of them.
  const POISON_BITS: Positive
  const GROUP: Positive
  const BITS_BYTE: nat := POISON_BITS * GROUP

  function Zeros(n: nat): (s: seq<bool>)
    ensures |s| == n && true !in s
  {
    seq(n, _ => false)
  }

  type ByteBits = s: seq<bool> | |s| == BITS_BYTE witness Zeros(BITS_BYTE)
  type ByteMask = s: seq<bool> | |s| == POISON_BITS witness Zeros(POISON_BITS)

  /** A pointer byte, or an integer byte: its non-poison bits, its value, and the
      marks of a sub-byte access. */
  datatype Byte =
    | PtrByte(np: bool, ptr: nat, off: nat)
    | IntByte(mask: ByteMask, val: ByteBits, stored: nat, number: nat)

  const POISON := IntByte(Zeros(POISON_BITS), Zeros(BITS_BYTE), 0, 0)
  const NULLPTR := 0

  predicate IsPoison(b: Byte) {
    if b.PtrByte? then !b.np else false in b.mask
  }

  predicate IsZero(b: Byte) {
    if b.PtrByte? then b.ptr == NULLPTR else true !in b.val
  }

  /** One of the integer bytes a null pointer may be read from. */
  predicate IsNullByte(b: Byte) {
    b.IntByte? && IsZero(b) && !IsPoison(b)
  }

  lemma PoisonIs()
    ensures IsPoison(POISON)
  {
    assert POISON.mask[0] == false;
  }

  predicate PtrBytesOk(bytes: seq<Byte>)
    requires bytes != []
  {
    forall i :: 0 <= i < |bytes| ==>
      && !IsPoison(bytes[i]) && bytes[i].PtrByte? == bytes[0].PtrByte?
      && (if bytes[0].PtrByte? then bytes[i].PtrByte? && bytes[i].off == i && bytes[i].ptr == bytes[0].ptr
          else IsZero(bytes[i]))
  }

  /** The pointer that a sequence of bytes stands for, if it is not poison. */
  function PtrOf(bytes: seq<Byte>): Option<nat>
    requires bytes != []
  {
    if !PtrBytesOk(bytes) then None else Some(if bytes[0].PtrByte? then bytes[0].ptr else NULLPTR)
  }

  /** `bytesToValue` for a pointer type. */
  method BytesToPtr(bytes: seq<Byte>) returns (r: Option<nat>)
    requires bytes != []
    ensures r == PtrOf(bytes)
  {
    var np := true;
    var isPtr := bytes[0].PtrByte?;
    for i := 0 to |bytes|
      invariant np <==> forall j :: 0 <= j < i ==>
        && !IsPoison(bytes[j]) && bytes[j].PtrByte? == isPtr
        && (if isPtr then bytes[j].PtrByte? && bytes[j].off == j && bytes[j].ptr == bytes[0].ptr
            else IsZero(bytes[j]))
    {
      var b := bytes[i];
      np := np && b.PtrByte? == isPtr;
      np := np && (if isPtr then b.PtrByte? && b.off == i && b.ptr == bytes[0].ptr else IsZero(b));
      np := np && !IsPoison(b);
    }
    r := if np then Some(if isPtr then bytes[0].ptr else NULLPTR) else None;
  }

  /** The poison bit that guards bit `i`. */
  function Guard(i: nat): (k: nat)
    requires i < BITS_BYTE
    ensures k < POISON_BITS
  {
    GuardInside(i / GROUP, POISON_BITS, GROUP);
    i / GROUP
  }

  lemma GuardInside(q: int, m: nat, n: nat)
    ensures q >= m ==> q * n >= m * n
  {
    if q >= m {
      assert (q - m) * n >= 0;
    }
  }

  /** The bits an integer load keeps of one byte; none if it is a pointer byte or
      its sub-byte marks are not the expected ones. */
  function IntBits(b: Byte, marks: Option<(nat, nat)>): (s: seq<Option<bool>>)
    ensures |s| == BITS_BYTE
  {
    seq(BITS_BYTE, i requires 0 <= i < BITS_BYTE =>
      if b.IntByte? && (marks.Some? ==> marks.value == (b.stored, b.number)) && b.mask[Guard(i)] then Some(b.val[i])
      else None)
  }

  // ---------------------------------------------------------------------
  // Type tags
  // ---------------------------------------------------------------------

  /** What a block may hold, or a load may want. */
  datatype Tag = Tag(ints: bool, ptrs: bool) {
    function Or(t: Tag): Tag { Tag(ints || t.ints, ptrs || t.ptrs) }
    predicate Meets(t: Tag) { (ints && t.ints) || (ptrs && t.ptrs) }
  }

  const ANY := Tag(true, true)
  const INT := Tag(true, false)
  const PTR := Tag(false, true)
  const NONE := Tag(false, false)

  /** A byte expression: its value, and whether `isPtr` and `isZero` fold to a literal. */
  datatype SymByte = SymByte(b: Byte, ptrKnown: bool, zeroKnown: bool) {
    predicate MaybePtr() { !ptrKnown || b.PtrByte? }
    predicate MaybeInt() { !ptrKnown || b.IntByte? }
    predicate MaybeIntZero() { MaybeInt() && (!zeroKnown || IsZero(b)) }
  }

  /** Bytes to store, each with its offset in the access. */
  type Data = seq<(nat, SymByte)>

  ghost predicate SomePtr(data: Data, n: nat)
    requires n <= |data|
  {
    exists k :: 0 <= k < n && data[k].1.MaybePtr()
  }

  ghost predicate SomeInt(data: Data, n: nat)
    requires n <= |data|
  {
    exists k :: 0 <= k < n && data[k].1.MaybeInt()
  }

  /** The positions among the first `n` that may hold a zero integer byte. */
  ghost function ZeroPositions(data: Data, n: nat): (s: set<nat>)
    requires n <= |data|
    ensures forall k: nat :: k in s <==> k < n && data[k].1.MaybeIntZero()
  {
    if n == 0 then {}
    else ZeroPositions(data, n - 1) + (if data[n - 1].1.MaybeIntZero() then {n - 1} else {})
  }

  /** What `data_type` answers: `w` is the size of a pointer in bytes. */
  ghost function DataType(data: Data, full: bool, w: nat): Tag {
    var zeros := |ZeroPositions(data, |data|)|;
    Tag(SomeInt(data, |data|), SomePtr(data, |data|) || (if full then zeros >= w else zeros > 0))
  }

  lemma DataTypeStep(data: Data, k: nat)
    requires k < |data|
    ensures SomeInt(data, k + 1) <==> SomeInt(data, k) || data[k].1.MaybeInt()
    ensures SomePtr(data, k + 1) <==> SomePtr(data, k) || data[k].1.MaybePtr()
    ensures |ZeroPositions(data, k + 1)| == |ZeroPositions(data, k)| + (if data[k].1.MaybeIntZero() then 1 else 0)
  {
    assert k !in ZeroPositions(data, k);
  }

  /** The positions of bytes that may, for all that is literal about them, be an integer byte of zeros. */
  ghost function ZeroBytes(data: Data): set<nat> {
    set k: nat | k < |data| && (!data[k].1.ptrKnown || data[k].1.b.IntByte?)
      && (!data[k].1.zeroKnown || (if data[k].1.b.PtrByte? then data[k].1.b.ptr == 0 else true !in data[k].1.b.val))
  }

  /** Integers if some byte may be one; pointers if some byte may be one or the zeros suffice for a null pointer. */
  ghost predicate TypeOf(t: Tag, data: Data, full: bool, w: nat) {
    && (t.ints <==> exists k :: 0 <= k < |data| && (!data[k].1.ptrKnown || data[k].1.b.IntByte?))
    && (t.ptrs <==>
      || (exists k :: 0 <= k < |data| && (!data[k].1.ptrKnown || data[k].1.b.PtrByte?))
      || |ZeroBytes(data)| >= (if full then w else 1))
  }

  lemma DataTypeIff(data: Data, full: bool, w: nat)
    ensures TypeOf(DataType(data, full, w), data, full, w)
  {
    assert ZeroPositions(data, |data|) == ZeroBytes(data);
    if SomeInt(data, |data|) { var k :| 0 <= k < |data| && data[k].1.MaybeInt(); }
    if SomePtr(data, |data|) { var k :| 0 <= k < |data| && data[k].1.MaybePtr(); }
    if k :| 0 <= k < |data| && (!data[k].1.ptrKnown || data[k].1.b.IntByte?) { assert data[k].1.MaybeInt(); }
    if k :| 0 <= k < |data| && (!data[k].1.ptrKnown || data[k].1.b.PtrByte?) { assert data[k].1.MaybePtr(); }
  }

  /** What a load may read a byte as: a byte reads as null if it is a zero pointer byte, or a zero integer byte,
      without poison; and a tag is met by the kinds it has. */
  lemma ReadsNull(b: Byte, t: Tag)
    ensures (b.PtrByte? ==> b.off == 0) ==> (PtrOf([b]) == Some(0) <==> IsZero(b) && !IsPoison(b))
    ensures b.IntByte? ==> (PtrOf([b]) == Some(0) <==> IsNullByte(b))
    ensures b.PtrByte? ==> !IsNullByte(b)
    ensures t.Meets(INT) == t.ints && t.Meets(PTR) == t.ptrs && (t.Meets(ANY) <==> t.ints || t.ptrs) && !t.Meets(NONE)
  {
  }

  method ComputeDataType(data: Data, full: bool, w: nat) returns (t: Tag)
    ensures t == DataType(data, full, w)
  {
    var isInt, isPtr, zeros := false, false, 0;
    for k := 0 to |data|
      invariant isInt <==> SomeInt(data, k)
      invariant isPtr <==> SomePtr(data, k)
      invariant zeros == |ZeroPositions(data, k)|
    {
      DataTypeStep(data, k);
      if data[k].1.MaybePtr() { isPtr := true; }
      if data[k].1.MaybeInt() {
        isInt := true;
        if !(data[k].1.zeroKnown && !IsZero(data[k].1.b)) {
          zeros := zeros + 1;
        }
      }
      if isInt && isPtr {
        return ANY;
      }
    }
    t := Tag(isInt, isPtr || (if full then zeros >= w else zeros > 0));
  }

  // ---------------------------------------------------------------------
  // Blocks
  // ---------------------------------------------------------------------

  /** Contents of a block: one byte for every offset, or an array. */
  datatype BlockVal = Single(b: Byte) | Array(f: int -> Byte)

  datatype MemBlock = MemBlock(val: BlockVal, tag: Tag)

  /** The size of a block, and whether it is a literal. */
  datatype BlockInfo = BlockInfo(size: nat, known: bool)

  /** `raw_load` */
  function At(v: BlockVal, x: int): Byte {
    match v
    case Single(b) => b
    case Array(f) => f(x)
  }

  /** `mk_store`: a single byte becomes a constant array first. */
  function Put(v: BlockVal, x: int, b: Byte): BlockVal {
    Array((y: int) => if y == x then b else At(v, y))
  }

  /** `mk_block_if`: mixed shapes become arrays unless the condition is a literal. */
  function MkIf(c: Cond, a: BlockVal, b: BlockVal): BlockVal {
    if c.known then (if c.val then a else b)
    else if a.Single? != b.Single? then
      (if c.val then Array((y: int) => At(a, y)) else Array((y: int) => At(b, y)))
    else if c.val then a else b
  }

  /** The offsets of the data are 0 to `|data| - 1`, in some order. */
  ghost predicate Layout(data: Data) {
    && (forall k :: 0 <= k < |data| ==> data[k].0 < |data|)
    && (forall j, k :: 0 <= j < k < |data| ==> data[j].0 != data[k].0)
    && (forall i :: 0 <= i < |data| ==> Holds(data, i))
  }

  ghost predicate Holds(data: Data, i: nat) {
    exists k :: 0 <= k < |data| && data[k].0 == i
  }

  ghost function Where(data: Data, i: nat): (k: nat)
    requires Layout(data) && i < |data|
    ensures k < |data| && data[k].0 == i
  {
    assert Holds(data, i);
    var k :| 0 <= k < |data| && data[k].0 == i;
    k
  }

  /** The stored bytes in address order. */
  ghost function Stored(data: Data): (s: seq<Byte>)
    requires Layout(data)
    ensures |s| == |data|
  {
    seq(|data|, i requires 0 <= i < |data| && Layout(data) => data[Where(data, i)].1.b)
  }

  /** The update loop of `store`; with `full`, bytes equal to the first one are left to the default. */
  function PutAll(v: BlockVal, off: int, data: Data, full: bool, n: nat): BlockVal
    requires n <= |data|
  {
    if n == 0 then v
    else
      var w := PutAll(v, off, data, full, n - 1);
      if full && data[n - 1].1 == data[0].1 then w
      else Put(w, off + data[n - 1].0, data[n - 1].1.b)
  }

  lemma {:induction false} PutAllAt(v: BlockVal, off: int, data: Data, full: bool, n: nat, x: int)
    requires Layout(data) && n <= |data|
    requires full ==> data != [] && v == Single(data[0].1.b)
    ensures forall k :: 0 <= k < n && off + data[k].0 == x ==> At(PutAll(v, off, data, full, n), x) == data[k].1.b
    ensures (forall k :: 0 <= k < n ==> off + data[k].0 != x) ==> At(PutAll(v, off, data, full, n), x) == At(v, x)
  {
    if n > 0 {
      PutAllAt(v, off, data, full, n - 1, x);
    }
  }

  /** One block of the fan-out of `store`. */
  function StoreBlock(blk: MemBlock, info: BlockInfo, off: int, data: Data, partial: Tag, full: Tag, c: Cond): MemBlock
    requires data != []
  {
    var fullWrite := info.known && info.size == |data|;
    var base := if fullWrite then Single(data[0].1.b) else blk.val;
    var tag := if !fullWrite then blk.tag.Or(partial)
               else if c.IsTrue() then full
               else blk.tag.Or(full);
    MemBlock(MkIf(c, PutAll(base, off, data, fullWrite, |data|), blk.val), tag)
  }

  /** Where a store of `n` bytes at `off` lands in a block that it hits. */
  predicate Covers(c: Cond, off: int, n: nat, x: int) {
    c.val && off <= x < off + n
  }

  predicate Fits(c: Cond, off: int, n: nat, size: nat) {
    c.val && n > 0 ==> 0 <= off && off + n <= size
  }

  /** A block the pointer does not hit keeps its bytes; the other one gets the data. */
  lemma StoreBlockAt(blk: MemBlock, info: BlockInfo, off: int, data: Data, partial: Tag, full: Tag, c: Cond, x: int)
    requires data != [] && Layout(data) && 0 <= x < info.size && Fits(c, off, |data|, info.size)
    ensures At(StoreBlock(blk, info, off, data, partial, full, c).val, x) ==
            if Covers(c, off, |data|, x) then Stored(data)[x - off] else At(blk.val, x)
  {
    var fullWrite := info.known && info.size == |data|;
    var base := if fullWrite then Single(data[0].1.b) else blk.val;
    if c.val {
      PutAllAt(base, off, data, fullWrite, |data|, x);
      if off <= x < off + |data| {
        assert off + data[Where(data, x - off)].0 == x;
      }
    }
  }

  /** One block of the fan-out of `storeLambda`, for one value that may depend on
      the offset; `full` says that the length is literally the block size. */
  function LambdaBlock(blk: MemBlock, full: bool, off: int, n: nat, val: int -> Byte, noOffset: bool,
                       tag: Tag, c: Cond): MemBlock
  {
    var old_ := blk.val;
    if full then
      MemBlock(if noOffset then MkIf(c, Single(val(0)), old_)
               else Array((x: int) => if c.val then val(x) else At(old_, x)),
               (if c.IsTrue() then tag else blk.tag).Or(tag))
    else
      MemBlock(Array((x: int) => if Covers(c, off, n, x) then val(x) else At(old_, x)), blk.tag.Or(tag))
  }

  lemma LambdaBlockAt(blk: MemBlock, size: nat, full: bool, off: int, n: nat, val: int -> Byte, noOffset: bool,
                      tag: Tag, c: Cond, x: int)
    requires 0 <= x < size && Fits(c, off, n, size)
    requires full ==> n == size
    requires noOffset ==> Constant(val)
    ensures At(LambdaBlock(blk, full, off, n, val, noOffset, tag, c).val, x) ==
            if Covers(c, off, n, x) then val(x) else At(blk.val, x)
  {
  }

  // ---------------------------------------------------------------------
  // Tags are sound
  // ---------------------------------------------------------------------

  /** Somewhere in the `w` bytes from `x` on is a byte no null pointer is read from. */
  ghost predicate NonNullIn(v: BlockVal, x: int, w: nat) {
    exists y :: x <= y < x + w && !IsNullByte(At(v, y))
  }

  predicate KindOk(b: Byte, tag: Tag) {
    && (!tag.ints ==> b.PtrByte? || b == POISON)
    && (!tag.ptrs ==> b.IntByte?)
  }

  /** The tag excludes nothing that is in the block: bytes that never got a value
      aside, without the integer tag all bytes are pointer bytes; without the
      pointer tag all are integer bytes and no `w` consecutive ones read as a
      null pointer. */
  ghost predicate TagOk(blk: MemBlock, size: nat, w: nat) {
    && (forall x :: 0 <= x < size ==> KindOk(At(blk.val, x), blk.tag))
    && (!blk.tag.ptrs ==> forall x :: 0 <= x && x + w <= size ==> NonNullIn(blk.val, x, w))
  }

  ghost function Wheres(data: Data, x: nat, w: nat): (s: set<nat>)
    requires Layout(data) && x + w <= |data|
    ensures forall k :: k in s <==> exists i :: x <= i < x + w && k == Where(data, i)
    ensures |s| == w
  {
    if w == 0 then {}
    else
      var s := Wheres(data, x, w - 1);
      assert Where(data, x + w - 1) !in s;
      s + {Where(data, x + w - 1)}
  }

  /** A fully written block with fewer than `w` zeros has no window of `w` null bytes. */
  lemma FewZeros(data: Data, x: nat, w: nat)
    requires Layout(data) && x + w <= |data| && |ZeroPositions(data, |data|)| < w
    ensures exists y :: x <= y < x + w && !IsNullByte(Stored(data)[y])
  {
    var s := Wheres(data, x, w);
    var z := ZeroPositions(data, |data|);
    var k := NotCovered(s, z);
    var i :| x <= i < x + w && k == Where(data, i);
    assert !data[k].1.MaybeIntZero() && Stored(data)[i] == data[k].1.b;
  }

  lemma NotCovered(s: set<nat>, z: set<nat>) returns (k: nat)
    requires |z| < |s|
    ensures k in s && k !in z
  {
    assert !(s <= z) by { if s <= z { SubsetSize(s, z); } }
    k :| k in s && k !in z;
  }

  lemma SubsetSize(a: set<nat>, b: set<nat>)
    requires a <= b
    ensures |a| <= |b|
  {
    assert b == a + (b - a);
  }

  /** Without a possible zero, no stored byte reads as null. */
  lemma NoZeros(data: Data, x: nat)
    requires Layout(data) && x < |data| && |ZeroPositions(data, |data|)| == 0
    ensures !IsNullByte(Stored(data)[x])
  {
    var k := Where(data, x);
    assert ZeroPositions(data, |data|) == {};
    assert !data[k].1.MaybeIntZero();
  }

  /** The bytes of a store are of the kinds its tag lists. */
  lemma StoredKinds(data: Data, full: bool, w: nat, x: nat)
    requires Layout(data) && x < |data|
    ensures KindOk(Stored(data)[x], DataType(data, full, w))
  {
    var k := Where(data, x);
    if data[k].1.b.PtrByte? { assert data[k].1.MaybePtr(); } else { assert data[k].1.MaybeInt(); }
  }

  /** `now` is `was` with `bytes` written at `off` if the block is hit. */
  ghost predicate Overwrites(now: BlockVal, was: BlockVal, size: nat, c: Cond, off: int, n: nat, val: int -> Byte) {
    forall x :: 0 <= x < size ==> At(now, x) == if Covers(c, off, n, x) then val(x) else At(was, x)
  }

  /** A write whose own tag is sound and that reads nowhere as null keeps a block's tag sound. */
  lemma WriteTagOk(now: MemBlock, was: MemBlock, size: nat, w: nat, c: Cond, off: int, n: nat, val: int -> Byte, tag: Tag)
    requires TagOk(was, size, w) && Overwrites(now.val, was.val, size, c, off, n, val) && Fits(c, off, n, size)
    requires now.tag == was.tag.Or(tag)
    requires forall x :: off <= x < off + n ==> KindOk(val(x), tag)
    requires !tag.ptrs ==> forall x :: off <= x < off + n ==> !IsNullByte(val(x))
    ensures TagOk(now, size, w)
  {
    if !now.tag.ptrs {
      forall x | 0 <= x && x + w <= size
        ensures NonNullIn(now.val, x, w)
      {
        assert NonNullIn(was.val, x, w);
        var y :| x <= y < x + w && !IsNullByte(At(was.val, y));
        assert !IsNullByte(At(now.val, y));
      }
    }
  }

  /** A block that is written as a whole, or not at all, has the tag of either contents. */
  lemma FullTagOk(now: MemBlock, was: MemBlock, w: nat, c: Cond, n: nat, val: int -> Byte, tag: Tag)
    requires TagOk(was, n, w) && Overwrites(now.val, was.val, n, c, 0, n, val)
    requires now.tag == (if c.IsTrue() then tag else was.tag.Or(tag))
    requires forall x :: 0 <= x < n ==> KindOk(val(x), tag)
    requires !tag.ptrs ==> forall x :: 0 <= x && x + w <= n ==> NonNullIn(Array(val), x, w)
    ensures TagOk(now, n, w)
  {
    if !now.tag.ptrs {
      forall x | 0 <= x && x + w <= n
        ensures NonNullIn(now.val, x, w)
      {
        if c.val {
          assert NonNullIn(Array(val), x, w);
          var y :| x <= y < x + w && !IsNullByte(At(Array(val), y));
          assert !IsNullByte(At(now.val, y));
        } else {
          assert NonNullIn(was.val, x, w);
          var y :| x <= y < x + w && !IsNullByte(At(was.val, y));
          assert !IsNullByte(At(now.val, y));
        }
      }
    }
  }

  /** The bytes of a store by block offset. */
  ghost function Placed(data: Data, off: int): int -> Byte
    requires Layout(data)
  {
    var s := Stored(data);
    (x: int) => if off <= x < off + |s| then s[x - off] else POISON
  }

  lemma StoreOverwrites(blk: MemBlock, info: BlockInfo, off: int, data: Data, partial: Tag, full: Tag, c: Cond)
    requires data != [] && Layout(data) && Fits(c, off, |data|, info.size)
    ensures Overwrites(StoreBlock(blk, info, off, data, partial, full, c).val, blk.val, info.size, c, off, |data|, Placed(data, off))
  {
    forall x | 0 <= x < info.size
      ensures At(StoreBlock(blk, info, off, data, partial, full, c).val, x) ==
              if Covers(c, off, |data|, x) then Placed(data, off)(x) else At(blk.val, x)
    {
      StoreBlockAt(blk, info, off, data, partial, full, c, x);
    }
  }

  /** Every store keeps the tags sound. */
  lemma StoreBlockTagOk(blk: MemBlock, info: BlockInfo, off: int, data: Data, w: nat, c: Cond)
    requires data != [] && Layout(data) && TagOk(blk, info.size, w) && Fits(c, off, |data|, info.size)
    ensures TagOk(StoreBlock(blk, info, off, data, DataType(data, false, w), DataType(data, true, w), c), info.size, w)
  {
    var n := StoreBlock(blk, info, off, data, DataType(data, false, w), DataType(data, true, w), c);
    var val := Placed(data, off);
    StoreOverwrites(blk, info, off, data, DataType(data, false, w), DataType(data, true, w), c);
    if info.known && info.size == |data| {
      assert c.val ==> off == 0;
      assert Overwrites(n.val, blk.val, info.size, c, 0, |data|, Placed(data, 0));
      FullStoreTagOk(n, blk, data, w, c);
    } else {
      var tag := DataType(data, false, w);
      forall x | off <= x < off + |data|
        ensures KindOk(val(x), tag)
        ensures !tag.ptrs ==> !IsNullByte(val(x))
      {
        StoredKinds(data, false, w, x - off);
        if !tag.ptrs { NoZeros(data, x - off); }
      }
      WriteTagOk(n, blk, info.size, w, c, off, |data|, val, tag);
    }
  }

  lemma {:induction false} FullWindow(data: Data, x: nat, w: nat)
    requires Layout(data) && x + w <= |data| && |ZeroPositions(data, |data|)| < w
    ensures NonNullIn(Array(Placed(data, 0)), x, w)
  {
    FewZeros(data, x, w);
    var y :| x <= y < x + w && !IsNullByte(Stored(data)[y]);
    assert !IsNullByte(At(Array(Placed(data, 0)), y));
  }

  lemma FullStoreTagOk(now: MemBlock, was: MemBlock, data: Data, w: nat, c: Cond)
    requires data != [] && Layout(data) && TagOk(was, |data|, w)
    requires Overwrites(now.val, was.val, |data|, c, 0, |data|, Placed(data, 0))
    requires now.tag == (if c.IsTrue() then DataType(data, true, w) else was.tag.Or(DataType(data, true, w)))
    ensures TagOk(now, |data|, w)
  {
    var tag := DataType(data, true, w);
    var val := Placed(data, 0);
    forall x | 0 <= x < |data|
      ensures KindOk(val(x), tag)
    {
      StoredKinds(data, true, w, x);
    }
    if !tag.ptrs {
      forall x | 0 <= x && x + w <= |data|
        ensures NonNullIn(Array(val), x, w)
      {
        FullWindow(data, x, w);
      }
    }
    FullTagOk(now, was, w, c, |data|, val, tag);
  }

  /** The literal truth values of `isPtr` and `isZero` for a byte that depends on the offset. */
  datatype Lits = Lits(isPtr: Option<bool>, isZero: Option<bool>) {
    predicate Allow(b: Byte) {
      && (isPtr.Some? ==> isPtr.value == b.PtrByte?)
      && (isZero.Some? ==> isZero.value == IsZero(b))
    }

    /** `data_type` of the one value of a lambda store. */
    function DataType(): Tag {
      var ptr := isPtr != Some(false);
      var int_ := isPtr != Some(true);
      Tag(int_, ptr || (int_ && isZero != Some(false)))
    }
  }

  /** The tag of a byte of which only this much is literal has exactly the kinds it may be of. */
  lemma LitsTagIff(lits: Lits)
    ensures lits.DataType().ints <==> exists b: Byte :: lits.Allow(b) && b.IntByte?
    ensures lits.DataType().ptrs <==> exists b: Byte :: lits.Allow(b) && (b.PtrByte? || true !in b.val)
  {
    var zero := lits.isZero != Some(false);
    var p, i := PtrByte(true, if zero then 0 else 1, 0), IntByte(Zeros(POISON_BITS), seq(BITS_BYTE, _ => !zero), 0, 0);
    assert i.val[0] == !zero;
    assert lits.isPtr != Some(false) ==> lits.Allow(p);
    assert lits.isPtr != Some(true) ==> lits.Allow(i);
  }

  ghost predicate AllAllowed(val: int -> Byte, off: int, n: nat, lits: Lits) {
    forall x :: off <= x < off + n ==> lits.Allow(val(x))
  }

  ghost predicate Constant(val: int -> Byte) {
    forall y :: val(y) == val(0)
  }

  /** Every lambda store keeps the tags sound. */
  lemma LambdaBlockTagOk(blk: MemBlock, size: nat, full: bool, off: int, n: nat, val: int -> Byte, noOffset: bool,
                         lits: Lits, w: nat, c: Cond)
    requires w > 0 && TagOk(blk, size, w) && Fits(c, off, n, size)
    requires full ==> n == size
    requires noOffset ==> Constant(val)
    requires AllAllowed(val, off, n, lits)
    ensures TagOk(LambdaBlock(blk, full, off, n, val, noOffset, lits.DataType(), c), size, w)
    ensures Overwrites(LambdaBlock(blk, full, off, n, val, noOffset, lits.DataType(), c).val, blk.val, size, c, off, n, val)
  {
    var tag := lits.DataType();
    var now := LambdaBlock(blk, full, off, n, val, noOffset, tag, c);
    forall x | 0 <= x < size
      ensures At(now.val, x) == if Covers(c, off, n, x) then val(x) else At(blk.val, x)
    {
      LambdaBlockAt(blk, size, full, off, n, val, noOffset, tag, c, x);
    }
    if full && c.IsTrue() && n > 0 {
      forall x | 0 <= x && x + w <= n
        ensures !tag.ptrs ==> NonNullIn(Array(val), x, w)
      {
        if !tag.ptrs { assert !IsNullByte(At(Array(val), x)); }
      }
      FullTagOk(now, blk, w, c, n, val, tag);
    } else if n > 0 || !full {
      WriteTagOk(now, blk, size, w, c, off, n, val, tag);
    }
  }

  // ---------------------------------------------------------------------
  // Skipped loads
  // ---------------------------------------------------------------------

  /** A pointer load that the tag skips would have been poison. */
  lemma SkippedPtrLoad(blk: MemBlock, size: nat, w: nat, off: int, bytes: seq<Byte>)
    requires TagOk(blk, size, w) && !blk.tag.Meets(PTR)
    requires 0 <= off && off + w <= size && w > 0 && |bytes| == w
    requires (forall i :: 0 <= i < w ==> bytes[i] == At(blk.val, off + i))
          || (forall i :: 0 <= i < w ==> bytes[i] == At(blk.val, off + w - 1 - i))
    ensures PtrOf(bytes) == None
  {
    assert NonNullIn(blk.val, off, w);
    var y :| off <= y < off + w && !IsNullByte(At(blk.val, y));
    var j := if bytes[y - off] == At(blk.val, y) then y - off else off + w - 1 - y;
    assert bytes[j] == At(blk.val, y);
    assert bytes[0].IntByte?;
  }

  /** An integer load that the tag skips would have kept no bit of any byte. */
  lemma SkippedIntLoad(blk: MemBlock, size: nat, w: nat, x: int, marks: Option<(nat, nat)>)
    requires TagOk(blk, size, w) && !blk.tag.Meets(INT) && 0 <= x < size
    ensures IntBits(At(blk.val, x), marks) == IntBits(POISON, marks)
  {
  }

  // ---------------------------------------------------------------------
  // Pointers and the may-alias fan-out
  // ---------------------------------------------------------------------

  datatype Loc = Loc(isLocal: bool, bid: nat, off: int)

  /** A logical pointer; `bidKnown` says whether comparing its block id gives a literal. */
  datatype Pointer = Pointer(isLocal: Cond, bid: nat, bidKnown: bool, off: int) {
    function Plus(d: int): Pointer { this.(off := off + d) }
    function At(d: int): Loc { Loc(isLocal.val, bid, off + d) }

    /** The block it points to among the local or the other blocks, or -1. */
    function Target(side: bool): int { if isLocal.val == side then bid else -1 }
  }

  /** The bits of an alias set. */
  datatype Aliases = Aliases(local: seq<bool>, nonLocal: seq<bool>) {
    function Side(side: bool): seq<bool> { if side then local else nonLocal }
  }

  datatype Sizes = Sizes(local: seq<BlockInfo>, nonLocal: seq<BlockInfo>) {
    function Side(side: bool): seq<BlockInfo> { if side then local else nonLocal }
  }

  datatype Contents = Contents(local: seq<MemBlock>, nonLocal: seq<MemBlock>) {
    function Side(side: bool): seq<MemBlock> { if side then local else nonLocal }
  }

  /** The condition under which `access` touches block `i`. */
  function AccessCond(a: Aliases, p: Pointer, side: bool, i: nat): Cond {
    var locals, others := Count(a.local), Count(a.nonLocal);
    var both := locals > 0 && others > 0;
    if locals + others == 1 then TRUE
    else if (if side then locals else others) == 1 then
      if side then p.isLocal else p.isLocal.Not()
    else Cond((both ==> p.isLocal.val == side) && p.bid == i, p.bidKnown)
  }

  /** The alias set contains the block the pointer points to. */
  predicate Contains(a: Aliases, p: Pointer) {
    p.bid < |a.Side(p.isLocal.val)| && a.Side(p.isLocal.val)[p.bid]
  }

  /** Then the condition singles that block out. */
  lemma AccessHits(a: Aliases, p: Pointer, side: bool, i: nat)
    requires Contains(a, p) && i < |a.Side(side)| && a.Side(side)[i]
    ensures AccessCond(a, p, side, i).val <==> i == p.Target(side)
  {
    CountPositive(a.Side(p.isLocal.val), p.bid);
    CountPositive(a.Side(side), i);
    if p.isLocal.val == side && Count(a.Side(side)) == 1 {
      CountOne(a.Side(side), i, p.bid);
    }
  }

  /** An access of `n` bytes is in bounds of its block, which the alias set contains. */
  predicate Reaches(z: Sizes, a: Aliases, p: Pointer, n: nat) {
    && |a.local| == |z.local| && |a.nonLocal| == |z.nonLocal|
    && (n > 0 ==>
      && Contains(a, p)
      && 0 <= p.off && p.off + n <= z.Side(p.isLocal.val)[p.bid].size)
  }

  /** All blocks there, with sound tags. */
  ghost predicate SideOk(blocks: seq<MemBlock>, infos: seq<BlockInfo>, w: nat) {
    |blocks| == |infos| && forall i :: 0 <= i < |blocks| ==> TagOk(blocks[i], infos[i].size, w)
  }

  ghost predicate ContentsOk(m: Contents, z: Sizes, w: nat) {
    w > 0 && SideOk(m.local, z.local, w) && SideOk(m.nonLocal, z.nonLocal, w)
  }

  predicate InBounds(z: Sizes, l: Loc) {
    l.bid < |z.Side(l.isLocal)| && 0 <= l.off < z.Side(l.isLocal)[l.bid].size
  }

  /** The flat memory: a byte for each location in bounds. */
  ghost function FlatOf(m: Contents, z: Sizes): imap<Loc, Byte>
    requires |m.local| == |z.local| && |m.nonLocal| == |z.nonLocal|
  {
    imap l: Loc | InBounds(z, l) :: At(m.Side(l.isLocal)[l.bid].val, l.off)
  }

  /** Writing bytes to a flat memory. */
  ghost function FlatPut(m: imap<Loc, Byte>, p: Pointer, bytes: seq<Byte>): imap<Loc, Byte> {
    imap l: Loc | l in m ::
      if l.isLocal == p.isLocal.val && l.bid == p.bid && p.off <= l.off < p.off + |bytes| then bytes[l.off - p.off]
      else m[l]
  }

  lemma PutNothing(m: imap<Loc, Byte>, p: Pointer, bytes: seq<Byte>)
    requires bytes == []
    ensures FlatPut(m, p, bytes) == m
  {
  }

  // ---------------------------------------------------------------------
  // Writes
  // ---------------------------------------------------------------------

  /** A block after a write that hits it or not. */
  ghost predicate Wrote(now: MemBlock, was: MemBlock, size: nat, w: nat, hit: bool, off: int, n: nat, val: int -> Byte) {
    && TagOk(now, size, w)
    && forall x :: 0 <= x < size ==> At(now.val, x) == if hit && off <= x < off + n then val(x) else At(was.val, x)
  }

  ghost predicate SideWrote(now: seq<MemBlock>, was: seq<MemBlock>, infos: seq<BlockInfo>, w: nat,
                            target: int, off: int, n: nat, val: int -> Byte)
  {
    && |now| == |was| == |infos|
    && forall i :: 0 <= i < |now| ==> Wrote(now[i], was[i], infos[i].size, w, i == target, off, n, val)
  }

  lemma WroteKeepsOk(now: seq<MemBlock>, was: seq<MemBlock>, infos: seq<BlockInfo>, w: nat,
                     target: int, off: int, n: nat, val: int -> Byte)
    requires SideWrote(now, was, infos, w, target, off, n, val)
    ensures SideOk(now, infos, w)
  {
    forall i | 0 <= i < |now|
      ensures TagOk(now[i], infos[i].size, w)
    {
      assert Wrote(now[i], was[i], infos[i].size, w, i == target, off, n, val);
    }
  }

  lemma WroteAt(now: seq<MemBlock>, was: seq<MemBlock>, infos: seq<BlockInfo>, w: nat,
                target: int, off: int, n: nat, val: int -> Byte, bid: nat, x: int)
    requires SideWrote(now, was, infos, w, target, off, n, val) && bid < |now| && 0 <= x < infos[bid].size
    ensures At(now[bid].val, x) == if bid == target && off <= x < off + n then val(x) else At(was[bid].val, x)
  {
    assert Wrote(now[bid], was[bid], infos[bid].size, w, bid == target, off, n, val);
  }

  /** If all blocks but the target keep their bytes, the flat memory gets one write. */
  lemma WroteIsPut(now: Contents, was: Contents, z: Sizes, w: nat, p: Pointer, bytes: seq<Byte>, val: int -> Byte)
    requires w > 0 && |was.local| == |z.local| && |was.nonLocal| == |z.nonLocal|
    requires SideWrote(now.local, was.local, z.local, w, p.Target(true), p.off, |bytes|, val)
    requires SideWrote(now.nonLocal, was.nonLocal, z.nonLocal, w, p.Target(false), p.off, |bytes|, val)
    requires forall i :: 0 <= i < |bytes| ==> bytes[i] == val(p.off + i)
    ensures ContentsOk(now, z, w) && FlatOf(now, z) == FlatPut(FlatOf(was, z), p, bytes)
  {
    WroteKeepsOk(now.local, was.local, z.local, w, p.Target(true), p.off, |bytes|, val);
    WroteKeepsOk(now.nonLocal, was.nonLocal, z.nonLocal, w, p.Target(false), p.off, |bytes|, val);
    forall l: Loc | InBounds(z, l)
      ensures FlatOf(now, z)[l] == FlatPut(FlatOf(was, z), p, bytes)[l]
    {
      WroteAt(now.Side(l.isLocal), was.Side(l.isLocal), z.Side(l.isLocal), w, p.Target(l.isLocal), p.off, |bytes|, val,
              l.bid, l.off);
      PutLoc(now, was, z, p, bytes, val, l);
    }
    assert FlatOf(now, z).Keys == FlatPut(FlatOf(was, z), p, bytes).Keys;
  }

  lemma PutLoc(now: Contents, was: Contents, z: Sizes, p: Pointer, bytes: seq<Byte>, val: int -> Byte, l: Loc)
    requires |now.local| == |was.local| == |z.local| && |now.nonLocal| == |was.nonLocal| == |z.nonLocal|
    requires forall i :: 0 <= i < |bytes| ==> bytes[i] == val(p.off + i)
    requires InBounds(z, l)
    requires At(now.Side(l.isLocal)[l.bid].val, l.off) ==
             if l.bid == p.Target(l.isLocal) && p.off <= l.off < p.off + |bytes| then val(l.off)
             else At(was.Side(l.isLocal)[l.bid].val, l.off)
    ensures FlatOf(now, z)[l] == FlatPut(FlatOf(was, z), p, bytes)[l]
  {
    assert l in FlatOf(was, z);
    if p.off <= l.off < p.off + |bytes| { assert bytes[l.off - p.off] == val(p.off + (l.off - p.off)); }
  }

  /** A block outside the alias set is not the target. */
  lemma SkippedBlock(blk: MemBlock, z: Sizes, w: nat, a: Aliases, p: Pointer, side: bool, i: nat, n: nat, val: int -> Byte)
    requires Reaches(z, a, p, n) && i < |a.Side(side)| && !a.Side(side)[i]
    requires TagOk(blk, z.Side(side)[i].size, w)
    ensures Wrote(blk, blk, z.Side(side)[i].size, w, i == p.Target(side), p.off, n, val)
  {
  }

  lemma StoredBlock(blk: MemBlock, z: Sizes, w: nat, a: Aliases, p: Pointer, side: bool, i: nat, data: Data)
    requires data != [] && Layout(data)
    requires Reaches(z, a, p, |data|) && i < |a.Side(side)| && a.Side(side)[i]
    requires TagOk(blk, z.Side(side)[i].size, w)
    ensures Wrote(StoreBlock(blk, z.Side(side)[i], p.off, data, DataType(data, false, w), DataType(data, true, w),
                             AccessCond(a, p, side, i)), blk,
                  z.Side(side)[i].size, w, i == p.Target(side), p.off, |data|, Placed(data, p.off))
  {
    AccessHits(a, p, side, i);
    var c := AccessCond(a, p, side, i);
    StoreBlockTagOk(blk, z.Side(side)[i], p.off, data, w, c);
    StoreOverwrites(blk, z.Side(side)[i], p.off, data, DataType(data, false, w), DataType(data, true, w), c);
  }

  lemma LambdaStored(blk: MemBlock, z: Sizes, w: nat, a: Aliases, p: Pointer, side: bool, i: nat,
                     full: bool, n: nat, val: int -> Byte, noOffset: bool, lits: Lits)
    requires w > 0 && Reaches(z, a, p, n) && i < |a.Side(side)| && a.Side(side)[i]
    requires TagOk(blk, z.Side(side)[i].size, w)
    requires full ==> n == z.Side(side)[i].size
    requires noOffset ==> Constant(val)
    requires AllAllowed(val, p.off, n, lits)
    ensures Wrote(LambdaBlock(blk, full, p.off, n, val, noOffset, lits.DataType(), AccessCond(a, p, side, i)), blk,
                  z.Side(side)[i].size, w, i == p.Target(side), p.off, n, val)
  {
    if n > 0 { AccessHits(a, p, side, i); }
    LambdaBlockTagOk(blk, z.Side(side)[i].size, full, p.off, n, val, noOffset, lits, w, AccessCond(a, p, side, i));
  }

  // ---------------------------------------------------------------------
  // Loads
  // ---------------------------------------------------------------------

  /** What block `blk` contributes to byte `idx` of a load of `n` bytes. */
  function BlockByte(blk: MemBlock, info: BlockInfo, off: int, n: nat, idx: nat, want: Tag): Byte {
    if !blk.tag.Meets(want) then POISON
    else At(blk.val, (if info.known && info.size == n then 0 else off) + idx)
  }

  /** The contributions of the first `k` blocks of a side. */
  function Collect(acc: seq<Guarded<Byte>>, m: Contents, z: Sizes, a: Aliases, p: Pointer, side: bool,
                   n: nat, idx: nat, want: Tag, k: nat): seq<Guarded<Byte>>
    requires k <= |m.Side(side)| == |z.Side(side)| == |a.Side(side)|
  {
    if k == 0 then acc
    else
      var xs := Collect(acc, m, z, a, p, side, n, idx, want, k - 1);
      if !a.Side(side)[k - 1] then xs
      else Add(xs, BlockByte(m.Side(side)[k - 1], z.Side(side)[k - 1], p.off, n, idx, want), AccessCond(a, p, side, k - 1))
  }

  /** Byte `idx` of a load: the merged contributions, or poison if there is none. */
  function LoadByte(m: Contents, z: Sizes, a: Aliases, p: Pointer, n: nat, idx: nat, want: Tag): Byte
    requires |m.local| == |z.local| == |a.local| && |m.nonLocal| == |z.nonLocal| == |a.nonLocal|
  {
    var xs := Collect([], m, z, a, p, true, n, idx, want, |m.local|);
    var ys := Collect(xs, m, z, a, p, false, n, idx, want, |m.nonLocal|);
    if ys == [] then POISON else Mk(ys)
  }

  /** Only `v` has been collected, once the target has been passed. */
  ghost predicate Collected(xs: seq<Guarded<Byte>>, passed: bool, v: Byte) {
    (SomeOn(xs) <==> passed) && forall w :: Has(xs, w) ==> w == v
  }

  lemma {:induction false} CollectsTarget(acc: seq<Guarded<Byte>>, m: Contents, z: Sizes, a: Aliases, p: Pointer,
                                          side: bool, n: nat, idx: nat, want: Tag, k: nat, passed: bool, v: Byte)
    requires k <= |m.Side(side)| == |z.Side(side)| == |a.Side(side)| && Contains(a, p)
    requires Collected(acc, passed, v)
    requires p.isLocal.val == side && p.bid < |m.Side(side)| ==>
               v == BlockByte(m.Side(side)[p.bid], z.Side(side)[p.bid], p.off, n, idx, want)
    ensures Collected(Collect(acc, m, z, a, p, side, n, idx, want, k), passed || 0 <= p.Target(side) < k, v)
  {
    if k > 0 {
      CollectsTarget(acc, m, z, a, p, side, n, idx, want, k - 1, passed, v);
      if a.Side(side)[k - 1] {
        var xs := Collect(acc, m, z, a, p, side, n, idx, want, k - 1);
        var b := BlockByte(m.Side(side)[k - 1], z.Side(side)[k - 1], p.off, n, idx, want);
        var c := AccessCond(a, p, side, k - 1);
        AccessHits(a, p, side, k - 1);
        AddSome(xs, b, c);
        forall u | Has(Add(xs, b, c), u)
          ensures u == v
        {
          AddHas(xs, b, c, u);
        }
      }
    }
  }

  /** A load gets what the target block contributes. */
  lemma LoadByteIs(m: Contents, z: Sizes, w: nat, a: Aliases, p: Pointer, n: nat, idx: nat, want: Tag)
    requires ContentsOk(m, z, w) && Reaches(z, a, p, n) && idx < n
    ensures LoadByte(m, z, a, p, n, idx, want) ==
            if m.Side(p.isLocal.val)[p.bid].tag.Meets(want) then FlatOf(m, z)[p.At(idx)] else POISON
    ensures want == ANY ==> LoadByte(m, z, a, p, n, idx, want) == FlatOf(m, z)[p.At(idx)]
  {
    var blk := m.Side(p.isLocal.val)[p.bid];
    var v := BlockByte(blk, z.Side(p.isLocal.val)[p.bid], p.off, n, idx, want);
    var xs := Collect([], m, z, a, p, true, n, idx, want, |m.local|);
    var ys := Collect(xs, m, z, a, p, false, n, idx, want, |m.nonLocal|);
    CollectsTarget([], m, z, a, p, true, n, idx, want, |m.local|, false, v);
    CollectsTarget(xs, m, z, a, p, false, n, idx, want, |m.nonLocal|, p.isLocal.val, v);
    MkPicks(ys);
    assert Has(ys, Mk(ys));
    TargetByte(m, z, w, a, p, n, idx, want);
  }

  /** A block without any tag holds nothing but poison, so an untyped load skips nothing. */
  lemma TargetByte(m: Contents, z: Sizes, w: nat, a: Aliases, p: Pointer, n: nat, idx: nat, want: Tag)
    requires ContentsOk(m, z, w) && Reaches(z, a, p, n) && idx < n
    ensures
      var blk := m.Side(p.isLocal.val)[p.bid];
      && p.At(idx) in FlatOf(m, z)
      && BlockByte(blk, z.Side(p.isLocal.val)[p.bid], p.off, n, idx, want) ==
         (if blk.tag.Meets(want) then FlatOf(m, z)[p.At(idx)] else POISON)
      && (want == ANY && !blk.tag.Meets(want) ==> FlatOf(m, z)[p.At(idx)] == POISON)
  {
    assert InBounds(z, p.At(idx));
    var blk := m.Side(p.isLocal.val)[p.bid];
    assert KindOk(At(blk.val, p.off + idx), blk.tag);
  }

  // ---------------------------------------------------------------------
  // The memory
  // ---------------------------------------------------------------------

  /** The bytes at a pointer in a flat memory. */
  ghost predicate InFlat(m: imap<Loc, Byte>, p: Pointer, n: nat) {
    forall i :: 0 <= i < n ==> p.At(i) in m
  }

  ghost function FlatGet(m: imap<Loc, Byte>, p: Pointer, n: nat): (s: seq<Byte>)
    requires InFlat(m, p, n)
    ensures |s| == n
  {
    seq(n, i requires 0 <= i < n && InFlat(m, p, n) => m[p.At(i)])
  }

  lemma ReachesFlat(m: Contents, z: Sizes, a: Aliases, p: Pointer, n: nat)
    requires |m.local| == |z.local| && |m.nonLocal| == |z.nonLocal| && Reaches(z, a, p, n)
    ensures InFlat(FlatOf(m, z), p, n)
  {
    forall i | 0 <= i < n ensures p.At(i) in FlatOf(m, z) { assert InBounds(z, p.At(i)); }
  }

  /** Position `i` of a load from left to right or the other way round. */
  function Index(left2right: bool, n: nat, i: nat): nat
    requires i < n
  {
    if left2right then i else n - i - 1
  }

  /** What a load of `n` bytes returns: nothing but poison if it is skipped. */
  ghost function FlatLoad(m: imap<Loc, Byte>, p: Pointer, n: nat, left2right: bool, skip: bool): (s: seq<Byte>)
    requires InFlat(m, p, n)
    ensures |s| == n
  {
    seq(n, i requires 0 <= i < n && InFlat(m, p, n) => if skip then POISON else m[p.At(Index(left2right, n, i))])
  }

  /** A load that is not skipped returns the flat bytes; one that asks for both kinds never is. */
  lemma LoadIs(m: Contents, z: Sizes, w: nat, a: Aliases, p: Pointer, n: nat, left2right: bool, want: Tag, bytes: seq<Byte>)
    requires ContentsOk(m, z, w) && Reaches(z, a, p, n) && |bytes| == n && InFlat(FlatOf(m, z), p, n)
    requires forall j :: 0 <= j < n ==> bytes[j] == LoadByte(m, z, a, p, n, Index(left2right, n, j), want)
    ensures bytes == FlatLoad(FlatOf(m, z), p, n, left2right, n > 0 && !m.Side(p.isLocal.val)[p.bid].tag.Meets(want))
    ensures want == ANY && left2right ==> bytes == FlatGet(FlatOf(m, z), p, n)
  {
    forall j | 0 <= j < n
      ensures bytes[j] == FlatLoad(FlatOf(m, z), p, n, left2right, n > 0 && !m.Side(p.isLocal.val)[p.bid].tag.Meets(want))[j]
      ensures want == ANY && left2right ==> bytes[j] == FlatGet(FlatOf(m, z), p, n)[j]
    {
      LoadByteIs(m, z, w, a, p, n, Index(left2right, n, j), want);
    }
  }

  /** The bytes of a lambda store. */
  ghost function Values(val: int -> Byte, off: int, n: nat): (s: seq<Byte>)
    ensures |s| == n && forall i :: 0 <= i < n ==> s[i] == val(off + i)
  {
    seq(n, i => val(off + i))
  }

  lemma LambdaIsPut(now: Contents, was: Contents, z: Sizes, w: nat, p: Pointer, n: nat, val: int -> Byte)
    requires w > 0 && |was.local| == |z.local| && |was.nonLocal| == |z.nonLocal|
    requires SideWrote(now.local, was.local, z.local, w, p.Target(true), p.off, n, val)
    requires SideWrote(now.nonLocal, was.nonLocal, z.nonLocal, w, p.Target(false), p.off, n, val)
    ensures ContentsOk(now, z, w) && FlatOf(now, z) == FlatPut(FlatOf(was, z), p, Values(val, p.off, n))
  {
    WroteIsPut(now, was, z, w, p, Values(val, p.off, n), val);
  }

  /** The blocks in `same` have size `n`. */
  ghost predicate SameSizes(z: Sizes, same: set<(bool, nat)>, n: nat) {
    forall side, i: nat :: i < |z.Side(side)| && (side, i) in same ==> z.Side(side)[i].size == n
  }

  /** All blocks of the alias set are kept as one byte. */
  predicate NoArray(m: Contents, a: Aliases) {
    && (forall i :: 0 <= i < |m.local| && i < |a.local| && a.local[i] ==> m.local[i].val.Single?)
    && (forall i :: 0 <= i < |m.nonLocal| && i < |a.nonLocal| && a.nonLocal[i] ==> m.nonLocal[i].val.Single?)
  }

  /** Then a load does not depend on the offset. */
  lemma {:induction false} CollectNoOffset(acc: seq<Guarded<Byte>>, m: Contents, z: Sizes, a: Aliases, p: Pointer, q: Pointer,
                                           side: bool, n: nat, idx: nat, want: Tag, k: nat)
    requires k <= |m.Side(side)| == |z.Side(side)| == |a.Side(side)| && NoArray(m, a)
    requires q == p.(off := q.off)
    ensures Collect(acc, m, z, a, p, side, n, idx, want, k) == Collect(acc, m, z, a, q, side, n, idx, want, k)
  {
    if k > 0 {
      CollectNoOffset(acc, m, z, a, p, q, side, n, idx, want, k - 1);
      if a.Side(side)[k - 1] { assert m.Side(side)[k - 1].val.Single?; }
    }
  }

  class Memory {
    const sizes: Sizes
    const w: nat
    var local: seq<MemBlock>
    var nonLocal: seq<MemBlock>

    /** Local blocks start as poison without a tag; the others are given and may hold anything. */
    constructor (sizes: Sizes, w: nat, nonLocal: seq<MemBlock>)
      requires w > 0 && |nonLocal| == |sizes.nonLocal|
      requires forall i :: 0 <= i < |nonLocal| ==> nonLocal[i].tag == ANY
      ensures Valid() && this.sizes == sizes && this.w == w && this.nonLocal == nonLocal
      ensures forall l :: l in Flat() && l.isLocal ==> Flat()[l] == POISON
    {
      this.sizes, this.w := sizes, w;
      this.local := seq(|sizes.local|, _ => MemBlock(Single(POISON), NONE));
      this.nonLocal := nonLocal;
      new;
      forall i | 0 <= i < |local|
        ensures TagOk(local[i], sizes.local[i].size, w)
      {
        forall x | 0 <= x && x + w <= sizes.local[i].size
          ensures NonNullIn(local[i].val, x, w)
        {
          PoisonIs();
          assert !IsNullByte(At(local[i].val, x));
        }
      }
    }

    function Now(): Contents
      reads this
    {
      Contents(local, nonLocal)
    }

    ghost predicate Valid()
      reads this
    {
      ContentsOk(Now(), sizes, w)
    }

    /** The flat memory this memory stands for. */
    ghost function Flat(): imap<Loc, Byte>
      requires Valid()
      reads this
    {
      FlatOf(Now(), sizes)
    }

    /** The fan-out of `store` over one side. */
    method StoreSide(side: bool, p: Pointer, data: Data, a: Aliases, partial: Tag, full: Tag)
      requires Valid() && data != [] && Layout(data) && Reaches(sizes, a, p, |data|)
      requires partial == DataType(data, false, w) && full == DataType(data, true, w)
      modifies this
      ensures Now().Side(!side) == old(Now().Side(!side))
      ensures SideWrote(Now().Side(side), old(Now().Side(side)), sizes.Side(side), w, p.Target(side), p.off, |data|, Placed(data, p.off))
    {
      ghost var val := Placed(data, p.off);
      for i := 0 to |Now().Side(side)|
        invariant Now().Side(!side) == old(Now().Side(!side)) && |Now().Side(side)| == |sizes.Side(side)|
        invariant forall j :: 0 <= j < i ==>
                    Wrote(Now().Side(side)[j], old(Now().Side(side)[j]), sizes.Side(side)[j].size, w, j == p.Target(side), p.off, |data|, val)
        invariant forall j :: i <= j < |Now().Side(side)| ==> Now().Side(side)[j] == old(Now().Side(side)[j])
      {
        var blk := Now().Side(side)[i];
        assert TagOk(blk, sizes.Side(side)[i].size, w);
        if a.Side(side)[i] {
          StoredBlock(blk, sizes, w, a, p, side, i, data);
          SetBlock(side, i, StoreBlock(blk, sizes.Side(side)[i], p.off, data, partial, full, AccessCond(a, p, side, i)));
        } else {
          SkippedBlock(blk, sizes, w, a, p, side, i, |data|, val);
        }
      }
    }

    method SetBlock(side: bool, i: nat, blk: MemBlock)
      requires i < |Now().Side(side)|
      modifies this
      ensures Now().Side(side) == old(Now().Side(side))[i := blk] && Now().Side(!side) == old(Now().Side(!side))
    {
      if side { local := local[i := blk]; } else { nonLocal := nonLocal[i := blk]; }
    }

    /** A store writes its bytes to the flat memory and nothing else. */
    method Store(p: Pointer, data: Data, a: Aliases)
      requires Valid() && Layout(data) && Reaches(sizes, a, p, |data|)
      modifies this
      ensures Valid() && Flat() == FlatPut(old(Flat()), p, Stored(data))
    {
      if data == [] {
        PutNothing(Flat(), p, Stored(data));
        return;
      }
      ghost var was := Now();
      var partial := ComputeDataType(data, false, w);
      var full := ComputeDataType(data, true, w);
      StoreSide(true, p, data, a, partial, full);
      LocalDone(was, Placed(data, p.off), p, |data|);
      StoreSide(false, p, data, a, partial, full);
      WroteIsPut(Now(), was, sizes, w, p, Stored(data), Placed(data, p.off));
    }

    /** After the local blocks are done the memory is still valid. */
    lemma LocalDone(was: Contents, val: int -> Byte, p: Pointer, n: nat)
      requires ContentsOk(was, sizes, w) && nonLocal == was.nonLocal
      requires SideWrote(local, was.local, sizes.local, w, p.Target(true), p.off, n, val)
      ensures Valid()
    {
      WroteKeepsOk(local, was.local, sizes.local, w, p.Target(true), p.off, n, val);
    }

    /** The fan-out of `storeLambda` over one side; `same` are the blocks whose
        size expression is the length expression. */
    method LambdaSide(side: bool, p: Pointer, n: nat, val: int -> Byte, noOffset: bool, lits: Lits,
                      same: set<(bool, nat)>, a: Aliases)
      requires Valid() && Reaches(sizes, a, p, n)
      requires noOffset ==> Constant(val)
      requires AllAllowed(val, p.off, n, lits)
      requires SameSizes(sizes, same, n)
      modifies this
      ensures Now().Side(!side) == old(Now().Side(!side))
      ensures SideWrote(Now().Side(side), old(Now().Side(side)), sizes.Side(side), w, p.Target(side), p.off, n, val)
    {
      for i := 0 to |Now().Side(side)|
        invariant Now().Side(!side) == old(Now().Side(!side)) && |Now().Side(side)| == |sizes.Side(side)|
        invariant forall j :: 0 <= j < i ==>
                    Wrote(Now().Side(side)[j], old(Now().Side(side)[j]), sizes.Side(side)[j].size, w, j == p.Target(side), p.off, n, val)
        invariant forall j :: i <= j < |Now().Side(side)| ==> Now().Side(side)[j] == old(Now().Side(side)[j])
      {
        var blk := Now().Side(side)[i];
        assert TagOk(blk, sizes.Side(side)[i].size, w);
        if a.Side(side)[i] {
          LambdaStored(blk, sizes, w, a, p, side, i, (side, i) in same, n, val, noOffset, lits);
          SetBlock(side, i, LambdaBlock(blk, (side, i) in same, p.off, n, val, noOffset, lits.DataType(), AccessCond(a, p, side, i)));
        } else {
          SkippedBlock(blk, sizes, w, a, p, side, i, n, val);
        }
      }
    }

    /** A lambda store writes `n` computed bytes to the flat memory and nothing else. */
    method StoreLambda(p: Pointer, n: nat, val: int -> Byte, noOffset: bool, lits: Lits, same: set<(bool, nat)>, a: Aliases)
      requires Valid() && Reaches(sizes, a, p, n)
      requires noOffset ==> Constant(val)
      requires AllAllowed(val, p.off, n, lits)
      requires SameSizes(sizes, same, n)
      modifies this
      ensures Valid() && Flat() == FlatPut(old(Flat()), p, Values(val, p.off, n))
    {
      ghost var was := Now();
      LambdaSide(true, p, n, val, noOffset, lits, same, a);
      LocalDone(was, val, p, n);
      LambdaSide(false, p, n, val, noOffset, lits, same, a);
      LambdaIsPut(Now(), was, sizes, w, p, n, val);
    }

    /** A load returns the flat bytes, or poison if the tag of the block excludes the type. */
    method Load(p: Pointer, n: nat, left2right: bool, want: Tag, a: Aliases) returns (bytes: seq<Byte>)
      requires Valid() && Reaches(sizes, a, p, n)
      ensures InFlat(Flat(), p, n)
      ensures bytes == FlatLoad(Flat(), p, n, left2right, n > 0 && !Now().Side(p.isLocal.val)[p.bid].tag.Meets(want))
      ensures want == ANY && left2right ==> bytes == FlatGet(Flat(), p, n)
    {
      ReachesFlat(Now(), sizes, a, p, n);
      bytes := [];
      for i := 0 to n
        invariant |bytes| == i
        invariant forall j :: 0 <= j < i ==> bytes[j] == LoadByte(Now(), sizes, a, p, n, Index(left2right, n, j), want)
      {
        bytes := bytes + [LoadByte(Now(), sizes, a, p, n, Index(left2right, n, i), want)];
      }
      LoadIs(Now(), sizes, w, a, p, n, left2right, want, bytes);
    }

    /** `memset`: up to four bytes of literal length are stored one by one. */
    method Memset(p: Pointer, byte: SymByte, n: nat, nKnown: bool, same: set<(bool, nat)>, a: Aliases)
      requires Valid() && Reaches(sizes, a, p, n)
      requires SameSizes(sizes, same, n)
      modifies this
      ensures Valid() && Flat() == FlatPut(old(Flat()), p, seq(n, _ => byte.b))
    {
      if nKnown && n <= 4 {
        var data: Data := seq(n, i => (i, byte));
        InOrder(data);
        Store(p, data, a);
        assert Stored(data) == seq(n, _ => byte.b);
      } else {
        var b := byte.b;
        var lits := Lits(if byte.ptrKnown then Some(b.PtrByte?) else None, if byte.zeroKnown then Some(IsZero(b)) else None);
        StoreLambda(p, n, (x: int) => b, true, lits, same, a);
        assert seq(n, _ => byte.b) == Values((x: int) => b, p.off, n);
      }
    }

    /** `memcpy`: up to four bytes of literal length are loaded and stored; longer
        copies read the old memory through a lambda. */
    method Memcpy(dst: Pointer, src: Pointer, n: nat, nKnown: bool, itself: bool, folds: seq<(bool, bool)>, lits: Lits,
                  same: set<(bool, nat)>, aDst: Aliases, aSrc: Aliases)
      requires Valid() && Reaches(sizes, aDst, dst, n) && Reaches(sizes, aSrc, src, n) && |folds| == n
      requires InFlat(Flat(), src, n) && forall i :: 0 <= i < n ==> lits.Allow(Flat()[src.At(i)])
      requires itself ==> dst.isLocal.val == src.isLocal.val && dst.bid == src.bid && dst.off == src.off
      requires SameSizes(sizes, same, n)
      modifies this
      ensures Valid() && old(InFlat(Flat(), src, n)) && Flat() == FlatPut(old(Flat()), dst, old(FlatGet(Flat(), src, n)))
    {
      if itself {
        SelfCopy(Flat(), dst, src, n);
        return;
      }
      if nKnown && n <= 4 {
        var bytes := Load(src, n, true, ANY, aSrc);
        var data: Data := seq(n, i requires 0 <= i < n => (i, SymByte(bytes[i], folds[i].0, folds[i].1)));
        InOrder(data);
        Store(dst, data, aDst);
        assert Stored(data) == bytes;
      } else {
        var m, z := Now(), sizes;
        var val := CopyFrom(m, z, aSrc, src, dst.off);
        CopyFromIs(m, z, w, aSrc, src, dst.off, n);
        if NoArray(m, aSrc) { CopyConstant(m, z, aSrc, src, dst.off); }
        CopyAllows(FlatOf(m, z), val, src, dst.off, n, lits);
        StoreLambda(dst, n, val, NoArray(m, aSrc), lits, same, aDst);
        assert Values(val, dst.off, n) == FlatGet(FlatOf(m, z), src, n);
      }
    }

    /** A load of a pointer gives what the flat bytes stand for, skipped or not. */
    method LoadPtr(p: Pointer, little: bool, a: Aliases) returns (r: Option<nat>)
      requires Valid() && Reaches(sizes, a, p, w)
      ensures InFlat(Flat(), p, w) && r == PtrOf(FlatLoad(Flat(), p, w, little, false))
    {
      var bytes := Load(p, w, little, PTR, a);
      r := BytesToPtr(bytes);
      PtrLoadIs(Now(), sizes, w, a, p, little);
    }

    /** A load of `n` integer bytes keeps the bits that the flat bytes have. */
    method LoadInt(p: Pointer, n: nat, little: bool, bits: Option<nat>, a: Aliases) returns (r: seq<seq<Option<bool>>>)
      requires Valid() && Reaches(sizes, a, p, n)
      ensures InFlat(Flat(), p, n) && r == IntsOf(FlatLoad(Flat(), p, n, little, false), bits)
    {
      var bytes := Load(p, n, little, INT, a);
      r := BytesToInts(bytes, bits);
      IntLoadIs(Now(), sizes, w, a, p, n, little, bits);
    }

    /** What was stored is loaded back bit by bit, in either byte order. */
    method StoreThenLoadInt(p: Pointer, data: Data, little: bool, bits: Option<nat>, a: Aliases) returns (r: seq<seq<Option<bool>>>)
      requires Valid() && Layout(data) && Reaches(sizes, a, p, |data|)
      modifies this
      ensures Valid() && |r| == |data|
      ensures forall k :: 0 <= k < |data| ==>
        var i := if little then data[k].0 else |data| - 1 - data[k].0;
        0 <= i < |r| && KeepsBits(data[k].1.b, bits, i, r[i])
    {
      ghost var was := Flat();
      Store(p, data, a);
      r := LoadInt(p, |data|, little, bits, a);
      StoredBack(was, Flat(), p, data, little);
      BitsOfData(data, FlatLoad(Flat(), p, |data|, little, false), little, bits);
    }

    /** A pointer that was stored in `w` bytes is loaded back: from pointer bytes that are
        not poison, all of the same pointer and numbered in order, or, as the null
        pointer, from integer bytes without poison whose bits are all zero. */
    method StoreThenLoadPtr(p: Pointer, data: Data, little: bool, a: Aliases) returns (r: Option<nat>)
      requires Valid() && Layout(data) && |data| == w && Reaches(sizes, a, p, w)
      modifies this
      ensures Valid()
      ensures forall q: nat :: r == Some(q) <==> BytesOfPtr(data, q, little) || (q == 0 && BytesOfNull(data))
    {
      ghost var was := Flat();
      Store(p, data, a);
      r := LoadPtr(p, little, a);
      StoredBack(was, Flat(), p, data, little);
      PtrsBack(data, FlatLoad(Flat(), p, w, little, false), little);
    }

    /** Any sequence of stores, sets and copies leaves the flat memory that the
        same sequence leaves there. */
    method RunOps(ops: seq<Op>)
      requires Valid() && OpsOk(Flat(), sizes, ops)
      modifies this
      ensures Valid() && Flat() == FlatRun(old(Flat()), ops)
    {
      for i := 0 to |ops|
        invariant Valid() && OpsOk(Flat(), sizes, ops[i..])
        invariant FlatRun(old(Flat()), ops) == FlatRun(Flat(), ops[i..])
      {
        RunOp(ops[i]);
        assert ops[i..][1..] == ops[i + 1..];
      }
    }

    method RunOp(op: Op)
      requires Valid() && OpOk(Flat(), sizes, op)
      modifies this
      ensures Valid() && Flat() == FlatStep(old(Flat()), op)
    {
      match op
      case StoreOp(p, data, a) => Store(p, data, a);
      case MemsetOp(p, byte, n, nKnown, same, a) => Memset(p, byte, n, nKnown, same, a);
      case MemcpyOp(dst, src, n, nKnown, itself, folds, lits, same, aDst, aSrc) =>
        Memcpy(dst, src, n, nKnown, itself, folds, lits, same, aDst, aSrc);
    }
  }

  /** Run on a memory of one block of one byte: any byte stored there is read back, a
      pointer by a pointer load and bits by an integer load. */
  method OneByteMemory(b: Byte, little: bool) returns (bits: seq<Option<bool>>, ptr: Option<nat>)
    ensures KeepsBits(b, None, 0, bits)
    ensures b.PtrByte? && b.off == 0 ==> ptr == (if b.np then Some(b.ptr) else None)
  {
    var p, a := Pointer(TRUE, 0, true, 0), Aliases([true], []);
    var m := new Memory(Sizes([BlockInfo(1, true)], []), 1, []);
    var data := [(0, SymByte(b, true, true))];
    assert Holds(data, 0) by { assert data[0].0 == 0; }
    var r := m.StoreThenLoadInt(p, data, little, None, a);
    assert data[0].1.b == b;
    bits := r[0];
    ptr := m.StoreThenLoadPtr(p, data, little, a);
    if ptr.Some? { assert ptr == Some(ptr.value); }
    assert BytesOfPtr(data, if b.PtrByte? then b.ptr else 0, little) <==> b.PtrByte? && b.np && b.off == 0;
  }

  // ---------------------------------------------------------------------
  // Typed loads and histories
  // ---------------------------------------------------------------------

  /** The sub-byte marks byte `i` of an integer load should have; `bits` is the width if
      it is not a whole number of bytes. */
  function Marks(bits: Option<nat>, i: nat): Option<(nat, nat)> {
    if bits.Some? then Some((bits.value, i)) else None
  }

  /** The bits of an integer load. */
  function IntsOf(bytes: seq<Byte>, bits: Option<nat>): (r: seq<seq<Option<bool>>>)
    ensures |r| == |bytes|
  {
    seq(|bytes|, i requires 0 <= i < |bytes| => IntBits(bytes[i], Marks(bits, i)))
  }

  /** `bytesToValue` of an integer type. */
  method BytesToInts(bytes: seq<Byte>, bits: Option<nat>) returns (r: seq<seq<Option<bool>>>)
    ensures r == IntsOf(bytes, bits)
  {
    r := [];
    for i := 0 to |bytes|
      invariant |r| == i && forall j :: 0 <= j < i ==> r[j] == IntBits(bytes[j], Marks(bits, j))
    {
      r := r + [IntBits(bytes[i], Marks(bits, i))];
    }
  }

  /** Bit by bit what a load of an integer keeps of the byte in place `i`: a bit whose
      poison bit is set has its value, the others have none; nor have those of a
      pointer byte, or of a byte with other marks than the load asks for. */
  ghost predicate KeepsBits(b: Byte, bits: Option<nat>, i: nat, s: seq<Option<bool>>) {
    && |s| == BITS_BYTE
    && forall g, t :: 0 <= g < POISON_BITS && 0 <= t < BITS_BYTE && g * GROUP <= t < g * GROUP + GROUP ==>
      s[t] == if b.IntByte? && b.mask[g] && (bits == None || (bits == Some(b.stored) && b.number == i)) then Some(b.val[t]) else None
  }

  lemma KeptBits(b: Byte, bits: Option<nat>, i: nat)
    ensures KeepsBits(b, bits, i, IntBits(b, Marks(bits, i)))
  {
    var s := IntBits(b, Marks(bits, i));
    forall g, t | 0 <= g < POISON_BITS && 0 <= t < BITS_BYTE && g * GROUP <= t < g * GROUP + GROUP
      ensures s[t] == if b.IntByte? && b.mask[g] && (bits == None || (bits == Some(b.stored) && b.number == i)) then Some(b.val[t]) else None
    {
      GroupOf(t, g, GROUP);
    }
  }

  /** A byte that never got a value keeps none. */
  lemma PoisonKeepsNone(bits: Option<nat>, i: nat)
    ensures KeepsBits(POISON, bits, i, seq(BITS_BYTE, _ => None))
  {
    KeptBits(POISON, bits, i);
    assert forall g :: 0 <= g < POISON_BITS ==> !POISON.mask[g];
  }

  lemma GroupOf(t: nat, g: nat, n: nat)
    requires n > 0 && g * n <= t < g * n + n
    ensures t / n == g
  {
    assert t == g * n + (t - g * n);
    if t / n < g { GuardInside(g - 1, t / n, n); } else if t / n > g { GuardInside(t / n, g + 1, n); }
  }

  /** The bytes `bytes` are the data in the order of the load. */
  ghost predicate InOrderOf(data: Data, bytes: seq<Byte>, little: bool) {
    |bytes| == |data| && forall k :: 0 <= k < |data| ==> data[k].0 < |data| && data[k].1.b == bytes[Index(little, |data|, data[k].0)]
  }

  /** What was stored is what a load in either order finds. */
  lemma StoredBack(was: imap<Loc, Byte>, m: imap<Loc, Byte>, p: Pointer, data: Data, little: bool)
    requires Layout(data) && InFlat(m, p, |data|) && m == FlatPut(was, p, Stored(data))
    ensures InOrderOf(data, FlatLoad(m, p, |data|, little, false), little)
  {
    var bytes := FlatLoad(m, p, |data|, little, false);
    forall k | 0 <= k < |data|
      ensures data[k].0 < |data| && data[k].1.b == bytes[Index(little, |data|, data[k].0)]
    {
      var o := data[k].0;
      assert Where(data, o) == k;
      assert m[p.At(o)] == Stored(data)[o];
    }
  }

  lemma BitsOfData(data: Data, bytes: seq<Byte>, little: bool, bits: Option<nat>)
    requires InOrderOf(data, bytes, little)
    ensures forall k :: 0 <= k < |data| ==>
      var i := if little then data[k].0 else |data| - 1 - data[k].0;
      0 <= i < |bytes| && KeepsBits(data[k].1.b, bits, i, IntsOf(bytes, bits)[i])
  {
    forall k | 0 <= k < |data|
      ensures var i := if little then data[k].0 else |data| - 1 - data[k].0;
        0 <= i < |bytes| && KeepsBits(data[k].1.b, bits, i, IntsOf(bytes, bits)[i])
    {
      KeptBits(data[k].1.b, bits, Index(little, |data|, data[k].0));
    }
  }

  /** The data are all bytes of pointer `q`, without poison and in order. */
  ghost predicate BytesOfPtr(data: Data, q: nat, little: bool)
    requires Layout(data)
  {
    forall k :: 0 <= k < |data| ==> data[k].1.b == PtrByte(true, q, if little then data[k].0 else |data| - 1 - data[k].0)
  }

  /** The data are all zero, without poison. */
  ghost predicate BytesOfNull(data: Data) {
    forall k :: 0 <= k < |data| ==> data[k].1.b.IntByte? && false !in data[k].1.b.mask && true !in data[k].1.b.val
  }

  lemma PtrOfIff(bytes: seq<Byte>, q: nat)
    requires bytes != []
    ensures PtrOf(bytes) == Some(q) <==>
      || (forall i :: 0 <= i < |bytes| ==> bytes[i] == PtrByte(true, q, i))
      || (q == 0 && forall i :: 0 <= i < |bytes| ==> bytes[i].IntByte? && false !in bytes[i].mask && true !in bytes[i].val)
  {
  }

  lemma DataAt(data: Data, bytes: seq<Byte>, little: bool, i: nat) returns (k: nat)
    requires Layout(data) && InOrderOf(data, bytes, little) && i < |bytes|
    ensures k < |data| && data[k].1.b == bytes[i] && Index(little, |data|, data[k].0) == i
  {
    k := Where(data, Index(little, |data|, i));
  }

  lemma PtrBack(data: Data, bytes: seq<Byte>, little: bool, q: nat)
    requires Layout(data) && data != [] && InOrderOf(data, bytes, little)
    ensures PtrOf(bytes) == Some(q) <==> BytesOfPtr(data, q, little) || (q == 0 && BytesOfNull(data))
  {
    PtrOfIff(bytes, q);
    if BytesOfPtr(data, q, little) {
      forall i | 0 <= i < |bytes| ensures bytes[i] == PtrByte(true, q, i) { var k := DataAt(data, bytes, little, i); }
    }
    if BytesOfNull(data) {
      forall i | 0 <= i < |bytes| ensures bytes[i].IntByte? && false !in bytes[i].mask && true !in bytes[i].val {
        var k := DataAt(data, bytes, little, i);
      }
    }
  }

  lemma PtrsBack(data: Data, bytes: seq<Byte>, little: bool)
    requires Layout(data) && data != [] && InOrderOf(data, bytes, little)
    ensures forall q: nat :: PtrOf(bytes) == Some(q) <==> BytesOfPtr(data, q, little) || (q == 0 && BytesOfNull(data))
  {
    forall q: nat ensures PtrOf(bytes) == Some(q) <==> BytesOfPtr(data, q, little) || (q == 0 && BytesOfNull(data)) {
      PtrBack(data, bytes, little, q);
    }
  }

  /** The flat bytes of a load are bytes of the target block. */
  lemma FlatLoadAt(m: Contents, z: Sizes, w: nat, a: Aliases, p: Pointer, n: nat, little: bool, i: nat)
    requires ContentsOk(m, z, w) && Reaches(z, a, p, n) && InFlat(FlatOf(m, z), p, n) && i < n
    ensures TagOk(m.Side(p.isLocal.val)[p.bid], z.Side(p.isLocal.val)[p.bid].size, w)
    ensures FlatLoad(FlatOf(m, z), p, n, little, false)[i] == At(m.Side(p.isLocal.val)[p.bid].val, p.off + Index(little, n, i))
  {
    assert InBounds(z, p.At(Index(little, n, i)));
  }

  lemma PtrLoadIs(m: Contents, z: Sizes, w: nat, a: Aliases, p: Pointer, little: bool)
    requires ContentsOk(m, z, w) && Reaches(z, a, p, w) && InFlat(FlatOf(m, z), p, w)
    ensures PtrOf(FlatLoad(FlatOf(m, z), p, w, little, !m.Side(p.isLocal.val)[p.bid].tag.Meets(PTR))) ==
            PtrOf(FlatLoad(FlatOf(m, z), p, w, little, false))
  {
    var blk, size := m.Side(p.isLocal.val)[p.bid], z.Side(p.isLocal.val)[p.bid].size;
    if !blk.tag.Meets(PTR) {
      var bytes := FlatLoad(FlatOf(m, z), p, w, little, false);
      forall i | 0 <= i < w
        ensures bytes[i] == At(blk.val, p.off + Index(little, w, i)) && TagOk(blk, size, w)
      {
        FlatLoadAt(m, z, w, a, p, w, little, i);
      }
      PoisonLoad(FlatLoad(FlatOf(m, z), p, w, little, true));
      SkippedLoad(blk, size, w, p.off, little, bytes);
    }
  }

  lemma PoisonLoad(bytes: seq<Byte>)
    requires bytes != [] && bytes[0] == POISON
    ensures PtrOf(bytes) == None
  {
    PoisonIs();
  }

  lemma SkippedLoad(blk: MemBlock, size: nat, w: nat, off: int, little: bool, bytes: seq<Byte>)
    requires w > 0 && TagOk(blk, size, w) && !blk.tag.Meets(PTR)
    requires 0 <= off && off + w <= size && |bytes| == w
    requires forall i :: 0 <= i < w ==> bytes[i] == At(blk.val, off + Index(little, w, i))
    ensures PtrOf(bytes) == None
  {
    SkippedPtrLoad(blk, size, w, off, bytes);
  }

  lemma IntLoadIs(m: Contents, z: Sizes, w: nat, a: Aliases, p: Pointer, n: nat, little: bool, bits: Option<nat>)
    requires ContentsOk(m, z, w) && Reaches(z, a, p, n) && InFlat(FlatOf(m, z), p, n)
    ensures IntsOf(FlatLoad(FlatOf(m, z), p, n, little, n > 0 && !m.Side(p.isLocal.val)[p.bid].tag.Meets(INT)), bits) ==
            IntsOf(FlatLoad(FlatOf(m, z), p, n, little, false), bits)
  {
    if n > 0 && !m.Side(p.isLocal.val)[p.bid].tag.Meets(INT) {
      var blk, size := m.Side(p.isLocal.val)[p.bid], z.Side(p.isLocal.val)[p.bid].size;
      var bytes := FlatLoad(FlatOf(m, z), p, n, little, false);
      forall i | 0 <= i < n
        ensures bytes[i] == At(blk.val, p.off + Index(little, n, i)) && TagOk(blk, size, w)
      {
        FlatLoadAt(m, z, w, a, p, n, little, i);
      }
      SkippedInts(blk, size, w, p.off, little, bytes, FlatLoad(FlatOf(m, z), p, n, little, true), bits);
    }
  }

  lemma SkippedInts(blk: MemBlock, size: nat, w: nat, off: int, little: bool, bytes: seq<Byte>, none: seq<Byte>, bits: Option<nat>)
    requires TagOk(blk, size, w) && !blk.tag.Meets(INT)
    requires 0 <= off && off + |bytes| <= size && |none| == |bytes|
    requires forall i :: 0 <= i < |bytes| ==> bytes[i] == At(blk.val, off + Index(little, |bytes|, i))
    requires forall i :: 0 <= i < |none| ==> none[i] == POISON
    ensures IntsOf(none, bits) == IntsOf(bytes, bits)
  {
    forall i: nat | i < |bytes|
      ensures IntBits(none[i], Marks(bits, i)) == IntBits(bytes[i], Marks(bits, i))
    {
      SkippedIntLoad(blk, size, w, off + Index(little, |bytes|, i), Marks(bits, i));
    }
    SameInts(none, bytes, bits);
  }

  lemma SameInts(a: seq<Byte>, b: seq<Byte>, bits: Option<nat>)
    requires |a| == |b| && forall i: nat :: i < |a| ==> IntBits(a[i], Marks(bits, i)) == IntBits(b[i], Marks(bits, i))
    ensures IntsOf(a, bits) == IntsOf(b, bits)
  {
  }

  datatype Op =
    | StoreOp(p: Pointer, data: Data, a: Aliases)
    | MemsetOp(p: Pointer, byte: SymByte, n: nat, nKnown: bool, same: set<(bool, nat)>, a: Aliases)
    | MemcpyOp(dst: Pointer, src: Pointer, n: nat, nKnown: bool, itself: bool, folds: seq<(bool, bool)>, lits: Lits,
               same: set<(bool, nat)>, aDst: Aliases, aSrc: Aliases)

  /** The access is in bounds, the alias sets contain the blocks it touches, and
      what is said to be known about expressions is true. */
  ghost predicate OpOk(m: imap<Loc, Byte>, z: Sizes, op: Op) {
    match op
    case StoreOp(p, data, a) => Layout(data) && Reaches(z, a, p, |data|)
    case MemsetOp(p, _, n, _, same, a) => Reaches(z, a, p, n) && SameSizes(z, same, n)
    case MemcpyOp(dst, src, n, _, itself, folds, lits, same, aDst, aSrc) =>
      && Reaches(z, aDst, dst, n) && Reaches(z, aSrc, src, n) && |folds| == n && SameSizes(z, same, n)
      && InFlat(m, src, n) && (forall i :: 0 <= i < n ==> lits.Allow(m[src.At(i)]))
      && (itself ==> dst.isLocal.val == src.isLocal.val && dst.bid == src.bid && dst.off == src.off)
  }

  ghost function FlatStep(m: imap<Loc, Byte>, op: Op): imap<Loc, Byte> {
    match op
    case StoreOp(p, data, _) => if Layout(data) then FlatPut(m, p, Stored(data)) else m
    case MemsetOp(p, byte, n, _, _, _) => FlatPut(m, p, seq(n, _ => byte.b))
    case MemcpyOp(dst, src, n, _, _, _, _, _, _, _) => if InFlat(m, src, n) then FlatPut(m, dst, FlatGet(m, src, n)) else m
  }

  ghost predicate OpsOk(m: imap<Loc, Byte>, z: Sizes, ops: seq<Op>) {
    ops == [] || (OpOk(m, z, ops[0]) && OpsOk(FlatStep(m, ops[0]), z, ops[1..]))
  }

  ghost function FlatRun(m: imap<Loc, Byte>, ops: seq<Op>): imap<Loc, Byte> {
    if ops == [] then m else FlatRun(FlatStep(m, ops[0]), ops[1..])
  }

  /** Data listed in address order. */
  lemma InOrder(data: Data)
    requires forall k :: 0 <= k < |data| ==> data[k].0 == k
    ensures Layout(data) && forall i :: 0 <= i < |data| ==> Stored(data)[i] == data[i].1.b
  {
    forall i: nat | i < |data| ensures Holds(data, i) { assert data[i].0 == i; }
  }

  lemma SelfCopy(m: imap<Loc, Byte>, dst: Pointer, src: Pointer, n: nat)
    requires InFlat(m, src, n)
    requires dst.isLocal.val == src.isLocal.val && dst.bid == src.bid && dst.off == src.off
    ensures m == FlatPut(m, dst, FlatGet(m, src, n))
  {
    forall l | l in m
      ensures m[l] == FlatPut(m, dst, FlatGet(m, src, n))[l]
    {
      if l.isLocal == dst.isLocal.val && l.bid == dst.bid && dst.off <= l.off < dst.off + n {
        assert l == src.At(l.off - dst.off);
      }
    }
  }

  /** The byte a long copy puts at block offset `x`: `d` is the offset of the destination. */
  function CopyFrom(m: Contents, z: Sizes, a: Aliases, src: Pointer, d: int): int -> Byte
    requires |m.local| == |z.local| == |a.local| && |m.nonLocal| == |z.nonLocal| == |a.nonLocal|
  {
    (x: int) =>
      if |m.local| == |z.local| == |a.local| && |m.nonLocal| == |z.nonLocal| == |a.nonLocal|
      then LoadByte(m, z, a, src.Plus(x - d), 1, 0, ANY) else POISON
  }

  lemma CopyFromIs(m: Contents, z: Sizes, w: nat, a: Aliases, src: Pointer, d: int, n: nat)
    requires ContentsOk(m, z, w) && Reaches(z, a, src, n) && InFlat(FlatOf(m, z), src, n)
    ensures Copies(FlatOf(m, z), CopyFrom(m, z, a, src, d), src, d, n)
  {
    forall x | d <= x < d + n
      ensures CopyFrom(m, z, a, src, d)(x) == FlatOf(m, z)[src.At(x - d)]
    {
      CopyByteIs(m, z, w, a, src, n, x - d);
    }
  }

  lemma CopyConstant(m: Contents, z: Sizes, a: Aliases, src: Pointer, d: int)
    requires |m.local| == |z.local| == |a.local| && |m.nonLocal| == |z.nonLocal| == |a.nonLocal|
    requires NoArray(m, a)
    ensures Constant(CopyFrom(m, z, a, src, d))
  {
    forall x
      ensures CopyFrom(m, z, a, src, d)(x) == CopyFrom(m, z, a, src, d)(0)
    {
      LoadNoOffset(m, z, a, src.Plus(x - d), src.Plus(0 - d));
    }
  }

  lemma CopyByteIs(m: Contents, z: Sizes, w: nat, a: Aliases, src: Pointer, n: nat, i: nat)
    requires ContentsOk(m, z, w) && Reaches(z, a, src, n) && i < n
    ensures InFlat(FlatOf(m, z), src, n)
    ensures LoadByte(m, z, a, src.Plus(i), 1, 0, ANY) == FlatOf(m, z)[src.At(i)]
  {
    ReachesFlat(m, z, a, src, n);
    LoadByteIs(m, z, w, a, src.Plus(i), 1, 0, ANY);
    assert src.Plus(i).At(0) == src.At(i);
  }

  /** `val` reads the bytes at `src` as bytes at offset `d`. */
  ghost predicate Copies(m: imap<Loc, Byte>, val: int -> Byte, src: Pointer, d: int, n: nat)
    requires InFlat(m, src, n)
  {
    forall x :: d <= x < d + n ==> val(x) == m[src.At(x - d)]
  }

  lemma CopyAllows(m: imap<Loc, Byte>, val: int -> Byte, src: Pointer, d: int, n: nat, lits: Lits)
    requires InFlat(m, src, n) && Copies(m, val, src, d, n)
    requires forall i :: 0 <= i < n ==> lits.Allow(m[src.At(i)])
    ensures AllAllowed(val, d, n, lits)
    ensures Values(val, d, n) == FlatGet(m, src, n)
  {
    forall i | 0 <= i < n
      ensures Values(val, d, n)[i] == FlatGet(m, src, n)[i]
    {
      assert Values(val, d, n)[i] == val(d + i);
    }
  }

  lemma LoadNoOffset(m: Contents, z: Sizes, a: Aliases, p: Pointer, q: Pointer)
    requires |m.local| == |z.local| == |a.local| && |m.nonLocal| == |z.nonLocal| == |a.nonLocal|
    requires NoArray(m, a) && q == p.(off := q.off)
    ensures LoadByte(m, z, a, p, 1, 0, ANY) == LoadByte(m, z, a, q, 1, 0, ANY)
  {
    CollectNoOffset([], m, z, a, p, q, true, 1, 0, ANY, |m.local|);
    var xs := Collect([], m, z, a, p, true, 1, 0, ANY, |m.local|);
    CollectNoOffset(xs, m, z, a, p, q, false, 1, 0, ANY, |m.nonLocal|);
  }
}
