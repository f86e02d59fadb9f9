/** `Byte::refined` on pointer bytes and integer bytes, outside assembly mode, in a
    program that accesses both. */
module MixedBytes {
  import opened Aggregates
  import opened BitVectors
  import opened ByteRefinement
  import opened Granularity

  /** The bits of a logical pointer. The null pointer is not to a local block. */
  datatype PtrId = Null | Global(bits: nat) | Local(bits: nat)

  /** The block of a local pointer, in its own memory, and the offset in it. */
  datatype Block = Block(kind: nat, size: nat, off: int, alive: bool)

  datatype Pointer = Pointer(id: PtrId, block: Block)

  /** `Pointer::refined` */
  predicate PtrRefined(p: Pointer, q: Pointer) {
    if p.id.Null? then q.id.Null?
    else if p.id.Local? then
      && q.id.Local? && p.block.kind == q.block.kind && p.block.size == q.block.size && p.block.off == q.block.off
      && (p.block.alive ==> q.block.alive)
    else p.id == q.id
  }

  /** What each kind of pointer may become: null only null; a pointer to a block of both
      memories only itself; one to a local block only one at the same place of a
      local block of the same kind and size, and not of a freed one unless its own was. */
  lemma PtrRefinedOnly(p: Pointer, q: Pointer)
    ensures p.id == Null ==> (PtrRefined(p, q) <==> q.id == Null)
    ensures p.id.Global? ==> (PtrRefined(p, q) <==> q.id == p.id)
    ensures p.id.Local? && !q.id.Local? ==> !PtrRefined(p, q)
    ensures p.id.Local? && q.id.Local? ==> (PtrRefined(p, q) <==>
      q.block == p.block || q.block == p.block.(alive := true))
  {
  }

  /** So what may be accessed through a local pointer before may be accessed after: the
      block still is alive, and the access inside it. */
  lemma RefinedAccess(p: Pointer, q: Pointer, n: nat)
    requires p.id.Local? && PtrRefined(p, q)
    requires p.block.alive && 0 <= p.block.off && p.block.off + n <= p.block.size
    ensures q.id.Local? && q.block.alive && q.block.off == p.block.off && q.block.off + n <= q.block.size
  {
  }

  datatype AnyByte = PtrByte(np: bool, ptr: Pointer, off: nat) | OfInt(b: IntByte)

  /** The bytes of a program: `ptrBytes` is the width of a pointer in bytes. */
  ghost predicate Fits(cfg: Config, ptrBytes: nat, b: AnyByte) {
    if b.PtrByte? then b.off < ptrBytes else ByteOk(cfg, b.b)
  }

  /** `isPoison`: one poison bit is enough. */
  predicate IsPoison(b: AnyByte) {
    if b.PtrByte? then !b.np else false in b.b.np
  }

  predicate IsZero(b: AnyByte) {
    if b.PtrByte? then b.ptr.id.Null? else true !in b.b.v
  }

  /** What two memories see of one byte if no pointer was stored: the bits are the same. */
  predicate SameBits(s: AnyByte, t: AnyByte) {
    s.PtrByte? && t.PtrByte? && s.np == t.np && s.ptr.id == t.ptr.id && s.off == t.off
  }

  /** `Byte::refined`; `stores` says that the program stores pointers. */
  ghost predicate ByteRefined(cfg: Config, stores: bool, s: AnyByte, t: AnyByte)
    requires Even(cfg) && (s.OfInt? ==> ByteOk(cfg, s.b)) && (t.OfInt? ==> ByteOk(cfg, t.b))
  {
    if s.PtrByte? && t.PtrByte? then
      if stores then s.np ==> t.np && s.off == t.off && PtrRefined(s.ptr, t.ptr) else SameBits(s, t)
    else if s.OfInt? && t.OfInt? then Refined(cfg, s.b, t.b)
    else IsPoison(s) || (IsZero(s) && !IsPoison(t) && IsZero(t))
  }

  /** A pointer byte without poison stays the same byte of a pointer: of a refined one if
      the program stores pointers, and otherwise of the same one. */
  lemma PtrByteRefined(cfg: Config, stores: bool, s: AnyByte, t: AnyByte)
    requires Even(cfg) && s.PtrByte? && s.np && t.PtrByte?
    ensures ByteRefined(cfg, stores, s, t) <==>
      && t.np && t.off == s.off
      && if stores then PtrRefined(s.ptr, t.ptr) else t.ptr.id == s.ptr.id
  {
  }

  lemma PtrPreorder(p: Pointer, q: Pointer, r: Pointer)
    ensures PtrRefined(p, p)
    ensures PtrRefined(p, q) && PtrRefined(q, r) ==> PtrRefined(p, r)
    ensures PtrRefined(p, q) ==> (p.id.Null? <==> q.id.Null?)
  {
  }

  /** An integer byte without poison is refined by equal bytes only; one that is refined
      by a byte with poison has poison. */
  lemma IntRefined(cfg: Config, s: IntByte, t: IntByte)
    requires Even(cfg) && ByteOk(cfg, s) && ByteOk(cfg, t) && Refined(cfg, s, t)
    ensures false in t.np ==> false in s.np
    ensures false !in s.np ==> s.v == t.v
  {
    RefinedIff(cfg, s, t);
    GroupIs(cfg);
    var g, n := Group(cfg), cfg.poisonPerByte;
    if j :| 0 <= j < n && !t.np[j] {
      assert GroupAll(g, s, t, j) && BitRefined(s, t, g, j, 0);
      GroupInByte(j, n, g);
    }
    if false !in s.np {
      forall k: nat | k < cfg.bitsByte
        ensures s.v[k] == t.v[k]
      {
        BitOfGroup(k, g, n);
        assert s.np[k / g] in s.np;
        assert GroupAll(g, s, t, k / g) && BitRefined(s, t, g, k / g, k % g);
      }
    }
  }

  lemma BitOfGroup(k: nat, g: nat, n: nat)
    requires g > 0 && k < g * n
    ensures 0 <= k / g < n && 0 <= k % g < g && k / g * g + k % g == k
  {
    AtLeast(k / g, n, g);
  }

  lemma AtLeast(q: int, n: nat, g: nat)
    ensures q >= n ==> q * g >= n * g
  {
    if q >= n { assert (q - n) * g >= 0; }
  }

  lemma SoleBit(np: Bits)
    requires |np| == 1
    ensures false in np || np == [true]
  {
    assert np == [np[0]];
    if !np[0] { assert np[0] in np; }
  }

  lemma AllZero(v: Bits)
    requires true !in v
    ensures v == ZeroBits(|v|)
  {
    forall k | 0 <= k < |v| ensures !v[k] { assert v[k] in v; }
  }

  /** Refinement holds of a byte and itself. */
  lemma Reflexive(cfg: Config, stores: bool, a: AnyByte)
    requires Even(cfg) && (a.OfInt? ==> ByteOk(cfg, a.b))
    ensures ByteRefined(cfg, stores, a, a)
  {
    if a.OfInt? {
      RefinedPreorder(cfg, a.b, a.b, a.b);
    } else {
      PtrPreorder(a.ptr, a.ptr, a.ptr);
    }
  }

  /** Three bytes of which the middle one alone is of the other kind. */
  predicate Sandwich(a: AnyByte, b: AnyByte, c: AnyByte) {
    a.PtrByte? == c.PtrByte? && a.PtrByte? != b.PtrByte?
  }

  /** Two refinements compose, except around a byte of the other kind. */
  lemma Composes(cfg: Config, stores: bool, a: AnyByte, b: AnyByte, c: AnyByte)
    requires Even(cfg) && (a.OfInt? ==> ByteOk(cfg, a.b)) && (b.OfInt? ==> ByteOk(cfg, b.b)) && (c.OfInt? ==> ByteOk(cfg, c.b))
    requires ByteRefined(cfg, stores, a, b) && ByteRefined(cfg, stores, b, c) && !Sandwich(a, b, c)
    ensures ByteRefined(cfg, stores, a, c)
  {
    if a.PtrByte? && b.PtrByte? {
      PtrPreorder(a.ptr, b.ptr, if c.PtrByte? then c.ptr else b.ptr);
    } else if a.OfInt? && b.OfInt? {
      IntRefined(cfg, a.b, b.b);
      if c.OfInt? { RefinedPreorder(cfg, a.b, b.b, c.b); }
    } else if a.OfInt? {
      PtrPreorder(b.ptr, c.ptr, c.ptr);
    } else {
      IntRefined(cfg, b.b, c.b);
    }
  }

  /** Around a byte of the other kind they compose if poison is all or nothing, pointers
      are stored and fit a byte. */
  lemma ComposesAround(cfg: Config, a: AnyByte, b: AnyByte, c: AnyByte)
    requires Even(cfg) && cfg.poisonPerByte == 1 && Fits(cfg, 1, a) && Fits(cfg, 1, b) && Fits(cfg, 1, c)
    requires ByteRefined(cfg, true, a, b) && ByteRefined(cfg, true, b, c) && Sandwich(a, b, c)
    ensures ByteRefined(cfg, true, a, c)
  {
    if a.OfInt? {
      RefinedPreorder(cfg, a.b, a.b, a.b);
      assert a.b.np == [a.b.np[0]] && c.b.np == [c.b.np[0]];
      if !IsPoison(a) {
        AllZero(a.b.v);
        AllZero(c.b.v);
        assert !IsPoison(b) && !IsPoison(c);
        SoleBit(a.b.np);
        SoleBit(c.b.np);
        assert a.b.v == c.b.v && a.b.np == c.b.np;
      } else {
        AllPoison(cfg, a.b, c.b);
      }
    }
  }

  lemma AllPoison(cfg: Config, s: IntByte, t: IntByte)
    requires Even(cfg) && ByteOk(cfg, s) && ByteOk(cfg, t) && forall j :: 0 <= j < |s.np| ==> !s.np[j]
    ensures Refined(cfg, s, t)
  {
    RefinedIff(cfg, s, t);
  }

  ghost predicate Transitive(cfg: Config, stores: bool, ptrBytes: nat)
    requires Even(cfg)
  {
    forall a, b, c ::
      (Fits(cfg, ptrBytes, a) && Fits(cfg, ptrBytes, b) && Fits(cfg, ptrBytes, c)
       && ByteRefined(cfg, stores, a, b) && ByteRefined(cfg, stores, b, c)) ==>
        ByteRefined(cfg, stores, a, c)
  }

  function ZeroBits(n: nat): Bits { seq(n, _ => false) }
  function OneBits(n: nat): Bits { seq(n, _ => true) }

  const NO_BLOCK := Block(0, 0, 0, false)

  /** An integer byte whose poison bit 0 alone is clear, by way of a poison pointer byte,
      is refined by a byte with other bits. */
  lemma PartialPoison(cfg: Config, stores: bool, ptrBytes: nat)
    requires Even(cfg) && cfg.poisonPerByte > 1 && ptrBytes > 0
    ensures !Transitive(cfg, stores, ptrBytes)
  {
    var a := OfInt(IntByte(ZeroBits(cfg.bitsByte), OneBits(cfg.poisonPerByte)[0 := false]));
    var b := PtrByte(false, Pointer(Null, NO_BLOCK), 0);
    var c := OfInt(IntByte(ZeroBits(cfg.bitsByte), ZeroBits(cfg.poisonPerByte)));
    assert a.b.np[0] == false && a.b.np[1] == true;
    var g := Group(cfg);
    GroupIs(cfg);
    GroupInByte(1, cfg.poisonPerByte, g);
    RefinedIff(cfg, a.b, c.b);
    assert !BitRefined(a.b, c.b, g, 1, 0) && !GroupAll(g, a.b, c.b, 1);
    assert !ByteRefined(cfg, stores, a, c);
    assert ByteRefined(cfg, stores, a, b) && ByteRefined(cfg, stores, b, c);
    assert Fits(cfg, ptrBytes, a) && Fits(cfg, ptrBytes, b) && Fits(cfg, ptrBytes, c);
  }

  /** Without pointer stores, a poison pointer byte is refined by a poison integer byte
      and that by another pointer byte. */
  lemma NoStores(cfg: Config, ptrBytes: nat)
    requires Even(cfg) && ptrBytes > 0
    ensures !Transitive(cfg, false, ptrBytes)
  {
    var a := PtrByte(false, Pointer(Null, NO_BLOCK), 0);
    var b := OfInt(IntByte(ZeroBits(cfg.bitsByte), ZeroBits(cfg.poisonPerByte)));
    var c := PtrByte(true, Pointer(Null, NO_BLOCK), 0);
    assert b.b.np[0] == false;
    assert !ByteRefined(cfg, false, a, c);
    assert ByteRefined(cfg, false, a, b) && ByteRefined(cfg, false, b, c);
    assert Fits(cfg, ptrBytes, a) && Fits(cfg, ptrBytes, b) && Fits(cfg, ptrBytes, c);
  }

  /** Two bytes of the null pointer refine a zero byte in turn, but not each other. */
  lemma WidePointers(cfg: Config, ptrBytes: nat)
    requires Even(cfg) && ptrBytes > 1
    ensures !Transitive(cfg, true, ptrBytes)
  {
    var a := PtrByte(true, Pointer(Null, NO_BLOCK), 0);
    var b := OfInt(IntByte(ZeroBits(cfg.bitsByte), OneBits(cfg.poisonPerByte)));
    var c := PtrByte(true, Pointer(Null, NO_BLOCK), 1);
    assert !ByteRefined(cfg, true, a, c);
    assert !IsPoison(b) && IsZero(b);
    assert ByteRefined(cfg, true, a, b) && ByteRefined(cfg, true, b, c);
    assert Fits(cfg, ptrBytes, a) && Fits(cfg, ptrBytes, b) && Fits(cfg, ptrBytes, c);
  }

  /** Refinement of bytes is transitive exactly if a byte has one poison bit, pointers
      are stored, and a pointer is one byte wide. */
  lemma TransitiveIff(cfg: Config, stores: bool, ptrBytes: nat)
    requires Even(cfg) && ptrBytes > 0
    ensures Transitive(cfg, stores, ptrBytes) <==> cfg.poisonPerByte == 1 && stores && ptrBytes == 1
  {
    if cfg.poisonPerByte > 1 { PartialPoison(cfg, stores, ptrBytes); }
    if !stores { NoStores(cfg, ptrBytes); }
    if stores && ptrBytes > 1 { WidePointers(cfg, ptrBytes); }
    if cfg.poisonPerByte == 1 && stores && ptrBytes == 1 {
      forall a, b, c | Fits(cfg, 1, a) && Fits(cfg, 1, b) && Fits(cfg, 1, c)
                       && ByteRefined(cfg, true, a, b) && ByteRefined(cfg, true, b, c)
        ensures ByteRefined(cfg, true, a, c)
      {
        if Sandwich(a, b, c) { ComposesAround(cfg, a, b, c); } else { Composes(cfg, true, a, b, c); }
      }
    }
  }
}
