/** Addresses and liveness of local blocks: `alloc`, `free` and `startLifetime`
    record preconditions under which live blocks never overlap. */
module LocalAddresses {
  import opened BitVectors

  // ---------------------------------------------------------------------
  // Liveness bits
  // ---------------------------------------------------------------------

  /** The new value in `store_bv`; all numbers are as wide as the vector itself. */
  function StoreBit(v: Bits, bid: nat, val: bool): (r: Bits)
    ensures |r| == |v|
  {
    var bw := |v|;
    var b := Wrap(bid, bw);
    var one := Shl(One(bw), b);
    var mask := BitOr(Shl(Ones(bw), Wrap(b + 1, bw)), Lshr(Ones(bw), Wrap(bw - b, bw)));
    if val then BitOr(v, one) else BitAnd(v, mask)
  }

  /** `load_bv`; a vector folded to all ones is not looked at. */
  function LoadBit(v: Bits, bid: nat, allOnes: bool): bool
    requires v != []
  {
    allOnes || Lshr(v, Wrap(bid, |v|))[0]
  }

  lemma LoadBitIs(v: Bits, bid: nat, allOnes: bool)
    requires bid < |v| && (allOnes ==> v == Ones(|v|))
    ensures LoadBit(v, bid, allOnes) == v[bid]
  {
  }

  /** What storing the bit of block `bid` should do. */
  function BitSet(v: Bits, bid: nat, val: bool): Bits {
    if bid < |v| then v[bid := val] else v
  }

  /** Storing changes the block's own bit and no other, at every width. */
  lemma StoreBitIs(v: Bits, bid: nat, val: bool)
    requires bid < |v|
    ensures StoreBit(v, bid, val) == v[bid := val]
  {
    var bw := |v|;
    forall i | 0 <= i < bw
      ensures StoreBit(v, bid, val)[i] == v[bid := val][i]
    {
    }
  }

  /** For a block id outside the vector that fits its width a set does nothing, but
      a clear wipes every bit, unless the id is the width or the largest number. */
  lemma StoreBitExact(v: Bits, bid: nat, val: bool)
    requires bid < Pow2(|v|)
    ensures StoreBit(v, bid, val) == BitSet(v, bid, val) <==> bid <= |v| || bid + 1 == Pow2(|v|) || val || true !in v
  {
    var bw := |v|;
    if bid < bw {
      StoreBitIs(v, bid, val);
    } else if val || bid == bw || bid + 1 == Pow2(bw) {
      FarStore(v, bid, val);
      SameBits(StoreBit(v, bid, val), v);
    } else {
      FarClear(v, bid);
      NoBits(StoreBit(v, bid, val), v);
    }
  }

  lemma SameBits(r: Bits, v: Bits)
    requires |r| == |v| && forall i :: 0 <= i < |v| ==> r[i] == v[i]
    ensures r == v
  {
  }

  lemma NoBits(r: Bits, v: Bits)
    requires |r| == |v| && forall i :: 0 <= i < |v| ==> r[i] == false
    ensures r == v <==> true !in v
  {
    if true in v {
      var i :| 0 <= i < |v| && v[i];
      assert r[i] != v[i];
    } else {
      SameBits(r, v);
    }
  }

  lemma FarStore(v: Bits, bid: nat, val: bool)
    requires |v| <= bid < Pow2(|v|) && (val || bid == |v| || bid + 1 == Pow2(|v|))
    ensures forall i :: 0 <= i < |v| ==> StoreBit(v, bid, val)[i] == v[i]
  {
  }

  lemma FarClear(v: Bits, bid: nat)
    requires |v| < bid && bid + 1 < Pow2(|v|)
    ensures forall i :: 0 <= i < |v| ==> StoreBit(v, bid, false)[i] == false
  {
  }

  // ---------------------------------------------------------------------
  // Address ranges
  // ---------------------------------------------------------------------

  /** A block's address within its area, its size, the logarithm of its alignment,
      and whether its size is a literal. */
  datatype Block = Block(addr: nat, size: nat, align: nat, sizeKnown: bool)

  /** The ranges do not overlap. */
  predicate Apart(b: Block, c: Block) {
    b.addr + b.size <= c.addr || c.addr + c.size <= b.addr
  }

  /** `align_ge_size` */
  predicate AlignGeSize(b: Block, alignKnown: bool) {
    alignKnown && b.sizeKnown && Pow2(b.align) >= b.size
  }

  /** `disjoint`: the equal-alignment shortcut compares only the start addresses.
      Sums are computed at `bits` bits; `known` says that the alignments are literals. */
  predicate Disjoint(b: Block, c: Block, bits: nat, base: nat, known: bool) {
    if known && b.align == c.align && AlignGeSize(b, known) && AlignGeSize(c, known) then
      base + b.addr != base + c.addr
    else
      || base + b.addr >= Wrap(base + c.addr + c.size, bits)
      || base + c.addr >= Wrap(base + b.addr + b.size, bits)
  }

  predicate Aligned(b: Block) {
    b.addr % Pow2(b.align) == 0
  }

  /** Two different multiples of `m` are at least `m` apart. */
  lemma MultiplesApart(x: nat, y: nat, m: nat)
    requires m > 0 && x % m == 0 && y % m == 0 && x < y
    ensures x + m <= y
  {
    var i, j := x / m, y / m;
    assert x == i * m && y == j * m;
    assert (j - i) * m == y - x;
    if j - i < 1 {
      if i - j >= 1 { AtLeastOnce(i - j, m); }
    } else {
      AtLeastOnce(j - i, m);
    }
  }

  /** Both blocks fit, by literals, between two consecutive addresses of one alignment. */
  ghost predicate SameSlots(b: Block, c: Block, known: bool) {
    known && b.align == c.align && b.sizeKnown && c.sizeKnown && b.size <= Pow2(b.align) && c.size <= Pow2(c.align)
  }

  /** For aligned blocks that do not wrap, both forms of the check mean the same. */
  lemma DisjointIsApart(b: Block, c: Block, bits: nat, base: nat, known: bool)
    requires Aligned(b) && Aligned(c) && base + b.addr + b.size < Pow2(bits) && base + c.addr + c.size < Pow2(bits)
    ensures Disjoint(b, c, bits, base, known) ==> Apart(b, c)
    ensures b.size > 0 && c.size > 0 ==> (Disjoint(b, c, bits, base, known) <==> Apart(b, c))
    ensures Disjoint(b, c, bits, base, known) <==>
      && (b.addr + b.size <= c.addr || c.addr + c.size <= b.addr)
      && !(b.addr == c.addr && SameSlots(b, c, known))
  {
    if known && b.align == c.align && AlignGeSize(b, known) && AlignGeSize(c, known) {
      if b.addr < c.addr { MultiplesApart(b.addr, c.addr, Pow2(b.align)); }
      if c.addr < b.addr { MultiplesApart(c.addr, b.addr, Pow2(b.align)); }
    }
  }

  // ---------------------------------------------------------------------
  // The memory's local blocks
  // ---------------------------------------------------------------------

  /** Where addresses live: their bits in the local area, and whether one more bit
      tells that area from the other one. */
  datatype Area = Area(bits: nat, hasLocalBit: bool) {
    function AddressBits(): nat { bits + if hasLocalBit then 1 else 0 }
    function Base(): nat { if hasLocalBit then Pow2(bits) else 0 }

    predicate Placed(b: Block) {
      Aligned(b) && b.addr + b.size < Pow2(bits) && (!hasLocalBit && b.size > 0 ==> b.addr != 0)
    }
  }

  /** How the test treats a block that runs over the end of the local area: where one more
      bit tells that area from the other one its end counts as below all local
      addresses, and otherwise as that much past address 0. */
  lemma WrappedEnd(area: Area, addr: nat, start: nat, size: nat)
    requires addr < Pow2(area.bits) && start < Pow2(area.bits) && size < Pow2(area.bits)
    ensures area.Base() + addr >= Wrap(area.Base() + start + size, area.AddressBits()) <==>
      if start + size < Pow2(area.bits) then addr >= start + size
      else area.hasLocalBit || addr >= start + size - Pow2(area.bits)
  {
    WrapOnce(area.Base() + start + size, area.AddressBits());
  }

  lemma WrapOnce(x: nat, bw: nat)
    requires x < 2 * Pow2(bw)
    ensures Wrap(x, bw) == if x < Pow2(bw) then x else x - Pow2(bw)
  {
    if x >= Pow2(bw) { ModIs(x, Pow2(bw), 1); }
  }

  /** The blocks in `taken` are in place. */
  ghost predicate InPlace(area: Area, blocks: seq<Block>, taken: set<nat>) {
    forall i :: i in taken ==> i < |blocks| && area.Placed(blocks[i])
  }

  /** Live blocks are in place and apart from each other. */
  ghost predicate Safe(area: Area, blocks: seq<Block>, live: Bits) {
    && |blocks| <= |live|
    && (forall i: nat :: i < |live| && live[i] ==> i < |blocks| && area.Placed(blocks[i]))
    && (forall i: nat, j: nat :: i < j < |blocks| && live[i] && live[j] ==> Apart(blocks[i], blocks[j]))
  }

  lemma AddBlock(area: Area, blocks: seq<Block>, live: Bits, b: Block, given: bool)
    requires Safe(area, blocks, live) && |blocks| < |live|
    requires given ==> area.Placed(b)
    requires given ==> forall i: nat :: i < |blocks| && live[i] ==> Disjoint(b, blocks[i], area.AddressBits(), area.Base(), true)
    ensures Safe(area, blocks + [b], live[|blocks| := given])
  {
    if given {
      forall i: nat | i < |blocks| && live[i]
        ensures Apart(b, blocks[i])
      {
        DisjointIsApart(b, blocks[i], area.AddressBits(), area.Base(), true);
      }
    }
  }

  lemma AddInPlace(area: Area, blocks: seq<Block>, taken: set<nat>, b: Block, given: bool)
    requires InPlace(area, blocks, taken) && (given ==> area.Placed(b))
    ensures InPlace(area, blocks + [b], if given then taken + {|blocks|} else taken)
  {
  }

  lemma WakeBlock(area: Area, blocks: seq<Block>, live: Bits, bid: nat, known: bool)
    requires Safe(area, blocks, live) && bid < |blocks| && area.Placed(blocks[bid])
    requires live[bid] || forall i: nat :: i < |blocks| && live[i] ==> Disjoint(blocks[bid], blocks[i], area.AddressBits(), area.Base(), known)
    ensures Safe(area, blocks, live[bid := true])
  {
    if !live[bid] {
      forall i: nat | i < |blocks| && live[i]
        ensures Apart(blocks[bid], blocks[i])
      {
        DisjointIsApart(blocks[bid], blocks[i], area.AddressBits(), area.Base(), known);
      }
    } else {
      assert live[bid := true] == live;
    }
  }

  /** The recorded condition that a block at `b.addr` must not overlap any live block. */
  ghost predicate AwayFromLive(area: Area, blocks: seq<Block>, live: Bits, b: Block, known: bool) {
    forall i: nat :: i < |blocks| && i < |live| && live[i] ==> Disjoint(b, blocks[i], area.AddressBits(), area.Base(), known)
  }

  /** No live block has an address in common with `b`, nor, where both fit between
      consecutive aligned addresses, its address. */
  ghost predicate ApartFromLive(blocks: seq<Block>, live: Bits, b: Block, known: bool) {
    forall i: nat :: i < |blocks| && i < |live| && live[i] ==>
      && (b.addr + b.size <= blocks[i].addr || blocks[i].addr + blocks[i].size <= b.addr)
      && !(b.addr == blocks[i].addr && SameSlots(b, blocks[i], known))
  }

  lemma AwayIsApart(area: Area, blocks: seq<Block>, live: Bits, b: Block, known: bool)
    requires Safe(area, blocks, live) && area.Placed(b)
    ensures AwayFromLive(area, blocks, live, b, known) <==> ApartFromLive(blocks, live, b, known)
  {
    forall i: nat | i < |blocks| && live[i]
      ensures Disjoint(b, blocks[i], area.AddressBits(), area.Base(), known) <==>
        && (b.addr + b.size <= blocks[i].addr || blocks[i].addr + blocks[i].size <= b.addr)
        && !(b.addr == blocks[i].addr && SameSlots(b, blocks[i], known))
    {
      DisjointIsApart(b, blocks[i], area.AddressBits(), area.Base(), known);
    }
  }

  /** The recorded condition that a block does not wrap. */
  predicate NoWrap(area: Area, addrVar: nat, size: nat, sizeKnown: bool, align: nat)
    requires align <= area.bits
  {
    if sizeKnown && size <= align then addrVar != Pow2(area.bits - align) - 1
    else Address(addrVar, align) + size < Pow2(area.bits)
  }

  /** It holds for every block that ends inside the area but one: a block whose size is a
      literal of at most the alignment exponent must not be at the topmost aligned
      address, although it would end inside the area there. */
  lemma NoWrapIff(area: Area, addrVar: nat, size: nat, sizeKnown: bool, align: nat)
    requires align < area.bits && addrVar < Pow2(area.bits - align)
    ensures NoWrap(area, addrVar, size, sizeKnown, align) <==>
      && addrVar * Pow2(align) + size < Pow2(area.bits)
      && !(sizeKnown && size <= align && addrVar * Pow2(align) == Pow2(area.bits) - Pow2(align))
  {
    AddressOk(addrVar, area.bits, align, size);
    TopAddress(addrVar, area.bits, align);
  }

  /** The block at the topmost aligned address that is left out would fit. */
  lemma TopFits(bits: nat, align: nat, size: nat)
    requires align < bits && size <= align
    ensures Pow2(bits) - Pow2(align) + size < Pow2(bits)
  {
  }

  lemma TopAddress(addrVar: nat, bits: nat, align: nat)
    requires align < bits && addrVar < Pow2(bits - align)
    ensures addrVar * Pow2(align) == Pow2(bits) - Pow2(align) <==> addrVar == Pow2(bits - align) - 1
  {
    Pow2Split(bits - align, align);
    var n, m := Pow2(bits - align), Pow2(align);
    assert (n - 1) * m == n * m - m by { Distribute(n - 1, 0, m); }
    if addrVar != n - 1 { MulFacts(addrVar, n - 1 + 1, m, 0); LessTimes(addrVar, n - 1, m); }
  }

  lemma LessTimes(x: nat, y: nat, m: nat)
    requires x < y && m > 0
    ensures x * m < y * m
  {
    AtLeastOnce(y - x, m);
    assert (y - x) * m == y * m - x * m;
  }

  /** The conditions recorded for a block that is allocated, in terms of where it is. */
  lemma NewBlockIff(area: Area, blocks: seq<Block>, live: Bits, size: nat, sizeKnown: bool, align: nat, addrVar: nat)
    requires Safe(area, blocks, live) && align < area.bits && addrVar < Pow2(area.bits - align)
    ensures
      var b := Block(addrVar * Pow2(align), size, align, sizeKnown);
      && (b.addr == 0 <==> addrVar == 0)
      && ((area.hasLocalBit || addrVar != 0) && NoWrap(area, addrVar, size, sizeKnown, align) && AwayFromLive(area, blocks, live, b, true) <==>
          && (area.hasLocalBit || b.addr != 0) && b.addr + size < Pow2(area.bits)
          && !(sizeKnown && size <= align && b.addr == Pow2(area.bits) - Pow2(align))
          && ApartFromLive(blocks, live, b, true))
  {
    AddressOk(addrVar, area.bits, align, size);
    NoWrapIff(area, addrVar, size, sizeKnown, align);
    if (area.hasLocalBit || addrVar != 0) && NoWrap(area, addrVar, size, sizeKnown, align) {
      PlacedIf(area, addrVar, size, sizeKnown, align);
      AwayIsApart(area, blocks, live, Block(Address(addrVar, align), size, align, sizeKnown), true);
    }
  }

  class LocalBlocks {
    const area: Area
    const numLocals: nat
    /** Blocks by id. */
    var blocks: seq<Block>
    var liveness: Bits
    /** All preconditions and well-definedness conditions recorded so far hold. */
    var holds: bool
    /** The blocks whose allocation took place. */
    ghost var taken: set<nat>
    /** Every block whose lifetime was started is in place. */
    ghost var regular: bool

    /** Under the recorded conditions blocks that were allocated are in place, and, if
        all whose lifetime was started are, live blocks are apart from each other. */
    ghost predicate Valid()
      reads this
    {
      && |liveness| == numLocals && |blocks| <= numLocals && area.bits > 0
      && (holds ==> InPlace(area, blocks, taken) && (regular ==> Safe(area, blocks, liveness)))
    }

    constructor (area: Area, numLocals: nat)
      requires area.bits > 0
      ensures Valid() && blocks == [] && holds && regular && this.area == area && this.numLocals == numLocals
      ensures liveness == seq(numLocals, _ => false)
    {
      this.area, this.numLocals := area, numLocals;
      blocks, liveness, holds, taken, regular := [], seq(numLocals, _ => false), true, {}, true;
    }

    /** `disjoint_local_blocks`: apart from every block that is alive. */
    method DisjointFromLive(b: Block, known: bool) returns (disj: bool)
      requires |liveness| == numLocals && |blocks| <= numLocals
      ensures disj <==> AwayFromLive(area, blocks, liveness, b, known)
    {
      disj := true;
      for i := 0 to |blocks|
        invariant disj <==> forall j: nat :: j < i && liveness[j] ==> Disjoint(b, blocks[j], area.AddressBits(), area.Base(), known)
      {
        LoadBitIs(liveness, i, false);
        if LoadBit(liveness, i, false) {
          disj := disj && Disjoint(b, blocks[i], area.AddressBits(), area.Base(), known);
        }
      }
    }

    /** `store_bv` on the liveness of local blocks. */
    method StoreLiveness(bid: nat, val: bool)
      requires bid < |liveness|
      modifies this`liveness
      ensures liveness == old(liveness)[bid := val]
    {
      StoreBitIs(liveness, bid, val);
      liveness := StoreBit(liveness, bid, val);
    }

    /** `mkLocalDisjAddrAxioms`: the conditions recorded for a new block, whose address
        is `addrVar` followed by zeros, for the case that the allocation takes place. */
    method RecordAddress(size: nat, sizeKnown: bool, align: nat, addrVar: nat, given: bool) returns (b: Block)
      requires |liveness| == numLocals && |blocks| <= numLocals
      requires align < area.bits && size < Pow2(area.bits) && addrVar < Pow2(area.bits - align)
      modifies this`holds
      ensures b == Block(Address(addrVar, align), size, align, sizeKnown)
      ensures holds && given ==> area.Placed(b)
      ensures holds <==>
        && old(holds) && (area.hasLocalBit || addrVar != 0)
        && (given ==> NoWrap(area, addrVar, size, sizeKnown, align))
        && (given ==> AwayFromLive(area, blocks, liveness, b, true))
    {
      b := Block(Address(addrVar, align), size, align, sizeKnown);
      if !area.hasLocalBit { holds := holds && addrVar != 0; }
      holds := holds && (given ==> NoWrap(area, addrVar, size, sizeKnown, align));
      if holds && given { PlacedIf(area, addrVar, size, sizeKnown, align); }
      var disj := DisjointFromLive(b, true);
      holds := holds && (given ==> disj);
    }

    /** `alloc` of a local block. */
    method Alloc(size: nat, sizeKnown: bool, align: nat, addrVar: nat, given: bool) returns (bid: nat)
      requires Valid() && |blocks| < numLocals && align < area.bits && size < Pow2(area.bits)
      requires addrVar < Pow2(area.bits - align)
      modifies this
      ensures Valid() && bid == |old(blocks)| && |blocks| == bid + 1 && blocks[..bid] == old(blocks)
      ensures blocks[bid] == Block(addrVar * Pow2(align), size, align, sizeKnown)
      ensures liveness == old(liveness)[bid := given]
      ensures taken == (if given then old(taken) + {bid} else old(taken)) && regular == old(regular)
      ensures holds <==>
        && old(holds) && (area.hasLocalBit || addrVar != 0)
        && (given ==> NoWrap(area, addrVar, size, sizeKnown, align))
        && (given ==> AwayFromLive(area, old(blocks), old(liveness), blocks[bid], true))
      ensures old(holds) && !given ==> (holds <==> area.hasLocalBit || blocks[bid].addr != 0)
      ensures old(holds) && given && old(regular) ==> (holds <==>
        && (area.hasLocalBit || blocks[bid].addr != 0)
        && blocks[bid].addr + size < Pow2(area.bits)
        && !(sizeKnown && size <= align && blocks[bid].addr == Pow2(area.bits) - Pow2(align))
        && ApartFromLive(old(blocks), old(liveness), blocks[bid], true))
    {
      if holds && regular { NewBlockIff(area, blocks, liveness, size, sizeKnown, align, addrVar); }
      AddressOk(addrVar, area.bits, align, size);
      var b := RecordAddress(size, sizeKnown, align, addrVar, given);
      bid := |blocks|;
      if holds { AddInPlace(area, blocks, taken, b, given); }
      if holds && regular { AddBlock(area, blocks, liveness, b, given); }
      if given { taken := taken + {bid}; }
      blocks := blocks + [b];
      StoreLiveness(bid, given);
    }

    /** `startLifetime`; `known` says that the pointer's alignment is a literal. A block
        whose allocation took place is in place; of any other one, as a heap block
        that could not be allocated, the recorded conditions say nothing. */
    method StartLifetime(bid: nat, isLocal: bool, known: bool)
      requires Valid() && bid < numLocals && (isLocal ==> bid < |blocks|)
      modifies this
      ensures Valid() && blocks == old(blocks) && taken == old(taken) && liveness == old(liveness)[bid := true]
      ensures regular <==> old(regular) && (isLocal ==> area.Placed(blocks[bid]))
      ensures holds && bid in taken ==> area.Placed(blocks[bid])
      ensures holds <==>
        && old(holds) && isLocal
        && (old(liveness)[bid] || AwayFromLive(area, blocks, old(liveness), blocks[bid], known))
      ensures old(holds) && isLocal && regular ==>
        (holds <==> old(liveness)[bid] || ApartFromLive(blocks, old(liveness), blocks[bid], known))
    {
      holds := holds && isLocal;
      if isLocal {
        LoadBitIs(liveness, bid, false);
        var alive := LoadBit(liveness, bid, false);
        var disj := DisjointFromLive(blocks[bid], known);
        if holds && regular && area.Placed(blocks[bid]) { AwayIsApart(area, blocks, liveness, blocks[bid], known); }
        holds := holds && (alive || disj);
        regular := regular && area.Placed(blocks[bid]);
        if holds && regular { WakeBlock(area, blocks, liveness, bid, known); }
      }
      StoreLiveness(bid, true);
    }

    /** `free`: defined for null, and at the start of a heap block that is alive;
        `nonLocalAlive` is what the other liveness vector says. */
    method Free(bid: nat, isLocal: bool, isNull: bool, unconstrained: bool, offset: int, isHeap: bool, nonLocalAlive: bool)
      requires Valid() && bid < numLocals
      modifies this
      ensures Valid() && blocks == old(blocks) && taken == old(taken) && regular == old(regular)
      ensures liveness == if isLocal && !isNull then old(liveness)[bid := false] else old(liveness)
      ensures holds <==>
        && old(holds)
        && (unconstrained || isNull
            || (offset == 0 && isHeap && if isLocal then old(liveness)[bid] else nonLocalAlive))
    {
      LoadBitIs(liveness, bid, false);
      var alive := if isLocal then LoadBit(liveness, bid, false) else nonLocalAlive;
      if !unconstrained { holds := holds && (isNull || (offset == 0 && alive && isHeap)); }
      if !isNull && isLocal {
        StoreLiveness(bid, false);
      }
    }

    /** No address belongs to two live blocks, and each that belongs to one is in the
        local area and not null. */
    lemma OneOwner(i: nat, j: nat, addr: nat)
      requires Valid() && holds && regular && i < |blocks| && j < |blocks| && liveness[i] && liveness[j]
      requires blocks[i].addr <= addr < blocks[i].addr + blocks[i].size
      requires blocks[j].addr <= addr < blocks[j].addr + blocks[j].size
      ensures i == j && addr < Pow2(area.bits) && (area.hasLocalBit || addr > 0)
      ensures blocks[i].addr % Pow2(blocks[i].align) == 0
    {
    }
  }

  /** A block that was not allocated wraps around the local area. Starting its
      lifetime is allowed, although a live block has addresses in common with it. */
  method WrappedBlockWoken() returns (m: LocalBlocks)
    ensures fresh(m) && m.holds && m.liveness == [true, true]
    ensures m.blocks == [Block(12, 8, 0, false), Block(13, 2, 0, false)] && !Apart(m.blocks[0], m.blocks[1])
  {
    assert Pow2(4) == 16 && Pow2(5) == 32 && Pow2(0) == 1;
    m := new LocalBlocks(Area(4, true), 2);
    var i := m.Alloc(8, false, 0, 12, false);
    assert m.holds && m.liveness == [false, false] && m.blocks == [Block(12, 8, 0, false)];
    var j := m.Alloc(2, false, 0, 13, true);
    assert m.holds && m.liveness == [false, true] && m.blocks == [Block(12, 8, 0, false), Block(13, 2, 0, false)];
    m.StartLifetime(0, true, true);
  }

  /** The address variable followed by `align` zeros. */
  function Address(addrVar: nat, align: nat): nat { addrVar * Pow2(align) }

  lemma AddressOk(addrVar: nat, bits: nat, align: nat, size: nat)
    requires align < bits && addrVar < Pow2(bits - align)
    ensures Address(addrVar, align) % Pow2(align) == 0
    ensures size <= align && addrVar != Pow2(bits - align) - 1 ==> Address(addrVar, align) + size < Pow2(bits)
    ensures addrVar > 0 ==> Address(addrVar, align) > 0
  {
    Pow2Split(bits - align, align);
    MulFacts(addrVar, Pow2(bits - align), Pow2(align), size);
  }

  /** The recorded conditions put a new block in place. */
  lemma PlacedIf(area: Area, addrVar: nat, size: nat, sizeKnown: bool, align: nat)
    requires align < area.bits && addrVar < Pow2(area.bits - align)
    requires (area.hasLocalBit || addrVar != 0) && NoWrap(area, addrVar, size, sizeKnown, align)
    ensures area.Placed(Block(Address(addrVar, align), size, align, sizeKnown))
  {
    AddressOk(addrVar, area.bits, align, size);
  }

  lemma MulFacts(x: nat, a: nat, m: nat, size: nat)
    requires x < a && m > 0
    ensures (x * m) % m == 0
    ensures x < a - 1 && size < m ==> x * m + size < a * m
    ensures x > 0 ==> x * m > 0
  {
    ModIs(x * m, m, x);
    if x > 0 { AtLeastOnce(x, m); }
    if x < a - 1 {
      AtLeastOnce(a - 1 - x, m);
      Distribute(x, a - 1 - x, m);
    }
  }

  lemma Distribute(x: nat, d: nat, m: nat)
    ensures (x + 1 + d) * m == x * m + m + d * m
  {
  }
}
