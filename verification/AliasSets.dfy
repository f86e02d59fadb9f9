/** `Memory::AliasSet`: the blocks an access may touch. */
module AliasSets {
  function Count(v: seq<bool>): (n: nat)
    ensures n <= |v|
  {
    if v == [] then 0 else (if v[0] then 1 else 0) + Count(v[1..])
  }

  lemma {:induction false} CountPositive(v: seq<bool>, i: nat)
    requires i < |v| && v[i]
    ensures Count(v) > 0
  {
    if i > 0 { CountPositive(v[1..], i - 1); }
  }

  /** With one bit set, any two set bits are the same one. */
  lemma {:induction false} CountOne(v: seq<bool>, i: nat, j: nat)
    requires Count(v) == 1 && i < |v| && j < |v| && v[i] && v[j]
    ensures i == j
  {
    if i > 0 && j > 0 {
      if v[0] { CountPositive(v[1..], i - 1); }
      CountOne(v[1..], i - 1, j - 1);
    } else if i > 0 {
      CountPositive(v[1..], i - 1);
    } else if j > 0 {
      CountPositive(v[1..], j - 1);
    }
  }

  /** The number of bits that are set is the number of blocks in the set. */
  lemma CountIs(v: seq<bool>)
    ensures Count(v) == |BlocksOf(v)|
  {
    assert v[0..] == v;
    CountFrom(v, 0);
    assert BlocksFrom(v, 0) == BlocksOf(v);
  }

  ghost function BlocksFrom(v: seq<bool>, k: nat): set<nat> {
    set b: nat | k <= b < |v| && v[b]
  }

  lemma {:induction false} CountFrom(v: seq<bool>, k: nat)
    requires k <= |v|
    ensures Count(v[k..]) == |BlocksFrom(v, k)|
    decreases |v| - k
  {
    if k < |v| {
      CountFrom(v, k + 1);
      assert v[k..][1..] == v[k + 1..];
      assert BlocksFrom(v, k) == BlocksFrom(v, k + 1) + if v[k] then {k} else {};
    } else {
      assert BlocksFrom(v, k) == {};
    }
  }

  /** The set bits form a prefix. */
  ghost predicate NoGaps(v: seq<bool>) {
    forall i, j :: 0 <= i < j < |v| && v[j] ==> v[i]
  }

  /** What the symbolic query answers for block `bid`. */
  ghost predicate Answer(v: seq<bool>, bid: nat)
    requires bid < |v|
  {
    if v[0] then forall i :: 0 <= i <= bid ==> v[i] else v[bid]
  }

  /** The query never claims a block outside the set, and it finds all blocks of
      the set exactly if block 0 is not in it or it has no gap. */
  lemma AnswerExact(v: seq<bool>)
    requires v != []
    ensures forall bid: nat :: bid < |v| && Answer(v, bid) ==> v[bid]
    ensures (forall bid: nat :: bid < |v| ==> (Answer(v, bid) <==> v[bid])) <==> !v[0] || NoGaps(v)
  {
    if v[0] && !NoGaps(v) {
      var i, j: nat :| 0 <= i < j < |v| && v[j] && !v[i];
      assert !Answer(v, j);
    }
  }

  ghost function BlocksOf(v: seq<bool>): set<nat> {
    set b: nat | b < |v| && v[b]
  }

  class AliasSet {
    var local: seq<bool>
    var nonLocal: seq<bool>

    constructor (locals: nat, nonLocals: nat)
      ensures local == seq(locals, _ => false) && nonLocal == seq(nonLocals, _ => false)
    {
      local := seq(locals, _ => false);
      nonLocal := seq(nonLocals, _ => false);
    }

    function Bits(isLocal: bool): seq<bool>
      reads this
    {
      if isLocal then local else nonLocal
    }

    /** `isFullUpToAlias` as written: its second loop looks at the bit where the
        first loop stopped, so it never finds a later one. */
    method IsFullUpToAlias(isLocal: bool) returns (upTo: int)
      ensures -1 <= upTo < |Bits(isLocal)|
      ensures forall i :: 0 <= i <= upTo ==> Bits(isLocal)[i]
      ensures upTo + 1 < |Bits(isLocal)| ==> !Bits(isLocal)[upTo + 1]
    {
      var v := Bits(isLocal);
      var i := 0;
      while i != |v|
        invariant i <= |v| && forall j :: 0 <= j < i ==> v[j]
        decreases |v| - i
      {
        if !v[i] { break; }
        i := i + 1;
      }
      for i2 := i to |v|
        invariant i < |v| ==> !v[i]
      {
        if v[i] { return -1; }
      }
      upTo := i - 1;
    }

    /** `mayAlias` on a symbolic block id. */
    method MayAlias(isLocal: bool, bid: nat) returns (r: bool)
      requires bid < |Bits(isLocal)|
      ensures r <==> Answer(Bits(isLocal), bid)
    {
      var v := Bits(isLocal);
      var upTo := IsFullUpToAlias(isLocal);
      if upTo >= 0 {
        return bid <= upTo;
      }
      r := false;
      for i := 0 to |v|
        invariant r <==> bid < i && v[bid]
      {
        if v[i] { r := r || bid == i; }
      }
    }

    method SetMayAlias(isLocal: bool, bid: nat)
      requires bid < |Bits(isLocal)|
      modifies this
      ensures Bits(isLocal) == old(Bits(isLocal))[bid := true] && Bits(!isLocal) == old(Bits(!isLocal))
    {
      if isLocal { local := local[bid := true]; } else { nonLocal := nonLocal[bid := true]; }
    }

    method SetMayAliasUpTo(isLocal: bool, limit: nat)
      requires limit < |Bits(isLocal)|
      modifies this
      ensures |Bits(isLocal)| == |old(Bits(isLocal))| && Bits(!isLocal) == old(Bits(!isLocal))
      ensures forall i :: 0 <= i < |Bits(isLocal)| ==> Bits(isLocal)[i] == (old(Bits(isLocal))[i] || i <= limit)
    {
      for i := 0 to limit + 1
        invariant |Bits(isLocal)| == |old(Bits(isLocal))| && Bits(!isLocal) == old(Bits(!isLocal))
        invariant forall j :: 0 <= j < |Bits(isLocal)| ==> Bits(isLocal)[j] == (old(Bits(isLocal))[j] || j < i)
      {
        SetMayAlias(isLocal, i);
      }
    }

    /** The blocks of one kind the access may touch. */
    ghost function May(isLocal: bool): set<nat>
      reads this
    {
      BlocksOf(Bits(isLocal))
    }

    /** A block of both sets survives. A block the other set has no bit for stays,
        so the result is the intersection exactly if there is none. */
    method IntersectWith(other: AliasSet)
      modifies this
      ensures forall l :: |Bits(l)| == |old(Bits(l))|
      ensures forall l, b: nat :: b in May(l) <==> b in old(May(l)) && Admits(old(other.Bits(l)), b)
      ensures forall l :: May(l) == old(May(l)) * old(other.May(l)) <==>
        forall b :: b in old(May(l)) ==> b < |old(other.Bits(l))|
    {
      var otherLocal, otherNonLocal := other.local, other.nonLocal;
      local := IntersectBits(local, otherLocal);
      nonLocal := IntersectBits(nonLocal, otherNonLocal);
    }

    /** No block of this set is lost. A block of the other set this set has no bit
        for is lost, so the result is the union exactly if there is none. */
    method UnionWith(other: AliasSet)
      modifies this
      ensures forall l :: |Bits(l)| == |old(Bits(l))|
      ensures forall l, b: nat :: b in May(l) <==>
        b in old(May(l)) || (b in old(other.May(l)) && b < |Bits(l)|)
      ensures forall l :: May(l) == old(May(l)) + old(other.May(l)) <==>
        forall b :: b in old(other.May(l)) ==> b < |Bits(l)|
    {
      var otherLocal, otherNonLocal := other.local, other.nonLocal;
      local := UnionBits(local, otherLocal);
      nonLocal := UnionBits(nonLocal, otherNonLocal);
      UnionMay(old(local), otherLocal, local);
      UnionMay(old(nonLocal), otherNonLocal, nonLocal);
    }

    /** `check_alias` on every block that is not in the set yet. */
    method SetCandidates(isLocal: bool, candidates: set<nat>)
      modifies this
      ensures forall l :: |Bits(l)| == |old(Bits(l))|
      ensures Bits(!isLocal) == old(Bits(!isLocal))
      ensures forall b: nat :: b in May(isLocal) <==>
        b in old(May(isLocal)) || (b in candidates && b < |Bits(isLocal)|)
    {
      for i := 0 to |Bits(isLocal)|
        invariant forall l :: |Bits(l)| == |old(Bits(l))|
        invariant Bits(!isLocal) == old(Bits(!isLocal))
        invariant forall b: nat :: b < |Bits(isLocal)| ==>
          (Bits(isLocal)[b] <==> old(Bits(isLocal))[b] || (b in candidates && b < i))
      {
        if i in candidates { SetMayAlias(isLocal, i); }
      }
    }

    constructor Copy(other: AliasSet)
      ensures local == other.local && nonLocal == other.nonLocal
    {
      local, nonLocal := other.local, other.nonLocal;
    }
  }

  /** A set without a bit for the block does not exclude it. */
  predicate Admits(v: seq<bool>, b: nat) { b < |v| ==> v[b] }

  method IntersectBits(a: seq<bool>, b: seq<bool>) returns (r: seq<bool>)
    ensures |r| == |a| && forall i :: 0 <= i < |a| ==> (r[i] <==> a[i] && (i < |b| ==> b[i]))
  {
    r := a;
    var i := 0;
    while i != |a| && i != |b|
      invariant i <= |a| && i <= |b| && |r| == |a|
      invariant forall j :: 0 <= j < |a| ==> (r[j] <==> a[j] && (j < i ==> b[j]))
      decreases |a| - i
    {
      r := r[i := r[i] && b[i]];
      i := i + 1;
    }
  }

  lemma UnionMay(a: seq<bool>, b: seq<bool>, r: seq<bool>)
    requires |r| == |a| && forall i :: 0 <= i < |a| ==> (r[i] <==> a[i] || (i < |b| && b[i]))
    ensures forall x: nat :: x in BlocksOf(r) <==> x in BlocksOf(a) || (x in BlocksOf(b) && x < |a|)
  {
    forall x: nat
      ensures x in BlocksOf(r) <==> x in BlocksOf(a) || (x in BlocksOf(b) && x < |a|)
    {
      if x < |a| {
        assert r[x] <==> a[x] || (x < |b| && b[x]);
      }
    }
  }

  method UnionBits(a: seq<bool>, b: seq<bool>) returns (r: seq<bool>)
    ensures |r| == |a| && forall i :: 0 <= i < |a| ==> (r[i] <==> a[i] || (i < |b| && b[i]))
  {
    r := a;
    var i := 0;
    while i != |a| && i != |b|
      invariant i <= |a| && i <= |b| && |r| == |a|
      invariant forall j :: 0 <= j < |a| ==> (r[j] <==> a[j] || (j < i && b[j]))
      decreases |a| - i
    {
      r := r[i := r[i] || b[i]];
      i := i + 1;
    }
  }

  /** A leaf pointer of an access: whether a flag rules the access out, the blocks
      the checks admit, and what is already known of its block id. */
  datatype Leaf = Leaf(skipped: bool, local: set<nat>, nonLocal: set<nat>, known: AliasSet?) {
    function Candidates(isLocal: bool): set<nat> { if isLocal then local else nonLocal }

    /** The leaf may point to block `b`. */
    ghost predicate Reaches(isLocal: bool, b: nat)
      reads known
    {
      !skipped && b in Candidates(isLocal) && (known != null ==> Admits(known.Bits(isLocal), b))
    }
  }

  /** The blocks one leaf may point to join the set. */
  method AddLeaf(r: AliasSet, p: Leaf)
    requires r != p.known
    modifies r
    ensures forall l :: |r.Bits(l)| == |old(r.Bits(l))|
    ensures forall l, b: nat :: b in r.May(l) <==>
      b in old(r.May(l)) || (b < |r.Bits(l)| && p.Reaches(l, b))
  {
    if p.skipped { return; }
    var leaf := new AliasSet.Copy(r);
    leaf.SetCandidates(true, p.local);
    leaf.SetCandidates(false, p.nonLocal);
    if p.known != null {
      leaf.IntersectWith(p.known);
    }
    r.UnionWith(leaf);
  }

  /** `computeAliasing`: the result has exactly the blocks some leaf may point to
      and what is known of the whole pointer admits. That a leaf starts from the
      blocks of the leaves before it, and that these are intersected with what is
      known of it, adds nothing and loses nothing. */
  method ComputeAliasing(locals: nat, nonLocals: nat, leaves: seq<Leaf>, known: AliasSet?) returns (r: AliasSet)
    ensures fresh(r) && |r.Bits(true)| == locals && |r.Bits(false)| == nonLocals
    ensures forall l, b: nat :: b in r.May(l) <==>
      && b < |r.Bits(l)| && (known != null ==> Admits(known.Bits(l), b))
      && exists k :: 0 <= k < |leaves| && leaves[k].Reaches(l, b)
  {
    r := new AliasSet(locals, nonLocals);
    for k := 0 to |leaves|
      invariant fresh(r) && |r.Bits(true)| == locals && |r.Bits(false)| == nonLocals
      invariant forall l, b: nat :: b in r.May(l) <==>
        b < |r.Bits(l)| && exists j :: 0 <= j < k && leaves[j].Reaches(l, b)
    {
      AddLeaf(r, leaves[k]);
    }
    if known != null {
      r.IntersectWith(known);
    }
  }

  /** A set with a gap after block 0 for which the symbolic query loses a block. */
  method GapLosesBlock() returns (a: AliasSet, found: bool)
    ensures a.Bits(false) == [true, false, true] && 2 in a.May(false)
    ensures !found && !Answer(a.Bits(false), 2)
  {
    a := new AliasSet(0, 3);
    a.SetMayAlias(false, 0);
    a.SetMayAlias(false, 2);
    assert a.Bits(false) == [true, false, true];
    found := a.MayAlias(false, 2);
    assert !a.Bits(false)[1];
  }
}
