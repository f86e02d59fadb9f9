/** Renaming of operands when a loop is cloned (`cloneBB` and `rauw_op`): which
    copy of its operand an instruction of copy `j` names, and which one it should. */
module SsaRename {
  /** An instruction that defines the value `def`. */
  datatype Instr = Instr(phi: bool, def: nat, ops: seq<nat>)

  /** The blocks of a loop in topological order, the header first. */
  type Body = seq<seq<Instr>>

  /** Position of an instruction: block and index in the block. */
  datatype Pos = Pos(b: nat, q: nat) {
    predicate Before(p: Pos) {
      b < p.b || (b == p.b && q < p.q)
    }
  }

  predicate InBody(body: Body, p: Pos) {
    p.b < |body| && p.q < |body[p.b]|
  }

  function At(body: Body, p: Pos): Instr
    requires InBody(body, p)
  {
    body[p.b][p.q]
  }

  ghost predicate SameValue(body: Body, p: Pos, r: Pos) {
    InBody(body, p) && InBody(body, r) && At(body, p).def == At(body, r).def
  }

  ghost predicate PhisFirst(block: seq<Instr>) {
    forall q, r :: 0 <= q < r < |block| && block[r].phi ==> block[q].phi
  }

  /** Every value has one definition, and phis stand first in their block. */
  ghost predicate Ssa(body: Body) {
    && (forall p, r :: SameValue(body, p, r) ==> p == r)
    && (forall b :: 0 <= b < |body| ==> PhisFirst(body[b]))
  }

  ghost predicate DefinedAt(body: Body, v: nat, p: Pos) {
    InBody(body, p) && At(body, p).def == v
  }

  ghost predicate LoopValue(body: Body, v: nat) {
    exists p :: DefinedAt(body, v, p)
  }

  // ---------------------------------------------------------------------
  // Which iteration an operand means
  // ---------------------------------------------------------------------

  /** The definition at `d` is executed before the instruction at `p` reads its
      operands. All phis of a block read on entry to the block. */
  predicate ExecutedBefore(body: Body, d: Pos, p: Pos)
    requires InBody(body, p)
  {
    if At(body, p).phi then d.b < p.b else d.Before(p)
  }

  /** The iteration whose definition of the value defined at `d` is the last one
      when the instruction at `p` reads it in iteration `j`. */
  function ReachIter(body: Body, p: Pos, d: Pos, j: nat): nat
    requires InBody(body, p) && j > 0
  {
    if ExecutedBefore(body, d, p) then j else j - 1
  }

  /** The iteration the renaming picks: a phi that names itself is one behind. */
  function NamedIter(body: Body, p: Pos, d: Pos, j: nat): nat
    requires InBody(body, p) && j > 0
  {
    if At(body, p).phi && d == p && j >= 2 then j - 2 else ReachIter(body, p, d, j)
  }

  // ---------------------------------------------------------------------
  // The value map
  // ---------------------------------------------------------------------

  /** The clones of each value, in the order of the copies 1, 2, ... */
  type VMap = map<nat, seq<nat>>

  /** The name of copy `j` of a value; copy 0 is the value itself. */
  function Name(vm: VMap, v: nat, j: nat): nat {
    if j > 0 && v in vm && j <= |vm[v]| then vm[v][j - 1] else v
  }

  function Size(vm: VMap, v: nat): nat {
    if v in vm then |vm[v]| else 0
  }

  /** Number of clones of the value at `p` when copy `j` has reached `now`. */
  function Clones(p: Pos, now: Pos, j: nat): nat
    requires j > 0
  {
    if p.Before(now) then j else j - 1
  }

  /** The value at `p` has its clones up to `now` in copy `j`. */
  ghost predicate Counted(body: Body, vm: VMap, now: Pos, j: nat, p: Pos)
    requires InBody(body, p) && j > 0
  {
    && (At(body, p).def in vm <==> Clones(p, now, j) > 0)
    && Size(vm, At(body, p).def) == Clones(p, now, j)
  }

  /** The value map while copy `j` is about to clone the instruction at `now`. */
  ghost predicate MapAt(body: Body, vm: VMap, now: Pos, j: nat) {
    && j > 0
    && (forall v :: v in vm ==> LoopValue(body, v))
    && (forall p {:trigger Counted(body, vm, now, j, p)} :: InBody(body, p) ==> Counted(body, vm, now, j, p))
  }

  /** `rauw_op` on one operand. */
  function Renamed(vm: VMap, phis: set<nat>, isPhi: bool, op: nat): nat {
    if op !in vm then op
    else if isPhi && op in phis then
      (if |vm[op]| >= 2 then vm[op][|vm[op]| - 2] else op)
    else if vm[op] == [] then op
    else vm[op][|vm[op]| - 1]
  }

  /** The values of the phis among the first `n` instructions. */
  ghost function PhisUpTo(block: seq<Instr>, n: nat): set<nat>
    requires n <= |block|
  {
    if n == 0 then {}
    else PhisUpTo(block, n - 1) + (if block[n - 1].phi then {block[n - 1].def} else {})
  }

  lemma PhiSeen(block: seq<Instr>, n: nat, v: nat)
    requires n <= |block|
    ensures v in PhisUpTo(block, n) <==> exists q :: 0 <= q < n && block[q].phi && block[q].def == v
  {
    if n > 0 { PhiSeen(block, n - 1, v); }
  }

  lemma RenamedNames(body: Body, vm: VMap, p: Pos, j: nat, phis: set<nat>, op: nat)
    requires Ssa(body) && InBody(body, p) && MapAt(body, vm, p, j) && phis == PhisUpTo(body[p.b], p.q + 1)
    ensures !LoopValue(body, op) ==> Renamed(vm, phis, At(body, p).phi, op) == op
    ensures forall d :: DefinedAt(body, op, d) ==>
      && NamedIter(body, p, d, j) <= Clones(d, p, j)
      && Renamed(vm, phis, At(body, p).phi, op) == Name(vm, op, NamedIter(body, p, d, j))
  {
    forall d | DefinedAt(body, op, d)
      ensures Counted(body, vm, p, j, d)
      ensures NamedIter(body, p, d, j) <= Clones(d, p, j)
      ensures Renamed(vm, phis, At(body, p).phi, op) == Name(vm, op, NamedIter(body, p, d, j))
    {
      PhiSeen(body[p.b], p.q + 1, op);
      if q :| 0 <= q < p.q + 1 && body[p.b][q].phi && body[p.b][q].def == op {
        assert SameValue(body, Pos(p.b, q), d);
      }
    }
  }

  ghost predicate Extends(vm: VMap, vm': VMap) {
    forall v :: v in vm ==> v in vm' && vm[v] <= vm'[v]
  }

  /** `c` is copy `j` of the instruction at `p`, with the names the renaming picks. */
  ghost predicate IsClone(body: Body, vm: VMap, p: Pos, j: nat, c: Instr)
    requires InBody(body, p) && j > 0
  {
    var i := At(body, p);
    && c.phi == i.phi && |c.ops| == |i.ops|
    && j <= Size(vm, i.def) && c.def == Name(vm, i.def, j)
    && forall m :: 0 <= m < |i.ops| ==> OperandNamed(body, vm, p, j, i.ops[m], c.ops[m])
  }

  ghost predicate OperandNamed(body: Body, vm: VMap, p: Pos, j: nat, op: nat, name: nat)
    requires InBody(body, p) && j > 0
  {
    && (!LoopValue(body, op) ==> name == op)
    && forall d :: DefinedAt(body, op, d) ==>
         NamedIter(body, p, d, j) <= Size(vm, op) && name == Name(vm, op, NamedIter(body, p, d, j))
  }

  lemma CloneStays(body: Body, vm: VMap, vm': VMap, p: Pos, j: nat, c: Instr)
    requires InBody(body, p) && j > 0 && IsClone(body, vm, p, j, c) && Extends(vm, vm')
    ensures IsClone(body, vm', p, j, c)
  {
    var i := At(body, p);
    forall m | 0 <= m < |i.ops|
      ensures OperandNamed(body, vm', p, j, i.ops[m], c.ops[m])
    {
      assert OperandNamed(body, vm, p, j, i.ops[m], c.ops[m]);
    }
  }

  /** The first instructions of block `b` cloned as copy `j`. */
  ghost predicate PrefixCloned(body: Body, vm: VMap, b: nat, j: nat, block: seq<Instr>)
    requires b < |body| && j > 0
  {
    && |block| <= |body[b]|
    && forall q :: 0 <= q < |block| ==> IsClone(body, vm, Pos(b, q), j, block[q])
  }

  /** Block `b` of the body cloned as copy `j`. */
  ghost predicate BlockCloned(body: Body, vm: VMap, b: nat, j: nat, block: seq<Instr>)
    requires b < |body| && j > 0
  {
    |block| == |body[b]| && PrefixCloned(body, vm, b, j, block)
  }

  ghost predicate RoundCloned(body: Body, vm: VMap, j: nat, copy: Body)
    requires j > 0
  {
    |copy| == |body| && forall b :: 0 <= b < |body| ==> BlockCloned(body, vm, b, j, copy[b])
  }

  lemma PrefixGrows(body: Body, vm: VMap, vm': VMap, b: nat, j: nat, block: seq<Instr>, c: Instr)
    requires b < |body| && j > 0 && PrefixCloned(body, vm, b, j, block) && Extends(vm, vm')
    requires |block| < |body[b]| && IsClone(body, vm', Pos(b, |block|), j, c)
    ensures PrefixCloned(body, vm', b, j, block + [c])
  {
    forall q | 0 <= q < |block|
      ensures IsClone(body, vm', Pos(b, q), j, block[q])
    {
      CloneStays(body, vm, vm', Pos(b, q), j, block[q]);
    }
  }

  lemma BlockStays(body: Body, vm: VMap, vm': VMap, b: nat, j: nat, block: seq<Instr>)
    requires b < |body| && j > 0 && BlockCloned(body, vm, b, j, block) && Extends(vm, vm')
    ensures BlockCloned(body, vm', b, j, block)
  {
    forall q | 0 <= q < |block|
      ensures IsClone(body, vm', Pos(b, q), j, block[q])
    {
      CloneStays(body, vm, vm', Pos(b, q), j, block[q]);
    }
  }

  lemma ExtendsTrans(a: VMap, b: VMap, c: VMap)
    requires Extends(a, b) && Extends(b, c)
    ensures Extends(a, c)
  {
  }

  /** Clones have new numbers, which grow with the copy. */
  ghost predicate FreshNames(vm: VMap, base: nat, next: nat) {
    forall v :: v in vm ==> v < base && Growing(vm[v], base, next)
  }

  ghost predicate Growing(s: seq<nat>, base: nat, next: nat) {
    && (forall i :: 0 <= i < |s| ==> base <= s[i] < next)
    && (forall i, j :: 0 <= i < j < |s| ==> s[i] < s[j])
  }

  function Recorded(vm: VMap, v: nat, n: nat): VMap {
    vm[v := (if v in vm then vm[v] else []) + [n]]
  }

  /** Appending the clone of the value at `p` moves the map on by one instruction. */
  lemma RecordClone(body: Body, vm: VMap, p: Pos, j: nat, n: nat)
    requires Ssa(body) && InBody(body, p) && MapAt(body, vm, p, j)
    ensures MapAt(body, Recorded(vm, At(body, p).def, n), Pos(p.b, p.q + 1), j)
  {
    var v := At(body, p).def;
    assert DefinedAt(body, v, p) && Clones(p, p, j) == j - 1;
    assert Counted(body, vm, p, j, p);
    forall r | InBody(body, r)
      ensures Counted(body, Recorded(vm, v, n), Pos(p.b, p.q + 1), j, r)
    {
      assert Counted(body, vm, p, j, r);
      if r != p { assert !SameValue(body, r, p); }
    }
  }

  lemma RecordFresh(vm: VMap, v: nat, n: nat, base: nat)
    requires FreshNames(vm, base, n) && base <= n && v < base
    ensures FreshNames(Recorded(vm, v, n), base, n + 1)
  {
    forall u | u in Recorded(vm, v, n)
      ensures u < base && Growing(Recorded(vm, v, n)[u], base, n + 1)
    {
      if u in vm { assert Growing(vm[u], base, n); }
    }
  }

  lemma OperandsNamed(body: Body, vm: VMap, p: Pos, j: nat, phis: set<nat>, c: Instr)
    requires Ssa(body) && InBody(body, p) && MapAt(body, vm, p, j) && phis == PhisUpTo(body[p.b], p.q + 1)
    requires |c.ops| == |At(body, p).ops|
    requires forall m :: 0 <= m < |c.ops| ==> c.ops[m] == Renamed(vm, phis, At(body, p).phi, At(body, p).ops[m])
    ensures forall m :: 0 <= m < |c.ops| ==> OperandNamed(body, vm, p, j, At(body, p).ops[m], c.ops[m])
  {
    forall m | 0 <= m < |c.ops|
      ensures OperandNamed(body, vm, p, j, At(body, p).ops[m], c.ops[m])
    {
      var op := At(body, p).ops[m];
      RenamedNames(body, vm, p, j, phis, op);
      forall d | DefinedAt(body, op, d)
        ensures NamedIter(body, p, d, j) <= Size(vm, op)
      {
        assert Counted(body, vm, p, j, d);
      }
    }
  }

  ghost predicate ValuesBelow(i: Instr, base: nat) {
    i.def < base && forall op :: op in i.ops ==> op < base
  }

  ghost predicate InRange(body: Body, base: nat) {
    forall p {:trigger ValuesBelow(At(body, p), base)} :: InBody(body, p) ==> ValuesBelow(At(body, p), base)
  }

  class Cloner {
    const body: Body
    const base: nat
    /** The next unused value number. */
    var next: nat
    var vmap: VMap

    ghost predicate Valid()
      reads this
    {
      && Ssa(body) && base <= next
      && InRange(body, base)
      && FreshNames(vmap, base, next)
    }

    constructor (body: Body, base: nat)
      requires Ssa(body)
      requires InRange(body, base)
      ensures Valid() && vmap == map[] && this.body == body
    {
      this.body := body;
      this.base := base;
      next := base;
      vmap := map[];
    }

    /** `rauw_op` for all operands; each replacement hits every use of the operand. */
    method RenameOperands(i: Instr, phis: set<nat>) returns (ops: seq<nat>)
      requires Valid() && forall op :: op in i.ops ==> op < base
      ensures |ops| == |i.ops|
      ensures forall m :: 0 <= m < |ops| ==> ops[m] == Renamed(vmap, phis, i.phi, i.ops[m])
    {
      ops := i.ops;
      for m := 0 to |i.ops|
        invariant |ops| == |i.ops|
        invariant forall n :: 0 <= n < |ops| ==>
          || ops[n] == Renamed(vmap, phis, i.phi, i.ops[n])
          || (n >= m && ops[n] == i.ops[n])
      {
        var op := i.ops[m];
        var to := Renamed(vmap, phis, i.phi, op);
        forall n | 0 <= n < |ops| && ops[n] == op
          ensures i.ops[n] == op
        {
          assert i.ops[n] in i.ops && op in i.ops;
        }
        ops := seq(|ops|, n requires 0 <= n < |ops| => if ops[n] == op then to else ops[n]);
      }
    }

    /** Clones the instruction at `p` as copy `j`. */
    method CloneInstr(p: Pos, j: nat, phis: set<nat>) returns (c: Instr)
      requires Valid() && InBody(body, p) && MapAt(body, vmap, p, j) && phis == PhisUpTo(body[p.b], p.q + 1)
      modifies this
      ensures Valid() && MapAt(body, vmap, Pos(p.b, p.q + 1), j)
      ensures Extends(old(vmap), vmap) && IsClone(body, vmap, p, j, c)
    {
      var i := At(body, p);
      assert ValuesBelow(At(body, p), base);
      var ops := RenameOperands(i, phis);
      c := Instr(i.phi, next, ops);
      ghost var vm := vmap;
      OperandsNamed(body, vm, p, j, phis, c);
      RecordClone(body, vm, p, j, next);
      RecordFresh(vm, i.def, next, base);
      assert Counted(body, vm, p, j, p);
      vmap := Recorded(vmap, i.def, next);
      next := next + 1;
      forall m | 0 <= m < |i.ops|
        ensures OperandNamed(body, vmap, p, j, i.ops[m], c.ops[m])
      {
        assert OperandNamed(body, vm, p, j, i.ops[m], c.ops[m]);
      }
    }

    /** `cloneBB`. */
    method CloneBlock(b: nat, j: nat) returns (block: seq<Instr>)
      requires Valid() && b < |body| && MapAt(body, vmap, Pos(b, 0), j)
      modifies this
      ensures Valid() && MapAt(body, vmap, Pos(b + 1, 0), j)
      ensures Extends(old(vmap), vmap) && BlockCloned(body, vmap, b, j, block)
    {
      block := [];
      var phis := {};
      ghost var start := vmap;
      for q := 0 to |body[b]|
        invariant Valid() && MapAt(body, vmap, Pos(b, q), j) && Extends(start, vmap)
        invariant phis == PhisUpTo(body[b], q)
        invariant |block| == q && PrefixCloned(body, vmap, b, j, block)
      {
        if body[b][q].phi {
          phis := phis + {body[b][q].def};
        }
        ghost var vm := vmap;
        var c := CloneInstr(Pos(b, q), j, phis);
        ExtendsTrans(start, vm, vmap);
        PrefixGrows(body, vm, vmap, b, j, block, c);
        block := block + [c];
      }
      EndOfBlock(body, vmap, b, j);
    }

    /** Clones all blocks once, in topological order. */
    method CloneRound(j: nat) returns (copy: Body)
      requires Valid() && MapAt(body, vmap, Pos(0, 0), j)
      modifies this
      ensures Valid() && MapAt(body, vmap, Pos(0, 0), j + 1)
      ensures Extends(old(vmap), vmap) && RoundCloned(body, vmap, j, copy)
    {
      copy := [];
      ghost var start := vmap;
      for b := 0 to |body|
        invariant Valid() && MapAt(body, vmap, Pos(b, 0), j) && Extends(start, vmap)
        invariant |copy| == b && forall c :: 0 <= c < b ==> BlockCloned(body, vmap, c, j, copy[c])
      {
        ghost var vm := vmap;
        var block := CloneBlock(b, j);
        ExtendsTrans(start, vm, vmap);
        forall c | 0 <= c < b
          ensures BlockCloned(body, vmap, c, j, copy[c])
        {
          BlockStays(body, vm, vmap, c, j, copy[c]);
        }
        copy := copy + [block];
      }
      EndOfRound(body, vmap, j);
    }

    /** Clones the loop into copies 1 to `k - 1`, and the header of a multi-block
        loop once more as copy `k`. */
    method CloneLoop(k: nat) returns (copies: seq<Body>, exit: seq<Instr>)
      requires Valid() && vmap == map[] && k > 0 && body != []
      modifies this
      ensures Valid() && |copies| == k - 1
      ensures forall i :: 0 <= i < |copies| ==> RoundCloned(body, vmap, i + 1, copies[i])
      ensures if |body| > 1 then BlockCloned(body, vmap, 0, k, exit) else exit == []
    {
      copies, exit := [], [];
      EmptyMap(body);
      for j := 1 to k
        invariant Valid() && MapAt(body, vmap, Pos(0, 0), j)
        invariant |copies| == j - 1
        invariant forall i :: 0 <= i < |copies| ==> RoundCloned(body, vmap, i + 1, copies[i])
      {
        ghost var vm := vmap;
        var copy := CloneRound(j);
        RoundsStay(body, vm, vmap, copies);
        copies := copies + [copy];
      }
      if |body| > 1 {
        ghost var vm := vmap;
        exit := CloneBlock(0, k);
        RoundsStay(body, vm, vmap, copies);
      }
    }
  }

  lemma EmptyMap(body: Body)
    ensures MapAt(body, map[], Pos(0, 0), 1)
  {
    forall p | InBody(body, p)
      ensures Counted(body, map[], Pos(0, 0), 1, p)
    {
    }
  }

  lemma EndOfRound(body: Body, vm: VMap, j: nat)
    requires MapAt(body, vm, Pos(|body|, 0), j)
    ensures MapAt(body, vm, Pos(0, 0), j + 1)
  {
    forall p | InBody(body, p)
      ensures Counted(body, vm, Pos(0, 0), j + 1, p)
    {
      assert Counted(body, vm, Pos(|body|, 0), j, p);
    }
  }

  lemma RoundsStay(body: Body, vm: VMap, vm': VMap, copies: seq<Body>)
    requires Extends(vm, vm')
    requires forall i :: 0 <= i < |copies| ==> RoundCloned(body, vm, i + 1, copies[i])
    ensures forall i :: 0 <= i < |copies| ==> RoundCloned(body, vm', i + 1, copies[i])
  {
    forall i | 0 <= i < |copies|
      ensures RoundCloned(body, vm', i + 1, copies[i])
    {
      assert RoundCloned(body, vm, i + 1, copies[i]);
      forall b | 0 <= b < |body|
        ensures BlockCloned(body, vm', b, i + 1, copies[i][b])
      {
        BlockStays(body, vm, vm', b, i + 1, copies[i][b]);
      }
    }
  }

  lemma EndOfBlock(body: Body, vm: VMap, b: nat, j: nat)
    requires b < |body| && MapAt(body, vm, Pos(b, |body[b]|), j)
    ensures MapAt(body, vm, Pos(b + 1, 0), j)
  {
    forall p | InBody(body, p)
      ensures Counted(body, vm, Pos(b + 1, 0), j, p)
    {
      assert Counted(body, vm, Pos(b, |body[b]|), j, p);
    }
  }

  // ---------------------------------------------------------------------
  // The names against executions of the loop
  // ---------------------------------------------------------------------

  /** The instruction at `p` executed in iteration `j`. */
  datatype Event = Event(j: nat, p: Pos) {
    predicate Earlier(e: Event) {
      j < e.j || (j == e.j && p.Before(e.p))
    }
  }

  /** An execution of the loop: any subset of the instructions per iteration. */
  ghost predicate Trace(body: Body, t: seq<Event>) {
    && (forall s :: 0 <= s < |t| ==> InBody(body, t[s].p))
    && (forall s, u :: 0 <= s < u < |t| ==> t[s].Earlier(t[u]))
  }

  /** Event `e` is over when event `r` reads its operands. */
  predicate OverBefore(body: Body, e: Event, r: Event)
    requires InBody(body, r.p)
  {
    if At(body, r.p).phi then e.j < r.j || (e.j == r.j && e.p.b < r.p.b) else e.Earlier(r)
  }

  /** `e` is the last definition of the value defined at `e.p` that event `r` sees. */
  ghost predicate Reaches(body: Body, t: seq<Event>, e: Event, r: Event)
    requires InBody(body, r.p)
  {
    && e in t && OverBefore(body, e, r)
    && forall s :: 0 <= s < |t| && t[s].p == e.p && OverBefore(body, t[s], r) ==> t[s].j <= e.j
  }

  /** What dominance of definitions over uses gives: a value that is defined
      earlier in the iteration was defined in this iteration, any other one in
      the previous iteration. */
  ghost predicate Dominated(body: Body, t: seq<Event>, d: Pos, r: Event)
    requires InBody(body, r.p)
  {
    if ExecutedBefore(body, d, r.p) then Event(r.j, d) in t
    else r.j > 0 && Event(r.j - 1, d) in t
  }

  /** The reading iteration is the one of the definition that reaches the read. */
  lemma ReachIterReaches(body: Body, t: seq<Event>, d: Pos, r: Event)
    requires Trace(body, t) && InBody(body, r.p) && InBody(body, d) && r.j > 0 && Dominated(body, t, d, r)
    ensures Reaches(body, t, Event(ReachIter(body, r.p, d, r.j), d), r)
  {
  }

  lemma ReachesOnce(body: Body, t: seq<Event>, a: Event, b: Event, r: Event)
    requires InBody(body, r.p) && a.p == b.p && Reaches(body, t, a, r) && Reaches(body, t, b, r)
    ensures a == b
  {
  }

  /** In every execution, an operand of a cloned instruction names the copy of the
      definition that reaches it, except exactly for a phi that names itself from
      the second copy on. */
  lemma CloneNamesReachingDef(body: Body, vm: VMap, base: nat, next: nat, c: Instr, m: nat,
                              t: seq<Event>, r: Event, e: Event)
    requires Ssa(body) && InRange(body, base) && FreshNames(vm, base, next)
    requires Trace(body, t) && InBody(body, r.p) && r.j > 0
    requires IsClone(body, vm, r.p, r.j, c) && m < |c.ops|
    requires DefinedAt(body, At(body, r.p).ops[m], e.p) && Dominated(body, t, e.p, r) && Reaches(body, t, e, r)
    ensures c.ops[m] == Name(vm, At(body, r.p).ops[m], e.j)
       <==> !(At(body, r.p).phi && e.p == r.p && r.j >= 2)
  {
    var op := At(body, r.p).ops[m];
    assert OperandNamed(body, vm, r.p, r.j, op, c.ops[m]);
    ReachIterReaches(body, t, e.p, r);
    ReachesOnce(body, t, e, Event(ReachIter(body, r.p, e.p, r.j), e.p), r);
    if At(body, r.p).phi && e.p == r.p && r.j >= 2 {
      assert Growing(vm[op], base, next);
      assert ValuesBelow(At(body, r.p), base);
    }
  }

  /** A loop whose only phi, of value 1, names itself. */
  const SELF_PHI: Body := [[Instr(true, 1, [0, 1])]]

  /** Its second copy names the original phi and not the first copy. */
  method SelfPhiFallsBehind() returns (copies: seq<Body>, ghost vm: VMap)
    ensures |copies| == 2 && RoundCloned(SELF_PHI, vm, 1, copies[0]) && RoundCloned(SELF_PHI, vm, 2, copies[1])
    ensures |copies[0]| == |copies[1]| == 1 && |copies[0][0]| == |copies[1][0]| == 1
    ensures copies[0][0][0].ops == [0, 1] && copies[1][0][0].ops == [0, 1] && copies[0][0][0].def != 1
  {
    var body := SELF_PHI;
    SelfPhiBody(body);
    var c := new Cloner(body, 2);
    var exit;
    copies, exit := c.CloneLoop(3);
    vm := c.vmap;
    ghost var first, second := copies[0][0][0], copies[1][0][0];
    assert RoundCloned(body, c.vmap, 1, copies[0]) && RoundCloned(body, c.vmap, 2, copies[1]);
    assert IsClone(body, c.vmap, Pos(0, 0), 1, first) && IsClone(body, c.vmap, Pos(0, 0), 2, second);
    assert OperandNamed(body, c.vmap, Pos(0, 0), 1, 0, first.ops[0]);
    assert OperandNamed(body, c.vmap, Pos(0, 0), 1, 1, first.ops[1]);
    assert OperandNamed(body, c.vmap, Pos(0, 0), 2, 0, second.ops[0]);
    assert OperandNamed(body, c.vmap, Pos(0, 0), 2, 1, second.ops[1]);
    assert DefinedAt(body, 1, Pos(0, 0));
    assert Growing(c.vmap[1], 2, c.next);
  }

  lemma SelfPhiBody(body: Body)
    requires body == [[Instr(true, 1, [0, 1])]]
    ensures Ssa(body) && InRange(body, 2) && !LoopValue(body, 0)
  {
  }
}
