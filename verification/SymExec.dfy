/** The symbolic executor (`util::sym_exec` over `State`) under one valuation of
    its variables: path conditions, UB conditions and memories are merged over
    all predecessors, and must agree with running the one concrete path. */
module SymExec {
  import opened Exprs
  import opened FnCalls

  // ---------------------------------------------------------------------
  // Programs
  // ---------------------------------------------------------------------

  type Mem = map<int, int>
  type Regs = map<nat, int>

  datatype Instr =
    | Phi(dst: nat, args: seq<(nat, nat)>)                       // (register, predecessor)
    | Compute(dst: nat, ops: seq<nat>, f: (seq<int>, Mem) -> int)  // arithmetic and loads
    | Update(ops: seq<nat>, g: (seq<int>, Mem) -> Mem)             // stores
    | Require(ops: seq<nat>, ub: (seq<int>, Mem) -> Cond)          // UB unless it holds
    | Call(fn: string, access: Access, ops: seq<nat>,
           stops: (seq<int>, Mem) -> Cond, g: (seq<int>, Mem) -> Mem)  // may not return

  datatype Term =
    | Jump(dst: nat)
    | Branch(reg: nat, known: bool, onTrue: nat, onFalse: nat)
    | Switch(reg: nat, known: bool, cases: seq<(int, nat)>, default: nat)
    | Return(reg: nat)
    | Unreachable

  datatype Block = Block(body: seq<Instr>, term: Term)

  /** Blocks in topological order; the entry is block 0, numbers from `|p|` on are the sink. */
  type Program = seq<Block>

  // ---------------------------------------------------------------------
  // The concrete machine
  // ---------------------------------------------------------------------

  datatype Config = Config(prev: int, regs: Regs, mem: Mem, calls: Counts)

  datatype Outcome =
    | Returned(v: int, mem: Mem)
    | Stopped(mem: Mem)          // a call did not return
    | Undefined
    | Sunk                       // ran into the sink
    | Stuck                      // read a register that is not defined: not an SSA program

  datatype Machine = At(block: nat, cfg: Config) | Done(o: Outcome)

  datatype Step = Next(cfg: Config) | End(o: Outcome)

  predicate Defined(regs: Regs, ops: seq<nat>) {
    forall i :: 0 <= i < |ops| ==> ops[i] in regs
  }

  function Read(regs: Regs, r: nat): int {
    if r in regs then regs[r] else 0
  }

  /** The operands of an instruction, in order. */
  function Operands(regs: Regs, ops: seq<nat>): seq<int>
    requires Defined(regs, ops)
  {
    seq(|ops|, i requires 0 <= i < |ops| && Defined(regs, ops) => regs[ops[i]])
  }

  function ReadAll(regs: Regs, ops: seq<nat>): seq<int> {
    seq(|ops|, i requires 0 <= i < |ops| => Read(regs, ops[i]))
  }

  /** The register a phi selects for a predecessor, if it is unambiguous. */
  predicate Selects(args: seq<(nat, nat)>, prev: int, r: nat) {
    && (exists i :: 0 <= i < |args| && args[i].1 == prev && args[i].0 == r)
    && (forall i :: 0 <= i < |args| && args[i].1 == prev ==> args[i].0 == r)
  }

  function FirstFrom(args: seq<(nat, nat)>, prev: int): nat {
    if args == [] then 0 else if args[0].1 == prev then args[0].0 else FirstFrom(args[1..], prev)
  }

  /** The other instructions work on the values of their operands, and are stuck exactly if
      one of those has none. */
  lemma InstrTakes(d: nat, ops: seq<nat>, f: (seq<int>, Mem) -> int, g: (seq<int>, Mem) -> Mem, ub: (seq<int>, Mem) -> Cond,
                   c: Config, vals: seq<int>)
    requires |vals| == |ops| && forall i :: 0 <= i < |ops| ==> ops[i] in c.regs && vals[i] == c.regs[ops[i]]
    ensures DoInstr(Compute(d, ops, f), c) == Next(c.(regs := c.regs[d := f(vals, c.mem)]))
    ensures DoInstr(Update(ops, g), c) == Next(c.(mem := g(vals, c.mem)))
    ensures DoInstr(Require(ops, ub), c) == if ub(vals, c.mem).val then Next(c) else End(Undefined)
    ensures forall fn, access :: DoInstr(Call(fn, access, ops, ub, g), c) == if ub(vals, c.mem).val then End(Stopped(c.mem))
      else Next(c.(mem := g(vals, c.mem), calls := Called(c.calls, fn, access)))
  {
    assert Operands(c.regs, ops) == vals;
  }

  /** A phi takes the register that its entries name for the predecessor; the machine is
      stuck exactly if they name none, or different ones, or one without a value. */
  lemma {:induction false} PhiTakes(d: nat, args: seq<(nat, nat)>, c: Config, r: nat)
    requires forall i :: 0 <= i < |args| && args[i].1 == c.prev ==> args[i].0 == r
    ensures DoInstr(Phi(d, args), c) ==
      if (exists i :: 0 <= i < |args| && args[i].1 == c.prev) && r in c.regs then Next(c.(regs := c.regs[d := c.regs[r]]))
      else End(Stuck)
  {
    if i: nat :| i < |args| && args[i].1 == c.prev { FirstFromIs(args, c.prev, r, i); }
  }

  lemma {:induction false} FirstFromIs(args: seq<(nat, nat)>, prev: int, r: nat, i: nat)
    requires forall k :: 0 <= k < |args| && args[k].1 == prev ==> args[k].0 == r
    requires i < |args| && args[i].1 == prev
    ensures FirstFrom(args, prev) == r
  {
    if args[0].1 != prev { FirstFromIs(args[1..], prev, r, i - 1); }
  }

  lemma PhiStuck(d: nat, args: seq<(nat, nat)>, c: Config, i: nat, j: nat)
    requires i < |args| && j < |args| && args[i].1 == args[j].1 == c.prev && args[i].0 != args[j].0
    ensures DoInstr(Phi(d, args), c) == End(Stuck)
  {
  }

  function DoInstr(i: Instr, c: Config): Step {
    match i
    case Phi(d, args) =>
      var r := FirstFrom(args, c.prev);
      if Selects(args, c.prev, r) && r in c.regs then Next(c.(regs := c.regs[d := c.regs[r]])) else End(Stuck)
    case Compute(d, ops, f) =>
      if Defined(c.regs, ops) then Next(c.(regs := c.regs[d := f(Operands(c.regs, ops), c.mem)])) else End(Stuck)
    case Update(ops, g) =>
      if Defined(c.regs, ops) then Next(c.(mem := g(Operands(c.regs, ops), c.mem))) else End(Stuck)
    case Require(ops, ub) =>
      if !Defined(c.regs, ops) then End(Stuck)
      else if ub(Operands(c.regs, ops), c.mem).val then Next(c) else End(Undefined)
    case Call(fn, access, ops, stops, g) =>
      if !Defined(c.regs, ops) then End(Stuck)
      else if stops(Operands(c.regs, ops), c.mem).val then End(Stopped(c.mem))
      else Next(c.(mem := g(Operands(c.regs, ops), c.mem), calls := Called(c.calls, fn, access)))
  }

  function DoInstrs(code: seq<Instr>, c: Config): Step {
    if code == [] then Next(c)
    else match DoInstrs(code[..|code| - 1], c)
         case Next(d) => DoInstr(code[|code| - 1], d)
         case End(o) => End(o)
  }

  /** A jump to a block that was already started goes to the sink. */
  function Goto(p: Program, b: nat, t: nat, c: Config): Machine {
    if b < t < |p| then At(t, c.(prev := b)) else Done(Sunk)
  }

  function CaseTarget(cases: seq<(int, nat)>, default: nat, v: int): nat {
    if cases == [] then default
    else if cases[0].0 == v then cases[0].1
    else CaseTarget(cases[1..], default, v)
  }

  function DoTerm(p: Program, b: nat, t: Term, c: Config): Machine {
    match t
    case Jump(d) => Goto(p, b, d, c)
    case Branch(r, _, x, y) =>
      if r !in c.regs then Done(Stuck) else Goto(p, b, if c.regs[r] != 0 then x else y, c)
    case Switch(r, _, cases, d) =>
      if r !in c.regs then Done(Stuck) else Goto(p, b, CaseTarget(cases, d, c.regs[r]), c)
    case Return(r) => if r in c.regs then Done(Returned(c.regs[r], c.mem)) else Done(Stuck)
    case Unreachable => Done(Undefined)
  }

  function RunBlock(p: Program, b: nat, c: Config): Machine
    requires b < |p|
  {
    match DoInstrs(p[b].body, c)
    case Next(d) => DoTerm(p, b, p[b].term, d)
    case End(o) => Done(o)
  }

  /** The machine when all blocks before `b` have had their turn. */
  function Before(p: Program, init: Config, b: nat): Machine
    requires b <= |p|
  {
    if b == 0 then At(0, init)
    else
      var m := Before(p, init, b - 1);
      if m.At? && m.block == b - 1 then RunBlock(p, b - 1, m.cfg) else m
  }

  /** The outcome of the whole run. */
  function Run(p: Program, init: Config): Machine {
    Before(p, init, |p|)
  }

  // ---------------------------------------------------------------------
  // The state of the symbolic executor
  // ---------------------------------------------------------------------

  /** `BasicBlockInfo`: what was recorded for the jumps from one block to another. */
  datatype Info = Info(paths: seq<Cond>, ubs: seq<Guarded<Cond>>, mems: seq<Guarded<Mem>>, ranges: Ranges)

  const NoInfo := Info([], [], [], map[])

  /** Key of `predecessor_data`: destination and source. */
  datatype Arc = Arc(dst: nat, src: nat)

  type Pending = map<Arc, Info>

  datatype Sym = Sym(
    path: Cond, ub: Cond, mem: Mem, ranges: Ranges,     // current domain and state
    regs: Regs,                                          // values of all registers so far
    pending: Pending,
    retVal: seq<Guarded<int>>, retMem: seq<Guarded<Mem>>, retDom: seq<Cond>, fnDom: seq<Cond>)

  function AddUB(s: Sym, c: Cond): Sym {
    s.(ub := s.ub.And(c))
  }

  function AddNoReturn(s: Sym, c: Cond): Sym {
    if c.IsFalse() then s
    else AddUB(s.(retMem := Add(s.retMem, s.mem, s.path.And(c)),
                  fnDom := AddOr(s.fnDom, s.path.And(s.ub).And(c))), c.Not())
  }

  function AddReturn(s: Sym, v: int): Sym {
    AddUB(s.(retVal := Add(s.retVal, v, s.path), retMem := Add(s.retMem, s.mem, s.path),
             retDom := AddOr(s.retDom, s.path.And(s.ub)), fnDom := AddOr(s.fnDom, s.path.And(s.ub))), FALSE)
  }

  /** The domain cannot be dismissed by looking at it. */
  predicate Viable(s: Sym) { !s.path.IsFalse() && !s.ub.IsFalse() }

  function InfoOf(pending: Pending, a: Arc): Info {
    if a in pending then pending[a] else NoInfo
  }

  /** The arc a jump from `b` to `t` is recorded under; `n` is the sink. */
  function ArcTo(n: nat, b: nat, t: nat): Arc {
    Arc(if b < t < n then t else n, b)
  }

  function AddJump(n: nat, b: nat, s: Sym, cond: Cond, t: nat, always: bool): Sym {
    var c := cond.And(s.path);
    if c.IsFalse() || !Viable(s) then s
    else
      var a := ArcTo(n, b, t);
      var i := InfoOf(s.pending, a);
      var u := s.(pending := s.pending[a :=
        Info(AddOr(i.paths, c), Add(i.ubs, s.ub, c), Add(i.mems, s.mem, c), s.ranges)]);
      if always || cond.IsTrue() then AddUB(u, FALSE) else u
  }

  function AddCases(n: nat, b: nat, s: Sym, v: int, known: bool, cases: seq<(int, nat)>): Sym {
    if cases == [] then s
    else
      var u := AddCases(n, b, s, v, known, cases[..|cases| - 1]);
      AddJump(n, b, u, Cond(v == cases[|cases| - 1].0, known), cases[|cases| - 1].1, false)
  }

  function DefaultCond(v: int, known: bool, cases: seq<(int, nat)>): Cond {
    if cases == [] then TRUE
    else DefaultCond(v, known, cases[..|cases| - 1]).And(Cond(v != cases[|cases| - 1].0, known))
  }

  function SymTerm(n: nat, b: nat, s: Sym, t: Term): Sym {
    match t
    case Jump(d) => AddJump(n, b, s, TRUE, d, true)
    case Branch(r, known, x, y) =>
      var isFalse := Cond(Read(s.regs, r) == 0, known);
      AddJump(n, b, AddJump(n, b, s, isFalse.Not(), x, false), isFalse, y, true)
    case Switch(r, known, cases, d) =>
      var v := Read(s.regs, r);
      AddJump(n, b, AddCases(n, b, s, v, known, cases), DefaultCond(v, known, cases), d, true)
    case Return(r) => AddReturn(s, Read(s.regs, r))
    case Unreachable => AddUB(s, FALSE)
  }

  /** The values a phi merges: one per recorded predecessor. */
  function PhiVals(b: nat, s: Sym, args: seq<(nat, nat)>): seq<Guarded<int>> {
    if args == [] then []
    else
      var vs := PhiVals(b, s, args[..|args| - 1]);
      var (r, from) := args[|args| - 1];
      if Arc(b, from) in s.pending
      then Add(vs, Read(s.regs, r), Or(s.pending[Arc(b, from)].paths)) else vs
  }

  function SymInstr(b: nat, s: Sym, i: Instr): Sym {
    match i
    case Phi(d, args) =>
      var vs := PhiVals(b, s, args);
      s.(regs := s.regs[d := if vs == [] then 0 else Mk(vs)])
    case Compute(d, ops, f) => s.(regs := s.regs[d := f(ReadAll(s.regs, ops), s.mem)])
    case Update(ops, g) => s.(mem := g(ReadAll(s.regs, ops), s.mem))
    case Require(ops, ub) => AddUB(s, ub(ReadAll(s.regs, ops), s.mem))
    case Call(fn, access, ops, stops, g) =>
      var u := AddNoReturn(s, stops(ReadAll(s.regs, ops), s.mem));
      u.(mem := g(ReadAll(s.regs, ops), s.mem), ranges := Inc(s.ranges, fn, access))
  }

  // ---------------------------------------------------------------------
  // Agreement with the concrete machine
  // ---------------------------------------------------------------------

  ghost predicate SubMap(a: Regs, b: Regs) {
    forall r :: r in a ==> r in b && b[r] == a[r]
  }

  /** Guards and paths of one record go together, and the UB conditions agree. */
  ghost predicate InfoOk(i: Info) {
    && (SomeTrue(i.paths) <==> SomeOn(i.ubs)) && (SomeTrue(i.paths) <==> SomeOn(i.mems))
    && forall x, y :: 0 <= x < |i.ubs| && 0 <= y < |i.ubs| && i.ubs[x].on.val && i.ubs[y].on.val ==>
         i.ubs[x].v.val == i.ubs[y].v.val
  }

  /** The record says that its jump is taken. */
  ghost predicate Taken(s: Sym, a: Arc) {
    a in s.pending && SomeTrue(s.pending[a].paths)
  }

  ghost predicate UbHolds(i: Info) {
    exists x :: 0 <= x < |i.ubs| && i.ubs[x].on.val && i.ubs[x].v.val
  }

  /** The record hands over the concrete configuration `c`. */
  ghost predicate Delivers(i: Info, c: Config) {
    && SomeTrue(i.paths) && UbHolds(i) && Admits(i.ranges, c.calls)
    && forall w :: Has(i.mems, w) ==> w == c.mem
  }

  /** At most one jump to a block from `b` on, or to the sink, is taken. */
  ghost predicate OneTaken(s: Sym, b: nat) {
    forall x, y :: Taken(s, x) && Taken(s, y) && x.dst >= b && y.dst >= b ==> x == y
  }

  ghost predicate PendingOk(s: Sym) {
    forall a :: a in s.pending ==> InfoOk(s.pending[a])
  }

  /** The records say where the machine is, if it is not in a block before `b`. */
  ghost predicate Located(n: nat, s: Sym, b: nat, m: Machine) {
    && (m.At? && m.block >= b ==>
          m.cfg.prev >= 0 && Taken(s, Arc(m.block, m.cfg.prev))
          && Delivers(s.pending[Arc(m.block, m.cfg.prev)], m.cfg))
    && (m.At? ==> SubMap(m.cfg.regs, s.regs))
    && (forall a :: Taken(s, a) && a.dst >= b && UbHolds(s.pending[a]) ==>
          (m.At? && a == Arc(m.block, if m.cfg.prev >= 0 then m.cfg.prev else 0)) || (a.dst == n && m == Done(Sunk)))
    && (m == Done(Sunk) ==> exists a :: Taken(s, a) && a.dst == n && UbHolds(s.pending[a]))
  }

  /** The recorded outcomes are those of the machine. */
  ghost predicate OutcomesOk(s: Sym, b: nat, m: Machine) {
    && (SomeTrue(s.retDom) <==> m.Done? && m.o.Returned?)
    && (SomeTrue(s.fnDom) <==> m.Done? && (m.o.Returned? || m.o.Stopped?))
    && (m.At? ==> !SomeOn(s.retVal) && !SomeOn(s.retMem))
    && (m.Done? && m.o.Returned? ==>
          OnlyHas(s.retVal, m.o.v) && OnlyHas(s.retMem, m.o.mem) && forall a :: Taken(s, a) ==> a.dst < b)
  }

  /** Between blocks: blocks before `b` are finished. */
  ghost predicate Cut(n: nat, s: Sym, b: nat, m: Machine) {
    && (m.At? ==> m.block >= b)
    && (forall a :: a in s.pending ==> a.src < b)
    && PendingOk(s) && OneTaken(s, b) && Located(n, s, b, m) && OutcomesOk(s, b, m)
  }

  /** Inside block `b`; `path` is the part of the path condition that has not left it. */
  ghost predicate Inside(n: nat, s: Sym, b: nat, m: Machine, path: bool) {
    && (m.At? ==> m.block >= b) && (path ==> s.path.val)
    && (m.At? && m.block == b <==> path && s.ub.val)
    && (m.At? && m.block == b ==> s.mem == m.cfg.mem && Admits(s.ranges, m.cfg.calls) && SubMap(m.cfg.regs, s.regs))
    && (path ==> forall a :: Taken(s, a) ==> a.dst <= b)
    && (forall a :: a in s.pending ==> a.src <= b && (a.src == b ==> s.pending[a].ranges == s.ranges))
    && (m.Done? && m.o.Returned? ==> !path)
    && (m.At? && m.block == b ==> forall x: nat :: Taken(s, Arc(b, x)) <==> x == m.cfg.prev)
    && PendingOk(s) && OneTaken(s, b + 1) && Located(n, s, b + 1, m) && OutcomesOk(s, b + 1, m)
  }

  // ---------------------------------------------------------------------
  // Starting a block
  // ---------------------------------------------------------------------

  /** The records of the given predecessors of `b`, merged in that order. */
  function Merge(pending: Pending, b: nat, srcs: seq<nat>): Info {
    if srcs == [] then NoInfo
    else
      var m := Merge(pending, b, srcs[..|srcs| - 1]);
      var i := InfoOf(pending, Arc(b, srcs[|srcs| - 1]));
      var p := Or(i.paths);
      Info(m.paths + i.paths, AddDisj(m.ubs, i.ubs, p), AddDisj(m.mems, i.mems, p),
           if |srcs| == 1 then i.ranges else Meet(m.ranges, i.ranges))
  }

  ghost predicate TakenFrom(s: Sym, b: nat, srcs: seq<nat>) {
    exists k :: 0 <= k < |srcs| && Taken(s, Arc(b, srcs[k]))
  }

  ghost predicate UbFrom(s: Sym, b: nat, srcs: seq<nat>, w: Cond) {
    exists k :: 0 <= k < |srcs| && Taken(s, Arc(b, srcs[k])) && Has(s.pending[Arc(b, srcs[k])].ubs, w)
  }

  ghost predicate MemFrom(s: Sym, b: nat, srcs: seq<nat>, w: Mem) {
    exists k :: 0 <= k < |srcs| && Taken(s, Arc(b, srcs[k])) && Has(s.pending[Arc(b, srcs[k])].mems, w)
  }

  lemma TrueConcat(a: seq<Cond>, b: seq<Cond>)
    ensures SomeTrue(a + b) <==> SomeTrue(a) || SomeTrue(b)
  {
    if i :| 0 <= i < |a| && a[i].val { assert (a + b)[i].val; }
    if i :| 0 <= i < |b| && b[i].val { assert (a + b)[|a| + i].val; }
    if i :| 0 <= i < |a + b| && (a + b)[i].val { if i < |a| { assert a[i].val; } else { assert b[i - |a|].val; } }
  }

  lemma {:induction false} MergeTaken(s: Sym, b: nat, srcs: seq<nat>)
    requires PendingOk(s) && forall k :: 0 <= k < |srcs| ==> Arc(b, srcs[k]) in s.pending
    ensures SomeTrue(Merge(s.pending, b, srcs).paths) <==> TakenFrom(s, b, srcs)
    ensures SomeOn(Merge(s.pending, b, srcs).ubs) <==> TakenFrom(s, b, srcs)
    ensures SomeOn(Merge(s.pending, b, srcs).mems) <==> TakenFrom(s, b, srcs)
  {
    if srcs != [] {
      var n := |srcs| - 1;
      var m, i := Merge(s.pending, b, srcs[..n]), s.pending[Arc(b, srcs[n])];
      MergeTaken(s, b, srcs[..n]);
      TrueConcat(m.paths, i.paths);
      AddDisjSome(m.ubs, i.ubs, Or(i.paths));
      AddDisjSome(m.mems, i.mems, Or(i.paths));
      assert InfoOk(i);
      if k :| 0 <= k < n && Taken(s, Arc(b, srcs[..n][k])) { assert Taken(s, Arc(b, srcs[k])); }
      if k :| 0 <= k < |srcs| && Taken(s, Arc(b, srcs[k])) { if k < n { assert Taken(s, Arc(b, srcs[..n][k])); } }
    }
  }

  lemma {:induction false} MergeUb(s: Sym, b: nat, srcs: seq<nat>, w: Cond)
    requires forall k :: 0 <= k < |srcs| ==> Arc(b, srcs[k]) in s.pending
    ensures Has(Merge(s.pending, b, srcs).ubs, w) ==> UbFrom(s, b, srcs, w)
  {
    if srcs != [] {
      var n := |srcs| - 1;
      var m, i := Merge(s.pending, b, srcs[..n]), s.pending[Arc(b, srcs[n])];
      MergeUb(s, b, srcs[..n], w);
      AddDisjHas(m.ubs, i.ubs, Or(i.paths), w);
      if UbFrom(s, b, srcs[..n], w) {
        var k :| 0 <= k < n && Taken(s, Arc(b, srcs[..n][k])) && Has(s.pending[Arc(b, srcs[..n][k])].ubs, w);
        assert Taken(s, Arc(b, srcs[k])) && Has(s.pending[Arc(b, srcs[k])].ubs, w);
      } else if Has(Merge(s.pending, b, srcs).ubs, w) {
        assert Taken(s, Arc(b, srcs[n]));
      }
    }
  }

  lemma {:induction false} MergeMem(s: Sym, b: nat, srcs: seq<nat>, w: Mem)
    requires forall k :: 0 <= k < |srcs| ==> Arc(b, srcs[k]) in s.pending
    ensures Has(Merge(s.pending, b, srcs).mems, w) ==> MemFrom(s, b, srcs, w)
  {
    if srcs != [] {
      var n := |srcs| - 1;
      var m, i := Merge(s.pending, b, srcs[..n]), s.pending[Arc(b, srcs[n])];
      MergeMem(s, b, srcs[..n], w);
      AddDisjHas(m.mems, i.mems, Or(i.paths), w);
      if MemFrom(s, b, srcs[..n], w) {
        var k :| 0 <= k < n && Taken(s, Arc(b, srcs[..n][k])) && Has(s.pending[Arc(b, srcs[..n][k])].mems, w);
        assert Taken(s, Arc(b, srcs[k])) && Has(s.pending[Arc(b, srcs[k])].mems, w);
      } else if Has(Merge(s.pending, b, srcs).mems, w) {
        assert Taken(s, Arc(b, srcs[n]));
      }
    }
  }

  lemma {:induction false} MergeRanges(s: Sym, b: nat, srcs: seq<nat>, k: nat, c: Counts)
    requires forall i :: 0 <= i < |srcs| ==> Arc(b, srcs[i]) in s.pending
    requires k < |srcs| && Admits(s.pending[Arc(b, srcs[k])].ranges, c)
    ensures Admits(Merge(s.pending, b, srcs).ranges, c)
  {
    var n := |srcs| - 1;
    if k < n { MergeRanges(s, b, srcs[..n], k, c); }
    if n > 0 { MeetAdmits(Merge(s.pending, b, srcs[..n]).ranges, s.pending[Arc(b, srcs[n])].ranges, c); }
  }

  /** The predecessors of `b` with a record, each once. */
  ghost predicate Sources(s: Sym, b: nat, srcs: seq<nat>) {
    && srcs != []
    && (forall k :: 0 <= k < |srcs| ==> Arc(b, srcs[k]) in s.pending)
    && (forall x :: Arc(b, x) in s.pending ==> x in srcs)
  }

  /** `startBB` on a block with recorded predecessors. */
  function StartFrom(s: Sym, b: nat, srcs: seq<nat>): Sym {
    var m := Merge(s.pending, b, srcs);
    s.(path := Or(m.paths), ub := if m.ubs == [] then FALSE else Mk(m.ubs),
       mem := if m.mems == [] then s.mem else Mk(m.mems), ranges := m.ranges)
  }

  lemma StartReached(n: nat, s: Sym, b: nat, srcs: seq<nat>, m: Machine)
    requires Cut(n, s, b, m) && b < n && Sources(s, b, srcs) && m.At? && m.block == b
    ensures
      var u := StartFrom(s, b, srcs);
      u.path.val && u.ub.val && u.mem == m.cfg.mem && Admits(u.ranges, m.cfg.calls)
  {
    var a := Arc(b, m.cfg.prev);
    var g := Merge(s.pending, b, srcs);
    var k :| 0 <= k < |srcs| && srcs[k] == a.src;
    assert TakenFrom(s, b, srcs);
    MergeTaken(s, b, srcs);
    MkPicks(g.ubs);
    MkPicks(g.mems);
    MergeUb(s, b, srcs, Mk(g.ubs));
    MergeMem(s, b, srcs, Mk(g.mems));
    MergeRanges(s, b, srcs, k, m.cfg.calls);
    assert InfoOk(s.pending[a]);
  }

  lemma StartDomain(n: nat, s: Sym, b: nat, srcs: seq<nat>, m: Machine)
    requires Cut(n, s, b, m) && b < n && Sources(s, b, srcs)
    ensures
      var u := StartFrom(s, b, srcs);
      && (u.path.val <==> TakenFrom(s, b, srcs))
      && (u.path.val && u.ub.val ==> m.At? && m.block == b)
  {
    var g := Merge(s.pending, b, srcs);
    MergeTaken(s, b, srcs);
    if TakenFrom(s, b, srcs) {
      MkPicks(g.ubs);
      MergeUb(s, b, srcs, Mk(g.ubs));
      if Mk(g.ubs).val {
        var k :| 0 <= k < |srcs| && Taken(s, Arc(b, srcs[k])) && Has(s.pending[Arc(b, srcs[k])].ubs, Mk(g.ubs));
        assert UbHolds(s.pending[Arc(b, srcs[k])]);
      }
    }
  }

  /** Starting a block: the merged domain holds exactly if the machine is there. */
  lemma StartInside(n: nat, s: Sym, b: nat, srcs: seq<nat>, m: Machine)
    requires Cut(n, s, b, m) && b < n && Sources(s, b, srcs)
    ensures var u := StartFrom(s, b, srcs); Inside(n, u, b, m, u.path.val)
  {
    var u := StartFrom(s, b, srcs);
    StartDomain(n, s, b, srcs, m);
    if m.At? && m.block == b { StartReached(n, s, b, srcs, m); }
    forall a | Taken(u, a)
      ensures Taken(s, a)
    {
    }
  }

  // ---------------------------------------------------------------------
  // Jumps
  // ---------------------------------------------------------------------

  /** The record after one more jump from the current domain. */
  function Recorded(s: Sym, i: Info, c: Cond): Info {
    Info(AddOr(i.paths, c), Add(i.ubs, s.ub, c), Add(i.mems, s.mem, c), s.ranges)
  }

  lemma RecordedOk(s: Sym, i: Info, c: Cond)
    requires InfoOk(i) && (c.val ==> !SomeTrue(i.paths))
    ensures InfoOk(Recorded(s, i, c))
    ensures SomeTrue(Recorded(s, i, c).paths) <==> SomeTrue(i.paths) || c.val
    ensures c.val ==> (UbHolds(Recorded(s, i, c)) <==> s.ub.val)
    ensures !c.val ==> (UbHolds(Recorded(s, i, c)) <==> UbHolds(i))
    ensures forall w :: Has(Recorded(s, i, c).mems, w) ==> (c.val && w == s.mem) || (!c.val && Has(i.mems, w))
  {
    var r := Recorded(s, i, c);
    AddOrSome(i.paths, c);
    AddSome(i.ubs, s.ub, c);
    AddSome(i.mems, s.mem, c);
    forall w
      ensures Has(r.mems, w) ==> (c.val && w == s.mem) || (!c.val && Has(i.mems, w))
    {
      AddHas(i.mems, s.mem, c, w);
    }
    forall x | 0 <= x < |r.ubs| && r.ubs[x].on.val
      ensures (c.val && r.ubs[x].v == s.ub) || (!c.val && x < |i.ubs| && r.ubs[x] == i.ubs[x])
    {
      assert x < |i.ubs| && r.ubs[x] == i.ubs[x] ==> SomeOn(i.ubs);
    }
    if c.val { assert r.ubs[|r.ubs| - 1].on.val; }
    if !c.val && UbHolds(i) {
      var x :| 0 <= x < |i.ubs| && i.ubs[x].on.val && i.ubs[x].v.val;
      assert r.ubs[x].on.val && r.ubs[x].v.val;
    }
  }

  /** Where the machine goes if the jump is the one it takes. */
  function AfterJump(p: Program, b: nat, m: Machine, taken: bool, t: nat): Machine {
    if m.At? && m.block == b && taken then Goto(p, b, t, m.cfg) else m
  }

  /** A recorded jump that the current path takes. */
  lemma JumpTaken(p: Program, b: nat, s: Sym, c: Cond, t: nat, m: Machine)
    requires b < |p| && Inside(|p|, s, b, m, true) && c.val
    ensures
      var a := ArcTo(|p|, b, t);
      var u := s.(pending := s.pending[a := Recorded(s, InfoOf(s.pending, a), c)]);
      Inside(|p|, u, b, AfterJump(p, b, m, true, t), false)
  {
    var a := ArcTo(|p|, b, t);
    var i := InfoOf(s.pending, a);
    assert !SomeTrue(i.paths) by { if a in s.pending { assert !Taken(s, a); } }
    RecordedOk(s, i, c);
    var u := s.(pending := s.pending[a := Recorded(s, i, c)]);
    forall x | Taken(u, x) && x.dst >= b + 1
      ensures x == a
    {
      assert x == a || Taken(s, x);
    }
    assert Taken(u, a);
  }

  /** A recorded jump whose condition does not hold changes nothing that matters. */
  lemma JumpNotTaken(p: Program, b: nat, s: Sym, c: Cond, t: nat, m: Machine, path: bool)
    requires b < |p| && Inside(|p|, s, b, m, path) && !c.val
    ensures
      var a := ArcTo(|p|, b, t);
      var u := s.(pending := s.pending[a := Recorded(s, InfoOf(s.pending, a), c)]);
      Inside(|p|, u, b, m, path)
  {
    var a := ArcTo(|p|, b, t);
    var i := InfoOf(s.pending, a);
    RecordedOk(s, i, c);
    var u := s.(pending := s.pending[a := Recorded(s, i, c)]);
    assert forall x :: Taken(u, x) <==> Taken(s, x);
    assert forall x :: Taken(u, x) ==> (UbHolds(u.pending[x]) <==> UbHolds(s.pending[x]));
  }

  /** Adding `false` to the UB condition when the path has left the block. */
  lemma DropDomain(p: Program, b: nat, s: Sym, m: Machine)
    requires b < |p| && Inside(|p|, s, b, m, false)
    ensures Inside(|p|, AddUB(s, FALSE), b, m, false)
  {
    var u := AddUB(s, FALSE);
    assert forall x :: Taken(u, x) <==> Taken(s, x);
  }

  /** `addJump`: `path` says whether the path is still in the block. */
  lemma JumpStep(p: Program, b: nat, s: Sym, cond: Cond, t: nat, always: bool, m: Machine, path: bool)
    requires b < |p| && Inside(|p|, s, b, m, path)
    requires cond.val && s.path.val ==> path || s.ub.IsFalse()
    requires always ==> (path ==> cond.val)
    ensures Inside(|p|, AddJump(|p|, b, s, cond, t, always), b, AfterJump(p, b, m, cond.val, t), path && !cond.val)
  {
    var c := cond.And(s.path);
    if c.IsFalse() || !Viable(s) {
      LeaveDead(p, b, s, m, path, path && !cond.val);
    } else {
      var a := ArcTo(|p|, b, t);
      var u := s.(pending := s.pending[a := Recorded(s, InfoOf(s.pending, a), c)]);
      if c.val {
        JumpTaken(p, b, s, c, t, m);
      } else {
        JumpNotTaken(p, b, s, c, t, m, path);
      }
      if always || cond.IsTrue() { DropDomain(p, b, u, AfterJump(p, b, m, cond.val, t)); }
    }
  }

  /** A path with UB may be given up at any time. */
  lemma LeaveDead(p: Program, b: nat, s: Sym, m: Machine, path: bool, path': bool)
    requires b < |p| && Inside(|p|, s, b, m, path) && (path' ==> path)
    requires path && !path' ==> !s.ub.val
    ensures Inside(|p|, s, b, m, path')
  {
  }

  // ---------------------------------------------------------------------
  // Instructions
  // ---------------------------------------------------------------------

  /** Inside the body of block `b`, before its terminator. */
  ghost predicate InBody(n: nat, s: Sym, b: nat, m: Machine) {
    Inside(n, s, b, m, s.path.val) && forall a :: a in s.pending ==> a.src < b
  }

  /** The concrete machine executes the instruction if it is in the block. */
  function AfterInstr(b: nat, m: Machine, i: Instr): Machine {
    if m.At? && m.block == b then
      (match DoInstr(i, m.cfg) case Next(c) => At(b, c) case End(o) => Done(o))
    else m
  }

  ghost predicate WritesFresh(s: Sym, i: Instr) {
    match i
    case Phi(d, _) => d !in s.regs
    case Compute(d, _, _) => d !in s.regs
    case _ => true
  }

  lemma ReadSame(a: Regs, b: Regs, ops: seq<nat>)
    requires SubMap(a, b) && Defined(a, ops)
    ensures Operands(a, ops) == ReadAll(b, ops)
  {
    forall i | 0 <= i < |ops|
      ensures Read(a, ops[i]) == Read(b, ops[i])
    {
      assert ops[i] in a;
    }
  }

  lemma NotAhead(n: nat, s: Sym, b: nat, m: Machine)
    requires Inside(n, s, b, m, true)
    ensures m.At? ==> m.block == b
  {
  }

  /** Writing a fresh register. */
  lemma WriteKeeps(n: nat, s: Sym, b: nat, m: Machine, d: nat, v: int)
    requires InBody(n, s, b, m) && d !in s.regs
    ensures
      var m' := if m.At? && m.block == b then At(b, m.cfg.(regs := m.cfg.regs[d := v])) else m;
      InBody(n, s.(regs := s.regs[d := v]), b, m')
  {
    var u := s.(regs := s.regs[d := v]);
    assert forall x :: Taken(u, x) <==> Taken(s, x);
  }

  lemma {:induction false} PhiValsHas(b: nat, s: Sym, args: seq<(nat, nat)>, w: int)
    ensures Has(PhiVals(b, s, args), w) ==>
      exists k :: 0 <= k < |args| && Taken(s, Arc(b, args[k].1)) && Read(s.regs, args[k].0) == w
  {
    if args != [] {
      var n := |args| - 1;
      PhiValsHas(b, s, args[..n], w);
      if Has(PhiVals(b, s, args[..n]), w) {
        var k :| 0 <= k < n && Taken(s, Arc(b, args[..n][k].1)) && Read(s.regs, args[..n][k].0) == w;
        assert Taken(s, Arc(b, args[k].1)) && Read(s.regs, args[k].0) == w;
      }
      if Arc(b, args[n].1) in s.pending {
        AddHas(PhiVals(b, s, args[..n]), Read(s.regs, args[n].0), Or(s.pending[Arc(b, args[n].1)].paths), w);
        if Has(PhiVals(b, s, args), w) && !Has(PhiVals(b, s, args[..n]), w) {
          assert Taken(s, Arc(b, args[n].1));
        }
      }
    }
  }

  lemma {:induction false} PhiValsSome(b: nat, s: Sym, args: seq<(nat, nat)>, k: nat)
    requires k < |args| && Taken(s, Arc(b, args[k].1))
    ensures SomeOn(PhiVals(b, s, args))
  {
    var n := |args| - 1;
    if k < n { PhiValsSome(b, s, args[..n], k); }
    if Arc(b, args[n].1) in s.pending {
      AddSome(PhiVals(b, s, args[..n]), Read(s.regs, args[n].0), Or(s.pending[Arc(b, args[n].1)].paths));
    }
  }

  /** A phi in a reached block takes the value of the predecessor actually taken. */
  lemma PhiPicks(b: nat, s: Sym, args: seq<(nat, nat)>, prev: int, r: nat)
    requires forall x: nat :: Taken(s, Arc(b, x)) <==> x == prev
    requires Selects(args, prev, r)
    ensures PhiVals(b, s, args) != [] && Mk(PhiVals(b, s, args)) == Read(s.regs, r)
  {
    var k :| 0 <= k < |args| && args[k].1 == prev && args[k].0 == r;
    PhiValsSome(b, s, args, k);
    MkPicks(PhiVals(b, s, args));
    PhiValsHas(b, s, args, Mk(PhiVals(b, s, args)));
  }

  lemma PhiStep(n: nat, s: Sym, b: nat, m: Machine, d: nat, args: seq<(nat, nat)>)
    requires InBody(n, s, b, m) && d !in s.regs && AfterInstr(b, m, Phi(d, args)) != Done(Stuck)
    ensures InBody(n, SymInstr(b, s, Phi(d, args)), b, AfterInstr(b, m, Phi(d, args)))
  {
    var vs := PhiVals(b, s, args);
    if m.At? && m.block == b {
      PhiPicks(b, s, args, m.cfg.prev, FirstFrom(args, m.cfg.prev));
    }
    WriteKeeps(n, s, b, m, d, if vs == [] then 0 else Mk(vs));
  }

  lemma RequireStep(n: nat, s: Sym, b: nat, m: Machine, c: Cond)
    requires InBody(n, s, b, m)
    ensures
      var m' := if m.At? && m.block == b && !c.val then Done(Undefined) else m;
      InBody(n, AddUB(s, c), b, m')
  {
    var u := AddUB(s, c);
    assert forall x :: Taken(u, x) <==> Taken(s, x);
  }

  lemma NoReturnStep(n: nat, s: Sym, b: nat, m: Machine, c: Cond)
    requires InBody(n, s, b, m)
    ensures
      var m' := if m.At? && m.block == b && c.val then Done(Stopped(m.cfg.mem)) else m;
      InBody(n, AddNoReturn(s, c), b, m')
  {
    if !c.IsFalse() {
      var u := AddNoReturn(s, c);
      assert forall x :: Taken(u, x) <==> Taken(s, x);
      if s.path.val { NotAhead(n, s, b, m); }
      AddOrSome(s.fnDom, s.path.And(s.ub).And(c));
      AddSome(s.retMem, s.mem, s.path.And(c));
      forall w
        ensures !s.path.val ==> (Has(u.retMem, w) <==> Has(s.retMem, w))
      {
        AddHas(s.retMem, s.mem, s.path.And(c), w);
      }
    }
  }

  lemma MemoryStep(n: nat, s: Sym, b: nat, m: Machine, mem: Mem, ranges: Ranges, calls: Counts)
    requires InBody(n, s, b, m)
    requires m.At? && m.block == b ==> Admits(ranges, calls)
    ensures
      var m' := if m.At? && m.block == b then At(b, m.cfg.(mem := mem, calls := calls)) else m;
      InBody(n, s.(mem := mem, ranges := ranges), b, m')
  {
    var u := s.(mem := mem, ranges := ranges);
    assert forall x :: Taken(u, x) <==> Taken(s, x);
  }

  /** Every instruction keeps the agreement. */
  lemma InstrStep(n: nat, s: Sym, b: nat, m: Machine, i: Instr)
    requires InBody(n, s, b, m) && WritesFresh(s, i) && AfterInstr(b, m, i) != Done(Stuck)
    ensures InBody(n, SymInstr(b, s, i), b, AfterInstr(b, m, i))
  {
    var here := m.At? && m.block == b;
    match i
    case Phi(d, args) => PhiStep(n, s, b, m, d, args);
    case Compute(d, ops, f) =>
      if here { ReadSame(m.cfg.regs, s.regs, ops); }
      WriteKeeps(n, s, b, m, d, f(ReadAll(s.regs, ops), s.mem));
    case Update(ops, g) =>
      if here { ReadSame(m.cfg.regs, s.regs, ops); }
      MemoryStep(n, s, b, m, g(ReadAll(s.regs, ops), s.mem), s.ranges, if here then m.cfg.calls else map[]);
    case Require(ops, ub) =>
      if here { ReadSame(m.cfg.regs, s.regs, ops); }
      RequireStep(n, s, b, m, ub(ReadAll(s.regs, ops), s.mem));
    case Call(fn, access, ops, stops, g) =>
      if here { ReadSame(m.cfg.regs, s.regs, ops); }
      var c := stops(ReadAll(s.regs, ops), s.mem);
      NoReturnStep(n, s, b, m, c);
      var m1 := if here && c.val then Done(Stopped(m.cfg.mem)) else m;
      if m1.At? && m1.block == b { IncAdmits(s.ranges, m1.cfg.calls, fn, access); }
      MemoryStep(n, AddNoReturn(s, c), b, m1, g(ReadAll(s.regs, ops), s.mem), Inc(s.ranges, fn, access),
                 if here then Called(m.cfg.calls, fn, access) else map[]);
  }

  // ---------------------------------------------------------------------
  // Terminators
  // ---------------------------------------------------------------------

  ghost predicate DistinctCases(cases: seq<(int, nat)>) {
    forall i, j :: 0 <= i < j < |cases| ==> cases[i].0 != cases[j].0
  }

  ghost predicate TermOk(t: Term) {
    t.Switch? ==> DistinctCases(t.cases)
  }

  ghost predicate Matches(cases: seq<(int, nat)>, v: int) {
    exists i :: 0 <= i < |cases| && cases[i].0 == v
  }

  lemma {:induction false} CaseTargetMatch(cases: seq<(int, nat)>, default: nat, v: int, i: nat)
    requires DistinctCases(cases) && i < |cases| && cases[i].0 == v
    ensures CaseTarget(cases, default, v) == cases[i].1
  {
    if i > 0 { CaseTargetMatch(cases[1..], default, v, i - 1); }
  }

  lemma {:induction false} CaseTargetDefault(cases: seq<(int, nat)>, default: nat, v: int)
    requires !Matches(cases, v)
    ensures CaseTarget(cases, default, v) == default
  {
    if cases != [] {
      assert cases[0].0 != v;
      forall i | 0 <= i < |cases[1..]|
        ensures cases[1..][i].0 != v
      {
        assert cases[i + 1].0 != v;
      }
      CaseTargetDefault(cases[1..], default, v);
    }
  }

  lemma MatchesPrefix(cases: seq<(int, nat)>, v: int)
    requires cases != []
    ensures Matches(cases, v) <==> Matches(cases[..|cases| - 1], v) || cases[|cases| - 1].0 == v
  {
    var n := |cases| - 1;
    if i :| 0 <= i < |cases| && cases[i].0 == v { if i < n { assert cases[..n][i].0 == v; } }
    if i :| 0 <= i < n && cases[..n][i].0 == v { assert cases[i].0 == v; }
  }

  lemma {:induction false} DefaultCondVal(v: int, known: bool, cases: seq<(int, nat)>)
    ensures DefaultCond(v, known, cases).val <==> !Matches(cases, v)
  {
    if cases != [] {
      DefaultCondVal(v, known, cases[..|cases| - 1]);
      MatchesPrefix(cases, v);
    }
  }

  lemma {:induction false} CasesStep(p: Program, b: nat, s: Sym, m: Machine, v: int, known: bool,
                                     cases: seq<(int, nat)>, default: nat)
    requires b < |p| && InBody(|p|, s, b, m) && DistinctCases(cases)
    ensures
      var u := AddCases(|p|, b, s, v, known, cases);
      && Inside(|p|, u, b, AfterJump(p, b, m, Matches(cases, v), CaseTarget(cases, default, v)),
                s.path.val && !Matches(cases, v))
      && u.path == s.path && u.regs == s.regs
  {
    if cases != [] {
      var n := |cases| - 1;
      CasesStep(p, b, s, m, v, known, cases[..n], default);
      MatchesPrefix(cases, v);
      CaseTargetLast(cases, default, v);
      JumpStep(p, b, AddCases(|p|, b, s, v, known, cases[..n]), Cond(v == cases[n].0, known), cases[n].1, false,
               AfterJump(p, b, m, Matches(cases[..n], v), CaseTarget(cases[..n], default, v)),
               s.path.val && !Matches(cases[..n], v));
    }
  }

  lemma CaseTargetLast(cases: seq<(int, nat)>, default: nat, v: int)
    requires cases != [] && DistinctCases(cases)
    ensures
      var n := |cases| - 1;
      && (Matches(cases[..n], v) ==>
            CaseTarget(cases[..n], default, v) == CaseTarget(cases, default, v) && cases[n].0 != v)
      && (cases[n].0 == v ==> CaseTarget(cases, default, v) == cases[n].1)
  {
    var n := |cases| - 1;
    if i :| 0 <= i < n && cases[..n][i].0 == v {
      CaseTargetMatch(cases[..n], default, v, i);
      CaseTargetMatch(cases, default, v, i);
    }
    if cases[n].0 == v { CaseTargetMatch(cases, default, v, n); }
  }

  lemma ReturnStep(n: nat, s: Sym, b: nat, m: Machine, v: int)
    requires InBody(n, s, b, m)
    ensures
      var m' := if m.At? && m.block == b then Done(Returned(v, m.cfg.mem)) else m;
      Inside(n, AddReturn(s, v), b, m', false)
  {
    var u := AddReturn(s, v);
    assert forall x :: Taken(u, x) <==> Taken(s, x);
    if s.path.val { NotAhead(n, s, b, m); }
    AddOrSome(s.fnDom, s.path.And(s.ub));
    AddOrSome(s.retDom, s.path.And(s.ub));
    AddSome(s.retVal, v, s.path);
    AddSome(s.retMem, s.mem, s.path);
    forall w
      ensures Has(u.retVal, w) ==> (s.path.val && w == v) || Has(s.retVal, w)
    {
      AddHas(s.retVal, v, s.path, w);
    }
    forall w
      ensures Has(u.retMem, w) ==> (s.path.val && w == s.mem) || Has(s.retMem, w)
    {
      AddHas(s.retMem, s.mem, s.path, w);
    }
  }

  function AfterTerm(p: Program, b: nat, m: Machine, t: Term): Machine {
    if m.At? && m.block == b then DoTerm(p, b, t, m.cfg) else m
  }

  /** Inside the block, but the path has left it or is dead. */
  ghost predicate Left(n: nat, s: Sym, b: nat, m: Machine) {
    Inside(n, s, b, m, false) && (m.At? ==> m.block > b)
  }

  lemma BranchStep(p: Program, b: nat, s: Sym, m: Machine, r: nat, known: bool, x: nat, y: nat)
    requires b < |p| && InBody(|p|, s, b, m) && AfterTerm(p, b, m, Branch(r, known, x, y)) != Done(Stuck)
    ensures Left(|p|, SymTerm(|p|, b, s, Branch(r, known, x, y)), b, AfterTerm(p, b, m, Branch(r, known, x, y)))
  {
    var isFalse := Cond(Read(s.regs, r) == 0, known);
    JumpStep(p, b, s, isFalse.Not(), x, false, m, s.path.val);
    var u := AddJump(|p|, b, s, isFalse.Not(), x, false);
    var m1 := AfterJump(p, b, m, !isFalse.val, x);
    JumpStep(p, b, u, isFalse, y, true, m1, s.path.val && isFalse.val);
  }

  lemma SwitchStep(p: Program, b: nat, s: Sym, m: Machine, r: nat, known: bool, cases: seq<(int, nat)>, d: nat)
    requires b < |p| && InBody(|p|, s, b, m) && DistinctCases(cases)
    requires AfterTerm(p, b, m, Switch(r, known, cases, d)) != Done(Stuck)
    ensures Left(|p|, SymTerm(|p|, b, s, Switch(r, known, cases, d)), b, AfterTerm(p, b, m, Switch(r, known, cases, d)))
  {
    var v := Read(s.regs, r);
    CasesStep(p, b, s, m, v, known, cases, d);
    DefaultCondVal(v, known, cases);
    var u := AddCases(|p|, b, s, v, known, cases);
    var m1 := AfterJump(p, b, m, Matches(cases, v), CaseTarget(cases, d, v));
    if !Matches(cases, v) { CaseTargetDefault(cases, d, v); }
    JumpStep(p, b, u, DefaultCond(v, known, cases), d, true, m1, s.path.val && !Matches(cases, v));
  }

  /** Every terminator leaves the block the way the machine does. */
  lemma TermStep(p: Program, b: nat, s: Sym, m: Machine, t: Term)
    requires b < |p| && InBody(|p|, s, b, m) && TermOk(t) && AfterTerm(p, b, m, t) != Done(Stuck)
    ensures Left(|p|, SymTerm(|p|, b, s, t), b, AfterTerm(p, b, m, t))
  {
    match t
    case Jump(d) => JumpStep(p, b, s, TRUE, d, true, m, s.path.val);
    case Branch(r, known, x, y) => BranchStep(p, b, s, m, r, known, x, y);
    case Switch(r, known, cases, d) => SwitchStep(p, b, s, m, r, known, cases, d);
    case Return(r) => ReturnStep(|p|, s, b, m, Read(s.regs, r));
    case Unreachable =>
      RequireStep(|p|, s, b, m, FALSE);
      LeaveDead(p, b, AddUB(s, FALSE), AfterTerm(p, b, m, t), s.path.val, false);
  }

  /** A block that was left, or never entered, is finished. */
  lemma EndBlock(n: nat, s: Sym, b: nat, m: Machine)
    requires b < n && Left(n, s, b, m)
    ensures Cut(n, s, b + 1, m)
  {
  }

  lemma SkipBlock(n: nat, s: Sym, b: nat, m: Machine)
    requires b < n && Cut(n, s, b, m) && !(m.At? && m.block == b)
    ensures Cut(n, s, b + 1, m)
  {
  }

  // ---------------------------------------------------------------------
  // The executor
  // ---------------------------------------------------------------------

  /** Each register is written by one instruction, and not among the inputs. */
  ghost predicate Ssa(p: Program, inputs: Regs) {
    && (forall b :: 0 <= b < |p| ==> TermOk(p[b].term))
    && (forall b, k, d {:trigger WritesAt(p, b, k, d)} :: WritesAt(p, b, k, d) ==> d !in inputs)
    && (forall b, k, c, j, d {:trigger WritesAt(p, b, k, d), WritesAt(p, c, j, d)} ::
          WritesAt(p, b, k, d) && WritesAt(p, c, j, d) ==> b == c && k == j)
  }

  ghost predicate WritesAt(p: Program, b: nat, k: nat, d: nat) {
    b < |p| && k < |p[b].body| &&
    match p[b].body[k]
    case Phi(x, _) => x == d
    case Compute(x, _, _) => x == d
    case _ => false
  }

  /** No instruction from position `(b, k)` on has written its register yet. */
  ghost predicate Unwritten(p: Program, b: nat, k: nat, regs: Regs) {
    forall c: nat, j: nat, d: nat {:trigger WritesAt(p, c, j, d)} ::
      WritesAt(p, c, j, d) && (c > b || (c == b && j >= k)) ==> d !in regs
  }

  lemma WritesNext(p: Program, b: nat, k: nat, s: Sym, inputs: Regs)
    requires Ssa(p, inputs) && b < |p| && k < |p[b].body| && Unwritten(p, b, k, s.regs)
    ensures WritesFresh(s, p[b].body[k])
    ensures Unwritten(p, b, k + 1, SymInstr(b, s, p[b].body[k]).regs)
  {
    var i := p[b].body[k];
    if i.Phi? || i.Compute? {
      assert WritesAt(p, b, k, i.dst);
    }
  }

  /** The initial state of the executor. */
  function Initial(init: Config): Sym {
    Sym(TRUE, TRUE, init.mem, map[], init.regs, map[], [], [], [], [])
  }

  lemma InitialInside(n: nat, init: Config)
    requires n > 0 && init.prev == -1 && init.calls == map[]
    ensures InBody(n, Initial(init), 0, At(0, init))
  {
    forall fn
      ensures AdmitsFn(map[], fn, Count(init.calls, fn))
    {
    }
  }

  /** The machine after a prefix of the instructions of block `b`. */
  function AfterPrefix(b: nat, m: Machine, code: seq<Instr>): Machine {
    if m.At? && m.block == b then
      (match DoInstrs(code, m.cfg) case Next(c) => At(b, c) case End(o) => Done(o))
    else m
  }

  lemma NotStuckYet(p: Program, b: nat, m: Machine, k: nat)
    requires b < |p| && k <= |p[b].body|
    requires m.At? && m.block == b ==> RunBlock(p, b, m.cfg) != Done(Stuck)
    ensures m.At? && m.block == b ==> AfterPrefix(b, m, p[b].body[..k]) != Done(Stuck)
    decreases |p[b].body| - k
  {
    if k < |p[b].body| {
      NotStuckYet(p, b, m, k + 1);
      assert p[b].body[..k + 1][k] == p[b].body[k];
      assert p[b].body[..k + 1][..k] == p[b].body[..k];
    } else {
      assert p[b].body[..k] == p[b].body;
    }
  }

  /** The state after a prefix of the instructions of block `b`. */
  function SymInstrs(b: nat, s: Sym, code: seq<Instr>): Sym {
    if code == [] then s
    else SymInstr(b, SymInstrs(b, s, code[..|code| - 1]), code[|code| - 1])
  }

  /** The state after a whole block. */
  function SymBlock(p: Program, b: nat, s: Sym): Sym
    requires b < |p|
  {
    SymTerm(|p|, b, SymInstrs(b, s, p[b].body), p[b].term)
  }

  /** The registers that the instructions still to come write are fresh. */
  lemma {:induction false} BodyFresh(p: Program, b: nat, k: nat, s: Sym, inputs: Regs)
    requires Ssa(p, inputs) && b < |p| && k <= |p[b].body| && Unwritten(p, b, 0, s.regs)
    ensures Unwritten(p, b, k, SymInstrs(b, s, p[b].body[..k]).regs)
  {
    if k > 0 {
      BodyFresh(p, b, k - 1, s, inputs);
      assert p[b].body[..k][..k - 1] == p[b].body[..k - 1];
      WritesNext(p, b, k - 1, SymInstrs(b, s, p[b].body[..k - 1]), inputs);
    }
  }

  /** The body of a started block keeps the agreement. */
  lemma {:induction false} BodyStep(p: Program, b: nat, k: nat, s: Sym, inputs: Regs, m: Machine)
    requires Ssa(p, inputs) && b < |p| && k <= |p[b].body| && Unwritten(p, b, 0, s.regs) && InBody(|p|, s, b, m)
    requires m != Done(Stuck) && (m.At? && m.block == b ==> RunBlock(p, b, m.cfg) != Done(Stuck))
    ensures InBody(|p|, SymInstrs(b, s, p[b].body[..k]), b, AfterPrefix(b, m, p[b].body[..k]))
  {
    var code := p[b].body;
    if k > 0 {
      BodyStep(p, b, k - 1, s, inputs, m);
      BodyFresh(p, b, k - 1, s, inputs);
      assert code[..k][..k - 1] == code[..k - 1];
      NotStuckYet(p, b, m, k);
      var u := SymInstrs(b, s, code[..k - 1]);
      WritesNext(p, b, k - 1, u, inputs);
      InstrStep(|p|, u, b, AfterPrefix(b, m, code[..k - 1]), code[k - 1]);
    }
  }

  /** Where the machine is when block `b` has had its turn. */
  function AfterBlock(p: Program, b: nat, m: Machine): Machine
    requires b < |p|
  {
    if m.At? && m.block == b then RunBlock(p, b, m.cfg) else m
  }

  /** A started block is left by the state and the machine together. */
  lemma BlockStep(p: Program, b: nat, s: Sym, inputs: Regs, m: Machine)
    requires Ssa(p, inputs) && b < |p| && Unwritten(p, b, 0, s.regs) && InBody(|p|, s, b, m)
    requires m != Done(Stuck) && (m.At? && m.block == b ==> RunBlock(p, b, m.cfg) != Done(Stuck))
    ensures Cut(|p|, SymBlock(p, b, s), b + 1, AfterBlock(p, b, m))
  {
    var code := p[b].body;
    assert code[..|code|] == code;
    BodyStep(p, b, |code|, s, inputs, m);
    NotStuckYet(p, b, m, |code|);
    var u, m1 := SymInstrs(b, s, code), AfterPrefix(b, m, code);
    TermStep(p, b, u, m1, p[b].term);
    EndBlock(|p|, SymTerm(|p|, b, u, p[b].term), b, AfterTerm(p, b, m1, p[b].term));
  }

  lemma BlockFresh(p: Program, b: nat, s: Sym, inputs: Regs)
    requires Ssa(p, inputs) && b < |p| && Unwritten(p, b, 0, s.regs)
    ensures Unwritten(p, b + 1, 0, SymBlock(p, b, s).regs)
  {
    var code := p[b].body;
    assert code[..|code|] == code;
    BodyFresh(p, b, |code|, s, inputs);
    RegsKeptByTerm(|p|, b, SymInstrs(b, s, code), p[b].term);
  }

  lemma {:induction false} RegsKeptByTerm(n: nat, b: nat, s: Sym, t: Term)
    ensures SymTerm(n, b, s, t).regs == s.regs
  {
    if t.Switch? { RegsKeptByCases(n, b, s, Read(s.regs, t.reg), t.known, t.cases); }
  }

  lemma {:induction false} RegsKeptByCases(n: nat, b: nat, s: Sym, v: int, known: bool, cases: seq<(int, nat)>)
    ensures AddCases(n, b, s, v, known, cases).regs == s.regs
  {
    if cases != [] { RegsKeptByCases(n, b, s, v, known, cases[..|cases| - 1]); }
  }

  lemma {:induction false} MachineInRange(p: Program, init: Config, b: nat)
    requires p != [] && b <= |p|
    ensures Before(p, init, b).At? ==> Before(p, init, b).block < |p|
  {
    if b > 0 { MachineInRange(p, init, b - 1); }
  }

  /** A block that is not executed is one the machine is not in. */
  lemma NotStarted(p: Program, s: Sym, u: Sym, b: nat, srcs: seq<nat>, m: Machine)
    requires b < |p| && Cut(|p|, s, b, m)
    requires srcs == [] ==> u == s && forall x: nat :: Arc(b, x) !in s.pending
    requires srcs != [] ==> Sources(s, b, srcs) && u == StartFrom(s, b, srcs) && !Viable(u)
    ensures Cut(|p|, u, b + 1, m) && (m.At? ==> m.block > b)
  {
    if srcs == [] {
      SkipBlock(|p|, s, b, m);
    } else {
      StartInside(|p|, s, b, srcs, m);
      LeaveDead(p, b, u, m, u.path.val, false);
      EndBlock(|p|, u, b, m);
    }
  }

  lemma NeverStuck(p: Program, init: Config, b: nat)
    requires b <= |p| && Run(p, init) != Done(Stuck)
    ensures Before(p, init, b) != Done(Stuck)
    decreases |p| - b
  {
    if b < |p| { NeverStuck(p, init, b + 1); }
  }

  /** `sinkDomain`: some recorded jump to the sink is taken. */
  ghost predicate SinkDomain(n: nat, s: Sym) {
    exists a :: Taken(s, a) && a.dst == n && UbHolds(s.pending[a])
  }

  /** The executor's answers for the outcome `m`: exactly one of returned, stopped,
      sunk and undefined holds, and a returned value and memory are the machine's. */
  ghost predicate Agrees(n: nat, s: Sym, m: Machine) {
    && m.Done?
    && (SomeTrue(s.retDom) <==> m.o.Returned?)
    && (SomeTrue(s.fnDom) <==> m.o.Returned? || m.o.Stopped?)
    && (SinkDomain(n, s) <==> m.o.Sunk?)
    && (m.o.Undefined? <==> !SomeTrue(s.fnDom) && !SinkDomain(n, s))
    && (m.o.Returned? ==> s.retVal != [] && s.retMem != [] && Mk(s.retVal) == m.o.v && Mk(s.retMem) == m.o.mem)
  }

  lemma FinalAgrees(p: Program, s: Sym, m: Machine)
    requires Cut(|p|, s, |p|, m) && m != Done(Stuck) && (m.At? ==> m.block < |p|)
    ensures Agrees(|p|, s, m)
  {
    if m.o.Returned? {
      MkPicks(s.retVal);
      MkPicks(s.retMem);
    }
  }
}
