/** Which memories the executor records for a run: those at every call that does not
    return and at the return, along the path that the path conditions describe. That
    path is not ended by undefined behaviour or by a call that does not return. */
module PathRecords {
  import opened Exprs
  import FnCalls
  import opened SymExec

  // ---------------------------------------------------------------------
  // Following the path
  // ---------------------------------------------------------------------

  /** The state on the path: the UB condition so far, and whether the path condition
      has folded to a literal. */
  datatype PathState = PathState(prev: int, regs: Regs, mem: Mem, ub: Cond, lit: bool)

  datatype Place =
    | On(block: nat, c: PathState)
    | Gone      // returned, unreachable, or dropped because its UB condition folded to false
    | Sank
    | Wrong     // read a register that is not defined: not an SSA program

  /** A recorded memory, and whether its domain folded to a literal. */
  datatype Record = Record(mem: Mem, lit: bool)

  /** Where the path is, and what was recorded on it so far. */
  datatype Track = Track(at: Place, log: seq<Record>) {
    predicate Here(b: nat) { at.On? && at.block == b }
  }

  predicate SomeLit(log: seq<Record>) { exists k :: 0 <= k < |log| && log[k].lit }

  /** The memories that may be the result: the last record under a literal replaces
      all earlier ones and hides all later ones; without one it may be any. */
  function Settled(log: seq<Record>): set<Mem> {
    if log == [] then {}
    else
      var r, rest := log[|log| - 1], log[..|log| - 1];
      if r.lit then {r.mem} else if SomeLit(rest) then Settled(rest) else Settled(rest) + {r.mem}
  }

  lemma SettledNext(log: seq<Record>, r: Record)
    ensures Settled(log + [r]) == if r.lit then {r.mem} else if SomeLit(log) then Settled(log) else Settled(log) + {r.mem}
    ensures SomeLit(log + [r]) <==> r.lit || SomeLit(log)
  {
    var all := log + [r];
    assert all[..|log|] == log && all[|log|] == r;
    if k :| 0 <= k < |log| && log[k].lit { assert all[k].lit; }
  }

  function TrackInstr(b: nat, t: Track, i: Instr): Track {
    if !t.Here(b) then t
    else
      var c := t.at.c;
      match i
      case Phi(d, args) =>
        var r := FirstFrom(args, c.prev);
        if Selects(args, c.prev, r) && r in c.regs then t.(at := On(b, c.(regs := c.regs[d := c.regs[r]])))
        else t.(at := Wrong)
      case Compute(d, ops, f) =>
        if Defined(c.regs, ops) then t.(at := On(b, c.(regs := c.regs[d := f(Operands(c.regs, ops), c.mem)])))
        else t.(at := Wrong)
      case Update(ops, g) =>
        if Defined(c.regs, ops) then t.(at := On(b, c.(mem := g(Operands(c.regs, ops), c.mem)))) else t.(at := Wrong)
      case Require(ops, ub) =>
        if Defined(c.regs, ops) then t.(at := On(b, c.(ub := c.ub.And(ub(Operands(c.regs, ops), c.mem)))))
        else t.(at := Wrong)
      case Call(fn, access, ops, stops, g) =>
        if !Defined(c.regs, ops) then t.(at := Wrong)
        else
          var u := TrackStop(b, t, stops(Operands(c.regs, ops), c.mem));
          u.(at := On(b, u.at.c.(mem := g(Operands(c.regs, ops), c.mem))))
  }

  /** A call that does not return if `stop` holds; the path goes on in either case. */
  function TrackStop(b: nat, t: Track, stop: Cond): (u: Track)
    requires t.Here(b)
    ensures u.Here(b) && u.at.c.mem == t.at.c.mem && u.at.c.regs == t.at.c.regs && u.at.c.prev == t.at.c.prev
  {
    var c := t.at.c;
    if stop.IsFalse() then t
    else Track(On(b, c.(ub := c.ub.And(stop.Not()))),
               if stop.val then t.log + [Record(c.mem, c.lit && stop.known)] else t.log)
  }

  /** A jump on a condition that holds; `lit` says whether it is a literal. */
  function TrackJump(n: nat, b: nat, t: Track, taken: bool, d: nat, lit: bool): Track {
    if !t.Here(b) || !taken then t
    else if t.at.c.ub.IsFalse() then t.(at := Gone)
    else if b < d < n then t.(at := On(d, t.at.c.(prev := b, lit := t.at.c.lit && lit)))
    else t.(at := Sank)
  }

  function TrackTerm(n: nat, b: nat, t: Track, term: Term): Track {
    if !t.Here(b) then t
    else
      var c := t.at.c;
      match term
      case Jump(d) => TrackJump(n, b, t, true, d, true)
      case Branch(r, known, x, y) =>
        if r !in c.regs then t.(at := Wrong) else TrackJump(n, b, t, true, if c.regs[r] != 0 then x else y, known)
      case Switch(r, known, cases, d) =>
        if r !in c.regs then t.(at := Wrong)
        else TrackJump(n, b, t, true, CaseTarget(cases, d, c.regs[r]), known || cases == [])
      case Return(r) =>
        if r !in c.regs then t.(at := Wrong) else Track(Gone, t.log + [Record(c.mem, c.lit)])
      case Unreachable => t.(at := Gone)
  }

  function TrackInstrs(b: nat, t: Track, code: seq<Instr>): Track {
    if code == [] then t else TrackInstr(b, TrackInstrs(b, t, code[..|code| - 1]), code[|code| - 1])
  }

  function TrackBlock(p: Program, b: nat, t: Track): Track
    requires b < |p|
  {
    TrackTerm(|p|, b, TrackInstrs(b, t, p[b].body), p[b].term)
  }

  function Start(init: Config): Track {
    Track(On(0, PathState(init.prev, init.regs, init.mem, TRUE, true)), [])
  }

  /** The path when all blocks before `b` have had their turn. */
  function TrackBefore(p: Program, init: Config, b: nat): Track
    requires b <= |p|
  {
    if b == 0 then Start(init) else TrackBlock(p, b - 1, TrackBefore(p, init, b - 1))
  }

  /** What is recorded for a run, in order, and whether its path is well defined to the end. */
  function Records(p: Program, init: Config): seq<Record> { TrackBefore(p, init, |p|).log }
  predicate PathOk(p: Program, init: Config) { TrackBefore(p, init, |p|).at != Wrong }

  // ---------------------------------------------------------------------
  // Literal conditions
  // ---------------------------------------------------------------------

  /** No literal `false` is stored. */
  ghost predicate NoFalse(cs: seq<Cond>) {
    forall i :: 0 <= i < |cs| && cs[i].known ==> cs[i].val
  }

  ghost predicate SomeLiteral(cs: seq<Cond>) {
    exists i :: 0 <= i < |cs| && cs[i].IsTrue()
  }

  lemma {:induction false} OrLiteral(cs: seq<Cond>)
    requires NoFalse(cs)
    ensures Or(cs).IsTrue() <==> SomeLiteral(cs)
    ensures cs != [] && !SomeLiteral(cs) ==> !Or(cs).known
  {
    if cs != [] {
      OrLiteral(cs[1..]);
      if SomeLiteral(cs[1..]) {
        var i :| 0 <= i < |cs[1..]| && cs[1..][i].IsTrue();
        assert cs[i + 1].IsTrue();
      }
      if i :| 0 <= i < |cs| && cs[i].IsTrue() {
        if i > 0 { assert cs[1..][i - 1].IsTrue(); }
      }
    }
  }

  lemma AddOrLiteral(cs: seq<Cond>, c: Cond)
    requires NoFalse(cs)
    ensures NoFalse(AddOr(cs, c))
    ensures SomeLiteral(AddOr(cs, c)) <==> SomeLiteral(cs) || c.IsTrue()
  {
    var ds := AddOr(cs, c);
    if c.IsTrue() { assert ds[|ds| - 1].IsTrue(); }
    if i :| 0 <= i < |cs| && cs[i].IsTrue() { assert ds[i].IsTrue(); }
    if i :| 0 <= i < |ds| && ds[i].IsTrue() { if i < |cs| { assert cs[i].IsTrue(); } }
  }

  /** Exactly what is stored after adding under a true domain. */
  lemma AddExact<T(!new)>(xs: seq<Guarded<T>>, v: T, on: Cond, w: T)
    ensures Has(Add(xs, v, on), w) <==> (on.val && w == v) || (!on.IsTrue() && Has(xs, w))
  {
    var ys := Add(xs, v, on);
    AddHas(xs, v, on, w);
    if !on.IsTrue() && Has(xs, w) {
      var i :| 0 <= i < |xs| && xs[i].on.val && xs[i].v == w;
      assert ys[i].on.val && ys[i].v == w;
    }
  }

  // ---------------------------------------------------------------------
  // The executor follows the path
  // ---------------------------------------------------------------------

  /** The record hands over the state `c`. */
  ghost predicate Carries(i: Info, c: PathState) {
    && (SomeLiteral(i.paths) <==> c.lit)
    && (forall w :: Has(i.mems, w) ==> w == c.mem)
    && (forall w :: Has(i.ubs, w) ==> w == c.ub)
  }

  ghost predicate PathsOk(s: Sym) {
    PendingOk(s) && forall a :: a in s.pending ==> NoFalse(s.pending[a].paths)
  }

  /** The recorded memories are those of the path. */
  ghost predicate Recs(s: Sym, t: Track) {
    (AnyLiteral(s.retMem) <==> SomeLit(t.log)) && forall w :: Picks(s.retMem, w) <==> w in Settled(t.log)
  }

  /** The records say where the path is, if it is not in a block before `b`. */
  ghost predicate Follows(n: nat, s: Sym, b: nat, t: Track) {
    && (t.at.On? && t.at.block >= b ==>
          t.at.c.prev >= 0 && Taken(s, Arc(t.at.block, t.at.c.prev))
          && Carries(s.pending[Arc(t.at.block, t.at.c.prev)], t.at.c) && !t.at.c.ub.IsFalse())
    && (t.at.On? ==> SubMap(t.at.c.regs, s.regs))
    && (forall a :: Taken(s, a) && a.dst >= b ==>
          (t.at.On? && a == Arc(t.at.block, if t.at.c.prev >= 0 then t.at.c.prev else 0)) || (a.dst == n && t.at.Sank?))
    && Recs(s, t)
  }

  /** Between blocks. */
  ghost predicate PathCut(n: nat, s: Sym, b: nat, t: Track) {
    && (t.at.On? ==> t.at.block >= b)
    && (forall a :: a in s.pending ==> a.src < b)
    && PathsOk(s) && Follows(n, s, b, t)
  }

  /** Inside block `b`; `path` says whether the path is still in it. */
  ghost predicate PathInside(n: nat, s: Sym, b: nat, t: Track, path: bool) {
    && (t.at.On? ==> t.at.block >= b) && (path ==> s.path.val) && (t.Here(b) <==> path)
    && (t.Here(b) ==> s.mem == t.at.c.mem && s.ub == t.at.c.ub && (s.path.IsTrue() <==> t.at.c.lit))
    && (path ==> forall a :: Taken(s, a) ==> a.dst <= b)
    && (forall a :: a in s.pending ==> a.src <= b)
    && (t.Here(b) ==> forall x: nat :: Taken(s, Arc(b, x)) <==> x == t.at.c.prev)
    && PathsOk(s) && Follows(n, s, b + 1, t)
  }

  ghost predicate PathInBody(n: nat, s: Sym, b: nat, t: Track) {
    PathInside(n, s, b, t, s.path.val) && forall a :: a in s.pending ==> a.src < b
  }

  // ---------------------------------------------------------------------
  // Starting a block
  // ---------------------------------------------------------------------

  lemma {:induction false} MergeLiteral(s: Sym, b: nat, srcs: seq<nat>)
    requires PathsOk(s) && forall k :: 0 <= k < |srcs| ==> Arc(b, srcs[k]) in s.pending
    ensures NoFalse(Merge(s.pending, b, srcs).paths)
    ensures SomeLiteral(Merge(s.pending, b, srcs).paths) <==>
            exists k :: 0 <= k < |srcs| && SomeLiteral(s.pending[Arc(b, srcs[k])].paths)
  {
    if srcs != [] {
      var n := |srcs| - 1;
      var m, i := Merge(s.pending, b, srcs[..n]), s.pending[Arc(b, srcs[n])];
      MergeLiteral(s, b, srcs[..n]);
      LiteralConcat(m.paths, i.paths);
      if k :| 0 <= k < |srcs| && SomeLiteral(s.pending[Arc(b, srcs[k])].paths) {
        if k < n { assert SomeLiteral(s.pending[Arc(b, srcs[..n][k])].paths); }
      }
      if SomeLiteral(m.paths) {
        var k :| 0 <= k < n && SomeLiteral(s.pending[Arc(b, srcs[..n][k])].paths);
        assert SomeLiteral(s.pending[Arc(b, srcs[k])].paths);
      }
    }
  }

  lemma LiteralConcat(a: seq<Cond>, b: seq<Cond>)
    ensures SomeLiteral(a + b) <==> SomeLiteral(a) || SomeLiteral(b)
  {
    if i :| 0 <= i < |a| && a[i].IsTrue() { assert (a + b)[i].IsTrue(); }
    if i :| 0 <= i < |b| && b[i].IsTrue() { assert (a + b)[|a| + i].IsTrue(); }
    if i :| 0 <= i < |a + b| && (a + b)[i].IsTrue() { if i < |a| { assert a[i].IsTrue(); } else { assert b[i - |a|].IsTrue(); } }
  }

  /** A literal path condition is that of a jump taken. */
  lemma LiteralTaken(s: Sym, a: Arc)
    requires a in s.pending && SomeLiteral(s.pending[a].paths)
    ensures Taken(s, a)
  {
    var i :| 0 <= i < |s.pending[a].paths| && s.pending[a].paths[i].IsTrue();
    assert s.pending[a].paths[i].val;
  }

  lemma StartOn(n: nat, s: Sym, b: nat, srcs: seq<nat>, t: Track)
    requires PathCut(n, s, b, t) && b < n && Sources(s, b, srcs) && t.Here(b)
    ensures
      var u := StartFrom(s, b, srcs);
      u.path.val && u.mem == t.at.c.mem && u.ub == t.at.c.ub && (u.path.IsTrue() <==> t.at.c.lit)
  {
    var a := Arc(b, t.at.c.prev);
    var g := Merge(s.pending, b, srcs);
    var k :| 0 <= k < |srcs| && srcs[k] == a.src;
    assert TakenFrom(s, b, srcs);
    MergeTaken(s, b, srcs);
    MkPicks(g.ubs);
    MkPicks(g.mems);
    MergeUb(s, b, srcs, Mk(g.ubs));
    MergeMem(s, b, srcs, Mk(g.mems));
    MergeLiteral(s, b, srcs);
    OrLiteral(g.paths);
    if SomeLiteral(g.paths) {
      var j :| 0 <= j < |srcs| && SomeLiteral(s.pending[Arc(b, srcs[j])].paths);
      LiteralTaken(s, Arc(b, srcs[j]));
    }
    if t.at.c.lit { assert SomeLiteral(s.pending[Arc(b, srcs[k])].paths); }
  }

  lemma StartPath(n: nat, s: Sym, b: nat, srcs: seq<nat>, t: Track)
    requires PathCut(n, s, b, t) && b < n && Sources(s, b, srcs)
    ensures var u := StartFrom(s, b, srcs); PathInside(n, u, b, t, u.path.val) && (t.Here(b) ==> Viable(u))
  {
    var u := StartFrom(s, b, srcs);
    MergeTaken(s, b, srcs);
    if t.Here(b) { StartOn(n, s, b, srcs, t); }
    forall a
      ensures Taken(u, a) <==> Taken(s, a)
    {
    }
    if TakenFrom(s, b, srcs) {
      var k :| 0 <= k < |srcs| && Taken(s, Arc(b, srcs[k]));
      assert t.Here(b);
    }
  }

  // ---------------------------------------------------------------------
  // Jumps
  // ---------------------------------------------------------------------

  lemma RecordedCarries(s: Sym, i: Info, c: Cond, st: PathState, lit: bool)
    requires InfoOk(i) && NoFalse(i.paths) && !SomeTrue(i.paths) && c.val
    requires s.mem == st.mem && s.ub == st.ub && (c.IsTrue() <==> lit)
    ensures Carries(Recorded(s, i, c), st.(lit := lit)) && NoFalse(Recorded(s, i, c).paths)
  {
    var r := Recorded(s, i, c);
    AddOrLiteral(i.paths, c);
    forall w
      ensures Has(r.mems, w) ==> w == s.mem
    {
      AddExact(i.mems, s.mem, c, w);
      assert Has(i.mems, w) ==> SomeOn(i.mems);
    }
    forall w
      ensures Has(r.ubs, w) ==> w == s.ub
    {
      AddExact(i.ubs, s.ub, c, w);
      assert Has(i.ubs, w) ==> SomeOn(i.ubs);
    }
  }

  lemma PathJumpTaken(n: nat, b: nat, s: Sym, cond: Cond, d: nat, t: Track)
    requires b < n && PathInside(n, s, b, t, true) && cond.val && Viable(s)
    ensures
      var a, c := ArcTo(n, b, d), cond.And(s.path);
      var u := s.(pending := s.pending[a := Recorded(s, InfoOf(s.pending, a), c)]);
      PathInside(n, u, b, TrackJump(n, b, t, true, d, cond.known), false)
  {
    var a, c := ArcTo(n, b, d), cond.And(s.path);
    var i := InfoOf(s.pending, a);
    assert !SomeTrue(i.paths) by { if a in s.pending { assert !Taken(s, a); } }
    RecordedOk(s, i, c);
    RecordedCarries(s, i, c, t.at.c, t.at.c.lit && cond.known);
    var u := s.(pending := s.pending[a := Recorded(s, i, c)]);
    forall x | Taken(u, x) && x.dst >= b + 1
      ensures x == a
    {
      assert x == a || Taken(s, x);
    }
    assert Taken(u, a);
    CarriesPrev(u.pending[a], t.at.c.(lit := t.at.c.lit && cond.known), b);
  }

  lemma CarriesPrev(i: Info, c: PathState, b: nat)
    requires Carries(i, c)
    ensures Carries(i, c.(prev := b))
  {
  }

  lemma PathJumpNotTaken(n: nat, b: nat, s: Sym, c: Cond, d: nat, t: Track, path: bool)
    requires b < n && PathInside(n, s, b, t, path) && !c.val
    ensures
      var a := ArcTo(n, b, d);
      var u := s.(pending := s.pending[a := Recorded(s, InfoOf(s.pending, a), c)]);
      PathInside(n, u, b, t, path)
  {
    var a := ArcTo(n, b, d);
    var i := InfoOf(s.pending, a);
    RecordedOk(s, i, c);
    AddOrLiteral(i.paths, c);
    var u := s.(pending := s.pending[a := Recorded(s, i, c)]);
    assert forall x :: Taken(u, x) <==> Taken(s, x);
    if t.at.On? && t.at.block >= b + 1 && a == Arc(t.at.block, t.at.c.prev) {
      forall w
        ensures Has(u.pending[a].mems, w) ==> Has(i.mems, w)
      {
        AddExact(i.mems, s.mem, c, w);
      }
      forall w
        ensures Has(u.pending[a].ubs, w) ==> Has(i.ubs, w)
      {
        AddExact(i.ubs, s.ub, c, w);
      }
    }
  }

  lemma PathDrop(n: nat, b: nat, s: Sym, t: Track)
    requires b < n && PathInside(n, s, b, t, false)
    ensures PathInside(n, AddUB(s, FALSE), b, t, false)
  {
    var u := AddUB(s, FALSE);
    assert forall x :: Taken(u, x) <==> Taken(s, x);
  }

  lemma PathJumpStep(n: nat, b: nat, s: Sym, cond: Cond, d: nat, always: bool, t: Track, path: bool)
    requires b < n && PathInside(n, s, b, t, path)
    requires cond.val && s.path.val ==> path
    requires always ==> (path ==> cond.val)
    ensures PathInside(n, AddJump(n, b, s, cond, d, always), b, TrackJump(n, b, t, cond.val, d, cond.known), path && !cond.val)
  {
    var c := cond.And(s.path);
    if c.IsFalse() || !Viable(s) {
    } else {
      var a := ArcTo(n, b, d);
      var u := s.(pending := s.pending[a := Recorded(s, InfoOf(s.pending, a), c)]);
      if c.val {
        PathJumpTaken(n, b, s, cond, d, t);
      } else {
        PathJumpNotTaken(n, b, s, c, d, t, path);
      }
      if always || cond.IsTrue() { PathDrop(n, b, u, TrackJump(n, b, t, cond.val, d, cond.known)); }
    }
  }

  // ---------------------------------------------------------------------
  // Instructions
  // ---------------------------------------------------------------------

  lemma PathWrite(n: nat, s: Sym, b: nat, t: Track, d: nat, v: int)
    requires PathInBody(n, s, b, t) && d !in s.regs
    ensures
      var t' := if t.Here(b) then t.(at := On(b, t.at.c.(regs := t.at.c.regs[d := v]))) else t;
      PathInBody(n, s.(regs := s.regs[d := v]), b, t')
  {
    var u := s.(regs := s.regs[d := v]);
    assert forall x :: Taken(u, x) <==> Taken(s, x);
  }

  lemma PathMemory(n: nat, s: Sym, b: nat, t: Track, mem: Mem, ranges: FnCalls.Ranges)
    requires PathInBody(n, s, b, t)
    ensures
      var t' := if t.Here(b) then t.(at := On(b, t.at.c.(mem := mem))) else t;
      PathInBody(n, s.(mem := mem, ranges := ranges), b, t')
  {
    var u := s.(mem := mem, ranges := ranges);
    assert forall x :: Taken(u, x) <==> Taken(s, x);
  }

  lemma PathUb(n: nat, s: Sym, b: nat, t: Track, c: Cond)
    requires PathInBody(n, s, b, t)
    ensures
      var t' := if t.Here(b) then t.(at := On(b, t.at.c.(ub := t.at.c.ub.And(c)))) else t;
      PathInBody(n, AddUB(s, c), b, t')
  {
    var u := AddUB(s, c);
    assert forall x :: Taken(u, x) <==> Taken(s, x);
  }

  lemma PathStop(n: nat, s: Sym, b: nat, t: Track, stop: Cond)
    requires PathInBody(n, s, b, t)
    ensures PathInBody(n, AddNoReturn(s, stop), b, if t.Here(b) then TrackStop(b, t, stop) else t)
  {
    if !stop.IsFalse() {
      PathUb(n, s, b, t, stop.Not());
      var u := AddNoReturn(s, stop);
      assert forall x :: Taken(u, x) <==> Taken(s, x);
      StopRecs(n, s, b, t, stop);
    }
  }

  lemma StopRecs(n: nat, s: Sym, b: nat, t: Track, stop: Cond)
    requires PathInBody(n, s, b, t) && !stop.IsFalse()
    ensures Recs(AddNoReturn(s, stop), if t.Here(b) then TrackStop(b, t, stop) else t)
  {
    var u := AddNoReturn(s, stop);
    var t' := if t.Here(b) then TrackStop(b, t, stop) else t;
    if t.Here(b) { SettledNext(t.log, Record(t.at.c.mem, t.at.c.lit && stop.known)); }
    AddPicks(s.retMem, s.mem, s.path.And(stop), s.mem);
    forall w
      ensures Picks(u.retMem, w) <==> w in Settled(t'.log)
    {
      AddPicks(s.retMem, s.mem, s.path.And(stop), w);
    }
  }

  lemma PathPhi(n: nat, s: Sym, b: nat, t: Track, d: nat, args: seq<(nat, nat)>)
    requires PathInBody(n, s, b, t) && d !in s.regs && TrackInstr(b, t, Phi(d, args)).at != Wrong
    ensures PathInBody(n, SymInstr(b, s, Phi(d, args)), b, TrackInstr(b, t, Phi(d, args)))
  {
    var vs := PhiVals(b, s, args);
    if t.Here(b) {
      PhiPicks(b, s, args, t.at.c.prev, FirstFrom(args, t.at.c.prev));
    }
    PathWrite(n, s, b, t, d, if vs == [] then 0 else Mk(vs));
  }

  lemma PathCall(n: nat, s: Sym, b: nat, t: Track, i: Instr)
    requires PathInBody(n, s, b, t) && i.Call? && TrackInstr(b, t, i).at != Wrong
    ensures PathInBody(n, SymInstr(b, s, i), b, TrackInstr(b, t, i))
  {
    if t.Here(b) { ReadSame(t.at.c.regs, s.regs, i.ops); }
    var stop := i.stops(ReadAll(s.regs, i.ops), s.mem);
    PathStop(n, s, b, t, stop);
    var t1 := if t.Here(b) then TrackStop(b, t, stop) else t;
    PathMemory(n, AddNoReturn(s, stop), b, t1, i.g(ReadAll(s.regs, i.ops), s.mem), FnCalls.Inc(s.ranges, i.fn, i.access));
  }

  lemma PathInstrStep(n: nat, s: Sym, b: nat, t: Track, i: Instr)
    requires PathInBody(n, s, b, t) && WritesFresh(s, i) && TrackInstr(b, t, i).at != Wrong
    ensures PathInBody(n, SymInstr(b, s, i), b, TrackInstr(b, t, i))
  {
    match i
    case Phi(d, args) => PathPhi(n, s, b, t, d, args);
    case Compute(d, ops, f) =>
      if t.Here(b) { ReadSame(t.at.c.regs, s.regs, ops); }
      PathWrite(n, s, b, t, d, f(ReadAll(s.regs, ops), s.mem));
    case Update(ops, g) =>
      if t.Here(b) { ReadSame(t.at.c.regs, s.regs, ops); }
      PathMemory(n, s, b, t, g(ReadAll(s.regs, ops), s.mem), s.ranges);
    case Require(ops, ub) =>
      if t.Here(b) { ReadSame(t.at.c.regs, s.regs, ops); }
      PathUb(n, s, b, t, ub(ReadAll(s.regs, ops), s.mem));
    case Call(_, _, _, _, _) => PathCall(n, s, b, t, i);
  }

  // ---------------------------------------------------------------------
  // Terminators
  // ---------------------------------------------------------------------

  /** The path has left the block. */
  ghost predicate PathLeft(n: nat, s: Sym, b: nat, t: Track) {
    PathInside(n, s, b, t, false)
  }

  lemma PathBranch(n: nat, s: Sym, b: nat, t: Track, r: nat, known: bool, x: nat, y: nat)
    requires b < n && PathInBody(n, s, b, t) && TrackTerm(n, b, t, Branch(r, known, x, y)).at != Wrong
    ensures PathLeft(n, SymTerm(n, b, s, Branch(r, known, x, y)), b, TrackTerm(n, b, t, Branch(r, known, x, y)))
  {
    var isFalse := Cond(Read(s.regs, r) == 0, known);
    PathJumpStep(n, b, s, isFalse.Not(), x, false, t, s.path.val);
    var u, t1 := AddJump(n, b, s, isFalse.Not(), x, false), TrackJump(n, b, t, !isFalse.val, x, known);
    PathJumpStep(n, b, u, isFalse, y, true, t1, s.path.val && isFalse.val);
  }

  lemma {:induction false} PathCases(n: nat, s: Sym, b: nat, t: Track, v: int, known: bool, cases: seq<(int, nat)>, default: nat)
    requires b < n && PathInBody(n, s, b, t) && DistinctCases(cases)
    ensures
      var u := AddCases(n, b, s, v, known, cases);
      && PathInside(n, u, b, TrackJump(n, b, t, Matches(cases, v), CaseTarget(cases, default, v), known),
                    s.path.val && !Matches(cases, v))
      && u.path == s.path
  {
    if cases != [] {
      var k := |cases| - 1;
      PathCases(n, s, b, t, v, known, cases[..k], default);
      MatchesPrefix(cases, v);
      CaseTargetLast(cases, default, v);
      PathJumpStep(n, b, AddCases(n, b, s, v, known, cases[..k]), Cond(v == cases[k].0, known), cases[k].1, false,
                   TrackJump(n, b, t, Matches(cases[..k], v), CaseTarget(cases[..k], default, v), known),
                   s.path.val && !Matches(cases[..k], v));
    }
  }

  /** Without a matching case the default is taken on a literal condition exactly if
      all comparisons fold, or there are none. */
  lemma {:induction false} DefaultKnown(v: int, known: bool, cases: seq<(int, nat)>)
    requires !Matches(cases, v)
    ensures DefaultCond(v, known, cases) == Cond(true, known || cases == [])
  {
    if cases != [] {
      MatchesPrefix(cases, v);
      DefaultKnown(v, known, cases[..|cases| - 1]);
    }
  }

  lemma PathSwitch(n: nat, s: Sym, b: nat, t: Track, r: nat, known: bool, cases: seq<(int, nat)>, d: nat)
    requires b < n && PathInBody(n, s, b, t) && DistinctCases(cases)
    requires TrackTerm(n, b, t, Switch(r, known, cases, d)).at != Wrong
    ensures PathLeft(n, SymTerm(n, b, s, Switch(r, known, cases, d)), b, TrackTerm(n, b, t, Switch(r, known, cases, d)))
  {
    var v := Read(s.regs, r);
    PathCases(n, s, b, t, v, known, cases, d);
    DefaultCondVal(v, known, cases);
    var u := AddCases(n, b, s, v, known, cases);
    var t1 := TrackJump(n, b, t, Matches(cases, v), CaseTarget(cases, d, v), known);
    if !Matches(cases, v) {
      CaseTargetDefault(cases, d, v);
      DefaultKnown(v, known, cases);
    }
    PathJumpStep(n, b, u, DefaultCond(v, known, cases), d, true, t1, s.path.val && !Matches(cases, v));
  }

  lemma PathReturn(n: nat, s: Sym, b: nat, t: Track, v: int)
    requires PathInBody(n, s, b, t)
    ensures
      var t' := if t.Here(b) then Track(Gone, t.log + [Record(t.at.c.mem, t.at.c.lit)]) else t;
      PathLeft(n, AddReturn(s, v), b, t')
  {
    var u := AddReturn(s, v);
    assert forall x :: Taken(u, x) <==> Taken(s, x);
    var t' := if t.Here(b) then Track(Gone, t.log + [Record(t.at.c.mem, t.at.c.lit)]) else t;
    if t.Here(b) { SettledNext(t.log, Record(t.at.c.mem, t.at.c.lit)); }
    AddPicks(s.retMem, s.mem, s.path, s.mem);
    forall w
      ensures Picks(u.retMem, w) <==> w in Settled(t'.log)
    {
      AddPicks(s.retMem, s.mem, s.path, w);
    }
  }

  lemma PathTermStep(n: nat, s: Sym, b: nat, t: Track, term: Term)
    requires b < n && PathInBody(n, s, b, t) && TermOk(term) && TrackTerm(n, b, t, term).at != Wrong
    ensures PathLeft(n, SymTerm(n, b, s, term), b, TrackTerm(n, b, t, term))
  {
    match term
    case Jump(d) => PathJumpStep(n, b, s, TRUE, d, true, t, s.path.val);
    case Branch(r, known, x, y) => PathBranch(n, s, b, t, r, known, x, y);
    case Switch(r, known, cases, d) => PathSwitch(n, s, b, t, r, known, cases, d);
    case Return(r) => PathReturn(n, s, b, t, Read(s.regs, r));
    case Unreachable =>
      var u := AddUB(s, FALSE);
      assert forall x :: Taken(u, x) <==> Taken(s, x);
  }

  // ---------------------------------------------------------------------
  // Blocks and runs
  // ---------------------------------------------------------------------

  /** Once wrong, always wrong. */
  lemma {:induction false} WrongStays(b: nat, t: Track, code: seq<Instr>, k: nat)
    requires k <= |code| && TrackInstrs(b, t, code[..k]).at == Wrong
    ensures TrackInstrs(b, t, code).at == Wrong
    decreases |code| - k
  {
    if k < |code| {
      assert code[..k + 1][..k] == code[..k];
      WrongStays(b, t, code, k + 1);
    } else {
      assert code[..k] == code;
    }
  }

  lemma {:induction false} PathBodyStep(p: Program, b: nat, k: nat, s: Sym, inputs: Regs, t: Track)
    requires Ssa(p, inputs) && b < |p| && k <= |p[b].body| && Unwritten(p, b, 0, s.regs) && PathInBody(|p|, s, b, t)
    requires TrackInstrs(b, t, p[b].body).at != Wrong
    ensures PathInBody(|p|, SymInstrs(b, s, p[b].body[..k]), b, TrackInstrs(b, t, p[b].body[..k]))
  {
    var code := p[b].body;
    if k > 0 {
      PathBodyStep(p, b, k - 1, s, inputs, t);
      BodyFresh(p, b, k - 1, s, inputs);
      assert code[..k][..k - 1] == code[..k - 1];
      if TrackInstrs(b, t, code[..k]).at == Wrong { WrongStays(b, t, code, k); }
      var u := SymInstrs(b, s, code[..k - 1]);
      WritesNext(p, b, k - 1, u, inputs);
      PathInstrStep(|p|, u, b, TrackInstrs(b, t, code[..k - 1]), code[k - 1]);
    }
  }

  lemma PathBlockStep(p: Program, b: nat, s: Sym, inputs: Regs, t: Track)
    requires Ssa(p, inputs) && b < |p| && Unwritten(p, b, 0, s.regs) && PathInBody(|p|, s, b, t)
    requires TrackBlock(p, b, t).at != Wrong
    ensures PathCut(|p|, SymBlock(p, b, s), b + 1, TrackBlock(p, b, t))
  {
    var code := p[b].body;
    assert code[..|code|] == code;
    PathBodyStep(p, b, |code|, s, inputs, t);
    PathTermStep(|p|, SymInstrs(b, s, code), b, TrackInstrs(b, t, code), p[b].term);
  }

  /** A block the path is not in leaves it where it is. */
  lemma {:induction false} NotHere(p: Program, b: nat, t: Track)
    requires b < |p| && !t.Here(b)
    ensures TrackBlock(p, b, t) == t
  {
    NotHereInstrs(b, t, p[b].body);
  }

  lemma {:induction false} NotHereInstrs(b: nat, t: Track, code: seq<Instr>)
    requires !t.Here(b)
    ensures TrackInstrs(b, t, code) == t
  {
    if code != [] { NotHereInstrs(b, t, code[..|code| - 1]); }
  }

  lemma PathNotStarted(p: Program, s: Sym, u: Sym, b: nat, srcs: seq<nat>, t: Track)
    requires b < |p| && PathCut(|p|, s, b, t)
    requires srcs == [] ==> u == s && forall x: nat :: Arc(b, x) !in s.pending
    requires srcs != [] ==> Sources(s, b, srcs) && u == StartFrom(s, b, srcs) && !Viable(u)
    ensures PathCut(|p|, u, b + 1, TrackBlock(p, b, t))
  {
    if srcs != [] { StartPath(|p|, s, b, srcs, t); }
    assert !t.Here(b);
    NotHere(p, b, t);
    assert forall x :: Taken(u, x) <==> Taken(s, x);
  }

  lemma PathInitial(n: nat, init: Config)
    requires n > 0 && init.prev == -1
    ensures PathInBody(n, Initial(init), 0, Start(init))
  {
  }

  lemma NeverWrong(p: Program, init: Config, b: nat)
    requires b <= |p| && PathOk(p, init)
    ensures TrackBefore(p, init, b).at != Wrong
    decreases |p| - b
  {
    if b < |p| {
      NeverWrong(p, init, b + 1);
      if TrackBefore(p, init, b).at == Wrong { NotHere(p, b, TrackBefore(p, init, b)); }
    }
  }

  // ---------------------------------------------------------------------
  // The memory of a run that a call ended
  // ---------------------------------------------------------------------

  /** The machine is on the path, which has recorded nothing yet. */
  ghost predicate Together(b: nat, c: Config, t: Track) {
    t.Here(b) && t.log == [] && t.at.c.prev == c.prev && t.at.c.regs == c.regs && t.at.c.mem == c.mem && t.at.c.ub.val
  }

  /** The record of the call that ended the run is the first one. */
  ghost predicate StartsWith(t: Track, m: Mem) {
    t.log != [] && t.log[0].mem == m
  }

  /** What an instruction does to both. */
  lemma InstrTogether(b: nat, c: Config, t: Track, i: Instr)
    requires Together(b, c, t) && DoInstr(i, c) != End(Stuck)
    ensures DoInstr(i, c).Next? ==> Together(b, DoInstr(i, c).cfg, TrackInstr(b, t, i))
    ensures DoInstr(i, c).End? ==> TrackInstr(b, t, i).Here(b)
    ensures DoInstr(i, c).End? && DoInstr(i, c).o.Stopped? ==>
              i.Call? && StartsWith(TrackInstr(b, t, i), DoInstr(i, c).o.mem) && |TrackInstr(b, t, i).log| == 1
  {
  }

  /** Records are only ever added. */
  lemma {:induction false} LogGrows(b: nat, t: Track, code: seq<Instr>, k: nat)
    requires k <= |code|
    ensures TrackInstrs(b, t, code[..k]).log <= TrackInstrs(b, t, code).log
    decreases |code| - k
  {
    if k < |code| {
      assert code[..k + 1][..k] == code[..k];
      LogGrows(b, t, code, k + 1);
    } else {
      assert code[..k] == code;
    }
  }

  lemma {:induction false} InstrsTogether(b: nat, c: Config, t: Track, code: seq<Instr>)
    requires Together(b, c, t) && DoInstrs(code, c) != End(Stuck)
    ensures DoInstrs(code, c).Next? ==> Together(b, DoInstrs(code, c).cfg, TrackInstrs(b, t, code))
    ensures DoInstrs(code, c).End? && DoInstrs(code, c).o.Stopped? ==>
              StartsWith(TrackInstrs(b, t, code), DoInstrs(code, c).o.mem)
  {
    if code != [] {
      var n := |code| - 1;
      InstrsTogether(b, c, t, code[..n]);
      if DoInstrs(code[..n], c).Next? {
        InstrTogether(b, DoInstrs(code[..n], c).cfg, TrackInstrs(b, t, code[..n]), code[n]);
      } else {
        LogGrows(b, t, code, n);
      }
    }
  }

  lemma BlockTogether(p: Program, b: nat, c: Config, t: Track)
    requires b < |p| && TermOk(p[b].term) && Together(b, c, t) && RunBlock(p, b, c) != Done(Stuck)
    ensures
      var m, u := RunBlock(p, b, c), TrackBlock(p, b, t);
      && (m.At? ==> Together(m.block, m.cfg, u))
      && (m.Done? && m.o.Stopped? ==> StartsWith(u, m.o.mem))
  {
    InstrsTogether(b, c, t, p[b].body);
  }

  /** The run and its path, when all blocks before `b` have had their turn. */
  lemma {:induction false} RunTogether(p: Program, init: Config, b: nat)
    requires b <= |p| && Ssa(p, init.regs) && Before(p, init, b) != Done(Stuck)
    ensures Before(p, init, b).At? ==> Together(Before(p, init, b).block, Before(p, init, b).cfg, TrackBefore(p, init, b))
    ensures Before(p, init, b).Done? && Before(p, init, b).o.Stopped? ==>
              StartsWith(TrackBefore(p, init, b), Before(p, init, b).o.mem)
  {
    if b > 0 {
      RunTogether(p, init, b - 1);
      var m, t := Before(p, init, b - 1), TrackBefore(p, init, b - 1);
      if m.At? && m.block == b - 1 {
        BlockTogether(p, b - 1, m.cfg, t);
      } else if m.At? {
        NotHere(p, b - 1, t);
      } else {
        LogGrows(b - 1, t, p[b - 1].body, 0);
      }
    }
  }

  /** The last record under a literal, or the first one. */
  function LastLiteral(log: seq<Record>): (k: nat)
    ensures log != [] ==> k < |log|
  {
    if log == [] then 0
    else if log[|log| - 1].lit then |log| - 1
    else LastLiteral(log[..|log| - 1])
  }

  lemma {:induction false} LastSettled(log: seq<Record>)
    requires SomeLit(log)
    ensures log[LastLiteral(log)].lit && Settled(log) == {log[LastLiteral(log)].mem}
  {
    var n := |log| - 1;
    var rest := log[..n];
    if !log[n].lit {
      var k :| 0 <= k < |log| && log[k].lit;
      assert rest[k].lit;
      LastSettled(rest);
    }
  }

  lemma {:induction false} AllSettled(log: seq<Record>, w: Mem)
    requires !SomeLit(log)
    ensures w in Settled(log) <==> HasRecord(log, w)
  {
    if log != [] {
      var n := |log| - 1;
      var rest := log[..n];
      assert forall k :: 0 <= k < n ==> rest[k] == log[k];
      AllSettled(rest, w);
      RecordNext(rest, log[n], w);
      assert log == rest + [log[n]];
    }
  }

  predicate HasRecord(log: seq<Record>, w: Mem) { exists k :: 0 <= k < |log| && log[k].mem == w }

  lemma RecordNext(log: seq<Record>, r: Record, w: Mem)
    ensures HasRecord(log + [r], w) <==> HasRecord(log, w) || r.mem == w
  {
    var all := log + [r];
    assert all[|log|] == r;
    if k :| 0 <= k < |log| && log[k].mem == w { assert all[k].mem == w; }
    if k :| 0 <= k < |all| && all[k].mem == w { if k < |log| { assert log[k].mem == w; } }
  }

  lemma SettledIff(log: seq<Record>, w: Mem)
    requires log != []
    ensures w in Settled(log) <==> if SomeLit(log) then log[LastLiteral(log)].mem == w else HasRecord(log, w)
    ensures SomeLit(log) ==> log[LastLiteral(log)].lit
  {
    if SomeLit(log) { LastSettled(log); } else { AllSettled(log, w); }
  }

  /** A run that a call ended keeps its memory, in whatever order the entries are
      merged, exactly if the last record under a literal on the path holds it, or, if
      there is none, all records do. The path goes on past the call as if it had
      returned. */
  lemma StoppedMemoryIff(p: Program, init: Config, retMem: seq<Guarded<Mem>>)
    requires Ssa(p, init.regs) && Run(p, init).Done? && Run(p, init).o.Stopped? && PathOk(p, init)
    requires forall w :: Picks(retMem, w) <==> w in Settled(Records(p, init))
    ensures Records(p, init) != [] && Records(p, init)[0].mem == Run(p, init).o.mem
    ensures OnlyPicks(retMem, Run(p, init).o.mem) <==>
            var log := Records(p, init);
            if SomeLit(log) then log[LastLiteral(log)].mem == Run(p, init).o.mem
            else forall k :: 0 <= k < |log| ==> log[k].mem == Run(p, init).o.mem
  {
    RunTogether(p, init, |p|);
    var log, m := Records(p, init), Run(p, init).o.mem;
    var k := LastLiteral(log);
    SettledIff(log, log[k].mem);
    assert Picks(retMem, log[k].mem);
    if OnlyPicks(retMem, m) {
      forall j | 0 <= j < |log| && !SomeLit(log)
        ensures log[j].mem == m
      {
        SettledIff(log, log[j].mem);
        assert Picks(retMem, log[j].mem);
      }
    } else {
      var w :| Picks(retMem, w) && w != m;
      SettledIff(log, w);
    }
  }

  // ---------------------------------------------------------------------
  // A guard in the program text
  // ---------------------------------------------------------------------

  /** The call at `k` can end a run. */
  ghost predicate MayStop(code: seq<Instr>, k: nat) {
    k < |code| && code[k].Call? && exists args: seq<int>, mem: Mem :: code[k].stops(args, mem).val
  }

  /** Behind a call that may not return there is no other call, and the block ends
      in `unreachable`. */
  ghost predicate StopsLast(blk: Block) {
    forall k: nat :: MayStop(blk.body, k) ==> blk.term.Unreachable? && forall j :: k < j < |blk.body| ==> !blk.body[j].Call?
  }

  lemma {:induction false} LogKept(b: nat, t: Track, code: seq<Instr>, k: nat)
    requires k <= |code| && forall j :: k <= j < |code| ==> !code[j].Call?
    ensures TrackInstrs(b, t, code).log == TrackInstrs(b, t, code[..k]).log
    decreases |code|
  {
    var n := |code| - 1;
    if k < |code| {
      LogKept(b, t, code[..n], k);
      assert code[..n][..k] == code[..k];
    } else {
      assert code[..k] == code;
    }
  }

  /** Where the run stopped in a block. */
  lemma {:induction false} StopsAt(b: nat, c: Config, t: Track, code: seq<Instr>) returns (k: nat)
    requires Together(b, c, t) && DoInstrs(code, c).End? && DoInstrs(code, c).o.Stopped?
    ensures MayStop(code, k) && |TrackInstrs(b, t, code[..k + 1]).log| == 1
  {
    var n := |code| - 1;
    if DoInstrs(code[..n], c).Next? {
      InstrsTogether(b, c, t, code[..n]);
      var d := DoInstrs(code[..n], c).cfg;
      InstrTogether(b, d, TrackInstrs(b, t, code[..n]), code[n]);
      k := n;
      assert code[..n + 1] == code;
      assert code[n].stops(Operands(d.regs, code[n].ops), d.mem).val;
    } else {
      k := StopsAt(b, c, t, code[..n]);
      assert code[..n][..k + 1] == code[..k + 1];
      assert code[k].stops == code[..n][k].stops;
    }
  }

  lemma {:induction false} GuardedRun(p: Program, init: Config, b: nat)
    requires b <= |p| && Ssa(p, init.regs) && forall x :: 0 <= x < |p| ==> StopsLast(p[x])
    requires Before(p, init, b).Done? && Before(p, init, b).o.Stopped?
    ensures !TrackBefore(p, init, b).at.On? && |TrackBefore(p, init, b).log| == 1
  {
    var m, t := Before(p, init, b - 1), TrackBefore(p, init, b - 1);
    if m.Done? {
      GuardedRun(p, init, b - 1);
      NotHere(p, b - 1, t);
    } else {
      RunTogether(p, init, b - 1);
      var blk := p[b - 1];
      var k := StopsAt(b - 1, m.cfg, t, blk.body);
      assert StopsLast(blk);
      LogKept(b - 1, t, blk.body, k + 1);
      LandsHere(b - 1, t, blk.body);
    }
  }

  /** Instructions stay in the block or go wrong. */
  lemma {:induction false} LandsHere(b: nat, t: Track, code: seq<Instr>)
    requires t.Here(b)
    ensures TrackInstrs(b, t, code).Here(b) || TrackInstrs(b, t, code).at == Wrong
  {
    if code != [] { LandsHere(b, t, code[..|code| - 1]); }
  }

  /** Under the guard the memory of every run that a call ended is kept. */
  lemma GuardKeepsMemory(p: Program, init: Config, retMem: seq<Guarded<Mem>>)
    requires Ssa(p, init.regs) && Run(p, init).Done? && Run(p, init).o.Stopped? && PathOk(p, init)
    requires forall x :: 0 <= x < |p| ==> StopsLast(p[x])
    requires forall w :: Picks(retMem, w) <==> w in Settled(Records(p, init))
    ensures OnlyPicks(retMem, Run(p, init).o.mem)
  {
    StoppedMemoryIff(p, init, retMem);
    GuardedRun(p, init, |p|);
  }
}
