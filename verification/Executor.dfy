/** The driver of the symbolic executor: `State` and `sym_exec`. */
module Executor {
  import opened Exprs
  import opened FnCalls
  import opened PathRecords
  import opened SymExec

  class State {
    var path: Cond
    var ub: Cond
    var mem: Mem
    var ranges: Ranges
    var regs: Regs
    var pending: Pending
    var retVal: seq<Guarded<int>>
    var retMem: seq<Guarded<Mem>>
    var retDom: seq<Cond>
    var fnDom: seq<Cond>

    ghost function S(): Sym
      reads this
    {
      Sym(path, ub, mem, ranges, regs, pending, retVal, retMem, retDom, fnDom)
    }

    constructor (mem: Mem, regs: Regs)
      ensures S() == Sym(TRUE, TRUE, mem, map[], regs, map[], [], [], [], [])
    {
      path, ub := TRUE, TRUE;
      this.mem, this.regs := mem, regs;
      ranges, pending := map[], map[];
      retVal, retMem, retDom, fnDom := [], [], [], [];
    }

    method AddUb(c: Cond)
      modifies this`ub
      ensures S() == AddUB(old(S()), c)
    {
      ub := ub.And(c);
    }

    method AddStop(c: Cond)
      modifies this
      ensures S() == AddNoReturn(old(S()), c)
    {
      if c.IsFalse() {
        return;
      }
      retMem := Add(retMem, mem, path.And(c));
      fnDom := AddOr(fnDom, path.And(ub).And(c));
      AddUb(c.Not());
    }

    method AddRet(v: int)
      modifies this
      ensures S() == AddReturn(old(S()), v)
    {
      retVal := Add(retVal, v, path);
      retMem := Add(retMem, mem, path);
      retDom := AddOr(retDom, path.And(ub));
      fnDom := AddOr(fnDom, path.And(ub));
      AddUb(FALSE);
    }

    method Jump(n: nat, b: nat, cond: Cond, t: nat, always: bool)
      modifies this
      ensures S() == AddJump(n, b, old(S()), cond, t, always)
    {
      var last := always || cond.IsTrue();
      var c := cond.And(path);
      if c.IsFalse() || path.IsFalse() || ub.IsFalse() {
        return;
      }
      var a := ArcTo(n, b, t);
      var i := InfoOf(pending, a);
      pending := pending[a := Info(AddOr(i.paths, c), Add(i.ubs, ub, c), Add(i.mems, mem, c), ranges)];
      if last {
        AddUb(FALSE);
      }
    }

    /** `startBB` on a block other than the first one; false if it need not be executed. */
    method StartBlock(b: nat) returns (run: bool, ghost srcs: seq<nat>)
      modifies this
      ensures srcs == [] ==> S() == old(S()) && !run && forall x: nat :: Arc(b, x) !in pending
      ensures srcs != [] ==> Sources(old(S()), b, srcs) && S() == StartFrom(old(S()), b, srcs)
      ensures srcs != [] ==> (run <==> Viable(S()))
    {
      var todo := set a | a in pending && a.dst == b;
      srcs := [];
      if todo == {} {
        assert forall x: nat :: Arc(b, x) in pending ==> Arc(b, x) in todo;
        return false, [];
      }
      ghost var s, all := S(), todo;
      var m := NoInfo;
      var first := true;
      while todo != {}
        invariant todo <= all && S() == s && m == Merge(s.pending, b, srcs)
        invariant first <==> srcs == []
        invariant todo == {} ==> srcs != []
        invariant forall k :: 0 <= k < |srcs| ==> Arc(b, srcs[k]) in all
        invariant forall a :: a in all && a !in todo ==> a.src in srcs
        decreases todo
      {
        var a :| a in todo;
        todo := todo - {a};
        var i := pending[a];
        var p := Or(i.paths);
        m := Info(m.paths + i.paths, AddDisj(m.ubs, i.ubs, p), AddDisj(m.mems, i.mems, p),
                  if first then i.ranges else Meet(m.ranges, i.ranges));
        first := false;
        assert (srcs + [a.src])[..|srcs|] == srcs;
        srcs := srcs + [a.src];
      }
      forall x: nat | Arc(b, x) in s.pending
        ensures x in srcs
      {
        assert Arc(b, x) in all;
      }
      path := Or(m.paths);
      ub := if m.ubs == [] then FALSE else Mk(m.ubs);
      mem := if m.mems == [] then mem else Mk(m.mems);
      ranges := m.ranges;
      run := !path.IsFalse() && !ub.IsFalse();
    }

    method ExecInstr(b: nat, i: Instr)
      modifies this
      ensures S() == SymInstr(b, old(S()), i)
    {
      match i {
        case Phi(d, args) =>
          var vs := [];
          for k := 0 to |args|
            invariant S() == old(S()) && vs == PhiVals(b, old(S()), args[..k])
          {
            assert args[..k + 1][..k] == args[..k];
            var (r, from) := args[k];
            if Arc(b, from) in pending {
              vs := Add(vs, Read(regs, r), Or(pending[Arc(b, from)].paths));
            }
          }
          assert args[..|args|] == args;
          regs := regs[d := if vs == [] then 0 else Mk(vs)];
        case Compute(d, ops, f) => regs := regs[d := f(ReadAll(regs, ops), mem)];
        case Update(ops, g) => mem := g(ReadAll(regs, ops), mem);
        case Require(ops, c) => AddUb(c(ReadAll(regs, ops), mem));
        case Call(fn, access, ops, stops, g) =>
          var args := ReadAll(regs, ops);
          AddStop(stops(args, mem));
          mem := g(args, mem);
          ranges := Inc(ranges, fn, access);
      }
    }

    method ExecTerm(n: nat, b: nat, t: Term)
      modifies this
      ensures S() == SymTerm(n, b, old(S()), t)
    {
      match t {
        case Jump(d) => Jump(n, b, TRUE, d, true);
        case Branch(r, known, x, y) =>
          var isFalse := Cond(Read(regs, r) == 0, known);
          Jump(n, b, isFalse.Not(), x, false);
          Jump(n, b, isFalse, y, true);
        case Switch(r, known, cases, d) =>
          var v := Read(regs, r);
          var default := TRUE;
          for k := 0 to |cases|
            invariant S() == AddCases(n, b, old(S()), v, known, cases[..k])
            invariant default == DefaultCond(v, known, cases[..k])
          {
            assert cases[..k + 1][..k] == cases[..k];
            default := default.And(Cond(v != cases[k].0, known));
            Jump(n, b, Cond(v == cases[k].0, known), cases[k].1, false);
          }
          assert cases[..|cases|] == cases;
          Jump(n, b, default, d, true);
        case Return(r) => AddRet(Read(regs, r));
        case Unreachable => AddUb(FALSE);
      }
    }

    /** Executes a started block. */
    method ExecBlock(p: Program, b: nat)
      requires b < |p|
      modifies this
      ensures S() == SymBlock(p, b, old(S()))
    {
      var code := p[b].body;
      for k := 0 to |code|
        invariant S() == SymInstrs(b, old(S()), code[..k])
      {
        assert code[..k + 1][..k] == code[..k];
        ExecInstr(b, code[k]);
      }
      assert code[..|code|] == code;
      ExecTerm(|p|, b, p[b].term);
    }
  }

  /** The state before block `b`: it agrees with the run and follows its path. */
  ghost predicate AtBlock(p: Program, init: Config, b: nat, s: Sym)
    requires b <= |p|
  {
    && Cut(|p|, s, b, Before(p, init, b)) && Unwritten(p, b, 0, s.regs)
    && (PathOk(p, init) ==> PathCut(|p|, s, b, TrackBefore(p, init, b)))
  }

  /** A program and an input that the executor is run on. */
  ghost predicate Runnable(p: Program, init: Config) {
    p != [] && Ssa(p, init.regs) && init.prev == -1 && init.calls == map[] && Run(p, init) != Done(Stuck)
  }

  lemma FirstBlock(p: Program, init: Config)
    requires Runnable(p, init)
    ensures AtBlock(p, init, 1, SymBlock(p, 0, Initial(init)))
  {
    InitialInside(|p|, init);
    assert Before(p, init, 0) == At(0, init);
    NeverStuck(p, init, 1);
    BlockStep(p, 0, Initial(init), init.regs, At(0, init));
    BlockFresh(p, 0, Initial(init), init.regs);
    FirstOnPath(p, init);
  }

  lemma StartedBlock(p: Program, init: Config, b: nat, s: Sym, srcs: seq<nat>)
    requires Runnable(p, init) && 0 < b < |p| && AtBlock(p, init, b, s) && Sources(s, b, srcs)
    ensures AtBlock(p, init, b + 1, SymBlock(p, b, StartFrom(s, b, srcs)))
  {
    var m, u := Before(p, init, b), StartFrom(s, b, srcs);
    NeverStuck(p, init, b);
    NeverStuck(p, init, b + 1);
    StartInside(|p|, s, b, srcs, m);
    BlockStep(p, b, u, init.regs, m);
    BlockFresh(p, b, u, init.regs);
    if PathOk(p, init) { StartedOnPath(p, init, b, s, srcs); }
  }

  lemma SkippedBlock(p: Program, init: Config, b: nat, s: Sym, u: Sym, srcs: seq<nat>)
    requires Runnable(p, init) && 0 < b < |p| && AtBlock(p, init, b, s)
    requires srcs == [] ==> u == s && forall x: nat :: Arc(b, x) !in s.pending
    requires srcs != [] ==> Sources(s, b, srcs) && u == StartFrom(s, b, srcs) && !Viable(u)
    ensures AtBlock(p, init, b + 1, u)
  {
    NotStarted(p, s, u, b, srcs, Before(p, init, b));
    if PathOk(p, init) { PathNotStarted(p, s, u, b, srcs, TrackBefore(p, init, b)); }
  }

  /** `sym_exec`: executes all blocks in order. The recorded outcomes are exactly
      those of the concrete run, for every program, input and valuation; the memories
      that may be merged from the records are exactly those of its path. */
  method Execute(p: Program, init: Config) returns (s: State)
    requires Runnable(p, init)
    ensures fresh(s) && Agrees(|p|, s.S(), Run(p, init))
    ensures PathOk(p, init) ==> forall w :: Picks(s.retMem, w) <==> w in Settled(Records(p, init))
  {
    s := new State(init.mem, init.regs);
    s.ExecBlock(p, 0);
    FirstBlock(p, init);
    for b := 1 to |p|
      invariant fresh(s) && AtBlock(p, init, b, s.S())
    {
      ghost var u := s.S();
      var run, srcs := s.StartBlock(b);
      if run {
        s.ExecBlock(p, b);
        StartedBlock(p, init, b, u, srcs);
      } else {
        SkippedBlock(p, init, b, u, s.S(), srcs);
      }
    }
    MachineInRange(p, init, |p|);
    FinalAgrees(p, s.S(), Run(p, init));
  }

  /** The first block starts on the path. */
  lemma FirstOnPath(p: Program, init: Config)
    requires p != [] && Ssa(p, init.regs) && init.prev == -1 && init.calls == map[]
    ensures PathOk(p, init) ==> PathCut(|p|, SymBlock(p, 0, Initial(init)), 1, TrackBefore(p, init, 1))
  {
    if PathOk(p, init) {
      PathInitial(|p|, init);
      NeverWrong(p, init, 1);
      PathBlockStep(p, 0, Initial(init), init.regs, Start(init));
    }
  }

  lemma StartedOnPath(p: Program, init: Config, b: nat, u: Sym, srcs: seq<nat>)
    requires b < |p| && Ssa(p, init.regs) && PathOk(p, init) && PathCut(|p|, u, b, TrackBefore(p, init, b))
    requires Sources(u, b, srcs) && Unwritten(p, b, 0, u.regs)
    ensures PathCut(|p|, SymBlock(p, b, StartFrom(u, b, srcs)), b + 1, TrackBefore(p, init, b + 1))
  {
    StartPath(|p|, u, b, srcs, TrackBefore(p, init, b));
    NeverWrong(p, init, b + 1);
    PathBlockStep(p, b, StartFrom(u, b, srcs), init.regs, TrackBefore(p, init, b));
  }

  /** A call that does not return, followed by a write and a return. */
  const STOP_AND_RETURN: Program :=
    [Block([Call("f", Access({}, {Globals}), [], (args: seq<int>, m: Mem) => Cond(true, false), (args: seq<int>, m: Mem) => m[0 := 1])],
           Return(0))]

  const EMPTY_MEMORY: Config := Config(-1, map[0 := 7], map[], map[])

  /** The run of that program ends at the call with the empty memory, but what the
      executor has recorded is the memory at the return. */
  method StoppedMemoryLost() returns (s: State)
    ensures Run(STOP_AND_RETURN, EMPTY_MEMORY) == Done(Stopped(map[]))
    ensures Agrees(1, s.S(), Done(Stopped(map[]))) && s.retMem != [] && Mk(s.retMem) == map[0 := 1]
    ensures !OnlyPicks(s.retMem, map[])
  {
    StopAndReturn();
    s := Execute(STOP_AND_RETURN, EMPTY_MEMORY);
    ghost var w: Mem := map[0 := 1];
    assert w != map[] by { assert 0 in w; }
    assert w in Settled(Records(STOP_AND_RETURN, EMPTY_MEMORY));
    assert Picks(s.retMem, w);
    MkPicks(s.retMem);
  }

  lemma StopAndReturn()
    ensures Ssa(STOP_AND_RETURN, EMPTY_MEMORY.regs) && PathOk(STOP_AND_RETURN, EMPTY_MEMORY)
    ensures Run(STOP_AND_RETURN, EMPTY_MEMORY) == Done(Stopped(map[]))
    ensures Settled(Records(STOP_AND_RETURN, EMPTY_MEMORY)) == {map[0 := 1]}
  {
    var p, init, code := STOP_AND_RETURN, EMPTY_MEMORY, STOP_AND_RETURN[0].body;
    assert code[..0] == [] && code[..|code| - 1] == [];
    assert DoInstrs(code, init) == End(Stopped(map[]));
    assert RunBlock(p, 0, init) == Done(Stopped(map[]));
    assert Before(p, init, 1) == Done(Stopped(map[]));
    var t := TrackInstrs(0, Start(init), code);
    assert t == TrackInstr(0, Start(init), code[0]);
    assert TrackBefore(p, init, 1) == TrackTerm(1, 0, t, Return(0));
    SettledNext(t.log, Record(map[0 := 1], true));
  }
}
