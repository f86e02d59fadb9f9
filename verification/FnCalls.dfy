/** `FnCallRanges` of the symbolic executor: for every function, the possible
    numbers of calls so far that may write memory. A function that is not listed
    has not been called. */
module FnCalls {
  datatype Kind = Args | Globals | Inaccessible | Errno | Other

  /** The kinds of memory a call may read and write. */
  datatype Access = Access(readable: set<Kind>, writable: set<Kind>) {
    /** `canOnlyRead` and `canOnlyWrite`: that kind, and no other one. */
    predicate OnlyReads(k: Kind) { k in readable && forall i :: i in readable ==> i == k }
    predicate OnlyWrites(k: Kind) { k in writable && forall i :: i in writable ==> i == k }
    function Or(o: Access): Access { Access(readable + o.readable, writable + o.writable) }
  }

  datatype Range = Range(calls: set<nat>, access: Access)
  type Ranges = map<string, Range>

  /** Real numbers of calls; a function without an entry was not called. */
  type Counts = map<string, nat>

  function Count(c: Counts, fn: string): nat {
    if fn in c then c[fn] else 0
  }

  predicate AdmitsFn(r: Ranges, fn: string, n: nat) {
    if fn in r then n in r[fn].calls else n == 0
  }

  /** The real counts are among the possible ones. */
  ghost predicate Admits(r: Ranges, c: Counts) {
    forall fn :: AdmitsFn(r, fn, Count(c, fn))
  }

  function Succ(s: set<nat>): set<nat> {
    set n | n in s :: n + 1
  }

  function Inc(r: Ranges, name: string, access: Access): Ranges {
    if access.writable == {} then r
    else if name in r then
      r[name := Range(Succ(r[name].calls), r[name].access.Or(access))]
    else r[name := Range({1}, access)]
  }

  /** The counts after one more call. */
  function Called(c: Counts, name: string, access: Access): Counts {
    if access.writable == {} then c else c[name := Count(c, name) + 1]
  }

  function MeetFn(a: Ranges, b: Ranges, fn: string): Range
    requires fn in a || fn in b
  {
    if fn !in a then Range(b[fn].calls + {0}, b[fn].access)
    else if fn !in b then Range(a[fn].calls + {0}, a[fn].access)
    else Range(a[fn].calls + b[fn].calls, a[fn].access.Or(b[fn].access))
  }

  function Meet(a: Ranges, b: Ranges): Ranges {
    map fn | fn in a.Keys + b.Keys :: MeetFn(a, b, fn)
  }

  lemma IncAdmits(r: Ranges, c: Counts, name: string, access: Access)
    requires Admits(r, c)
    ensures Admits(Inc(r, name, access), Called(c, name, access))
  {
    forall fn
      ensures AdmitsFn(Inc(r, name, access), fn, Count(Called(c, name, access), fn))
    {
      assert AdmitsFn(r, fn, Count(c, fn));
    }
  }

  /** A count is admitted after the meet exactly if one side admits it. */
  lemma MeetAdmitsEither(a: Ranges, b: Ranges, fn: string, n: nat)
    ensures AdmitsFn(Meet(a, b), fn, n) <==> AdmitsFn(a, fn, n) || AdmitsFn(b, fn, n)
  {
  }

  /** What a listed function may access after a meet is what it may on either side. */
  lemma MeetAccess(a: Ranges, b: Ranges, fn: string, k: Kind)
    ensures fn in Meet(a, b) <==> fn in a || fn in b
    ensures fn in Meet(a, b) ==> (k in Meet(a, b)[fn].access.readable <==>
      (fn in a && k in a[fn].access.readable) || (fn in b && k in b[fn].access.readable))
    ensures fn in Meet(a, b) ==> (k in Meet(a, b)[fn].access.writable <==>
      (fn in a && k in a[fn].access.writable) || (fn in b && k in b[fn].access.writable))
  {
  }

  /** A call that may write adds what it may access to its function, and nothing else. */
  lemma IncAccess(r: Ranges, name: string, access: Access, fn: string, k: Kind)
    ensures fn in Inc(r, name, access) <==> fn in r || (fn == name && access.writable != {})
    ensures fn in Inc(r, name, access) ==> (k in Inc(r, name, access)[fn].access.readable <==>
      (fn in r && k in r[fn].access.readable) || (fn == name && access.writable != {} && k in access.readable))
    ensures fn in Inc(r, name, access) ==> (k in Inc(r, name, access)[fn].access.writable <==>
      (fn in r && k in r[fn].access.writable) || (fn == name && k in access.writable))
  {
  }

  lemma MeetAdmits(a: Ranges, b: Ranges, c: Counts)
    requires Admits(a, c) || Admits(b, c)
    ensures Admits(Meet(a, b), c)
  {
    forall fn
      ensures AdmitsFn(Meet(a, b), fn, Count(c, fn))
    {
      MeetAdmitsEither(a, b, fn, Count(c, fn));
      if Admits(a, c) { assert AdmitsFn(a, fn, Count(c, fn)); }
      else { assert AdmitsFn(b, fn, Count(c, fn)); }
    }
  }

  // ---------------------------------------------------------------------
  // Comparing two call sites
  // ---------------------------------------------------------------------

  /** How often `fn`, which may access `access`, was called cannot matter to a call of
      `callee` with access `call`. */
  ghost predicate Irrelevant(callee: string, call: Access, fn: string, access: Access) {
    || (access.writable == {Inaccessible} && (fn != callee || Inaccessible !in call.readable))
    || (call.readable == {Inaccessible} && fn == callee && Inaccessible !in access.writable)
    || access.writable == {Args}
  }

  /** What is known at the two sites of one function: it is irrelevant, or reads nothing
      so that it writes the same every time, or some number of calls is possible at both. */
  ghost predicate Agree(callee: string, call: Access, a: Ranges, b: Ranges, fn: string) {
    || (fn !in a && fn !in b)
    || Irrelevant(callee, call, fn, if fn in a then a[fn].access else b[fn].access)
    || (fn in a && fn in b && a[fn].access.readable == {} && b[fn].access.readable == {})
    || exists n :: AdmitsFn(a, fn, n) && AdmitsFn(b, fn, n)
  }

  /** Nothing that matters to the call tells the two sites apart. */
  ghost predicate SameFor(callee: string, call: Access, a: Ranges, b: Ranges) {
    call.readable == {} || forall fn :: Agree(callee, call, a, b, fn)
  }

  /** Two sites with the same real counts are never told apart. */
  lemma SameCountsOverlap(callee: string, call: Access, a: Ranges, b: Ranges, c: Counts)
    requires Admits(a, c) && Admits(b, c)
    ensures SameFor(callee, call, a, b)
  {
    forall fn
      ensures Agree(callee, call, a, b, fn)
    {
      assert AdmitsFn(a, fn, Count(c, fn)) && AdmitsFn(b, fn, Count(c, fn));
    }
  }

  /** `skip` */
  predicate Skip(callee: string, call: Access, fn: string, access: Access) {
    || (access.OnlyWrites(Inaccessible) && (fn != callee || Inaccessible !in call.readable))
    || (call.OnlyReads(Inaccessible) && fn == callee && Inaccessible !in access.writable)
    || access.OnlyWrites(Args)
  }

  lemma SkipIff(callee: string, call: Access, fn: string, access: Access)
    ensures Skip(callee, call, fn, access) <==> Irrelevant(callee, call, fn, access)
  {
    OnlyIff(access.writable, Inaccessible);
    OnlyIff(access.writable, Args);
    OnlyIff(call.readable, Inaccessible);
  }

  lemma OnlyIff(s: set<Kind>, k: Kind)
    ensures s == {k} <==> k in s && forall i :: i in s ==> i == k
  {
  }

  /** The test of the first loop, for a function of this map, and of the second one. */
  lemma ListedIff(callee: string, call: Access, a: Ranges, b: Ranges, fn: string)
    ensures fn in a ==> (Agree(callee, call, a, b, fn) <==>
      || Skip(callee, call, fn, a[fn].access)
      || (if fn !in b then 0 in a[fn].calls else a[fn].access.Or(b[fn].access).readable == {} || a[fn].calls * b[fn].calls != {}))
    ensures fn !in a && fn in b ==> (Agree(callee, call, a, b, fn) <==> Skip(callee, call, fn, b[fn].access) || 0 in b[fn].calls)
  {
    if fn in a {
      SkipIff(callee, call, fn, a[fn].access);
      if fn !in b {
        assert AdmitsFn(a, fn, 0) && AdmitsFn(b, fn, 0) <==> 0 in a[fn].calls;
      } else {
        var both := a[fn].calls * b[fn].calls;
        assert forall n: nat :: n in both <==> AdmitsFn(a, fn, n) && AdmitsFn(b, fn, n);
        if n :| n in both { assert AdmitsFn(a, fn, n); }
        if n: nat :| AdmitsFn(a, fn, n) && AdmitsFn(b, fn, n) { assert n in both; }
      }
    } else if fn in b {
      SkipIff(callee, call, fn, b[fn].access);
      assert AdmitsFn(a, fn, 0) && AdmitsFn(b, fn, 0) <==> 0 in b[fn].calls;
    }
  }

  class FnCallRanges {
    var ranges: Ranges

    constructor ()
      ensures ranges == map[]
    {
      ranges := map[];
    }

    method Increment(name: string, access: Access)
      modifies this
      ensures ranges == Inc(old(ranges), name, access)
    {
      if access.writable == {} {
        return;
      }
      if name !in ranges {
        ranges := ranges[name := Range({1}, access)];
      } else {
        var old_set, new_set: set<nat> := ranges[name].calls, {};
        while old_set != {}
          invariant old_set <= ranges[name].calls
          invariant forall m: nat :: m in new_set <==> m > 0 && m - 1 in ranges[name].calls - old_set
          decreases old_set
        {
          var n :| n in old_set;
          old_set := old_set - {n};
          new_set := new_set + {n + 1};
        }
        assert new_set == Succ(ranges[name].calls);
        ranges := ranges[name := Range(new_set, ranges[name].access.Or(access))];
      }
    }

    /** `overlaps`: the functions of this map, then those of the other one. */
    method Overlaps(callee: string, call: Access, other: Ranges) returns (r: bool)
      ensures r <==> SameFor(callee, call, ranges, other)
    {
      if call.readable == {} { return true; }
      var todo := ranges.Keys;
      while todo != {}
        invariant todo <= ranges.Keys
        invariant forall fn :: fn in ranges.Keys - todo ==> Agree(callee, call, ranges, other, fn)
        decreases todo
      {
        var fn :| fn in todo;
        todo := todo - {fn};
        ListedIff(callee, call, ranges, other, fn);
        if Skip(callee, call, fn, ranges[fn].access) { continue; }
        if fn !in other {
          if 0 in ranges[fn].calls { continue; }
          return false;
        }
        if ranges[fn].access.Or(other[fn].access).readable == {} { continue; }
        if ranges[fn].calls * other[fn].calls == {} { return false; }
      }
      todo := other.Keys;
      while todo != {}
        invariant todo <= other.Keys
        invariant forall fn :: fn in ranges || fn in other.Keys - todo ==> Agree(callee, call, ranges, other, fn)
        decreases todo
      {
        var fn :| fn in todo;
        todo := todo - {fn};
        ListedIff(callee, call, ranges, other, fn);
        if Skip(callee, call, fn, other[fn].access) { continue; }
        if 0 !in other[fn].calls && fn !in ranges { return false; }
      }
      r := true;
    }

    /** `meet_with`: first the functions of the other map, then the ones it lacks. */
    method MeetWith(other: Ranges)
      modifies this
      ensures ranges == Meet(old(ranges), other)
    {
      ghost var a := ranges;
      var todo := other.Keys;
      while todo != {}
        invariant todo <= other.Keys
        invariant ranges.Keys == a.Keys + (other.Keys - todo)
        invariant forall fn :: fn in ranges ==>
          ranges[fn] == if fn in other && fn !in todo then MeetFn(a, other, fn) else a[fn]
        decreases todo
      {
        var fn :| fn in todo;
        todo := todo - {fn};
        if fn !in ranges {
          ranges := ranges[fn := Range(other[fn].calls + {0}, other[fn].access)];
        } else {
          ranges := ranges[fn := Range(ranges[fn].calls + other[fn].calls,
                                       ranges[fn].access.Or(other[fn].access))];
        }
      }
      todo := ranges.Keys;
      while todo != {}
        invariant ranges.Keys == a.Keys + other.Keys && todo <= ranges.Keys
        invariant forall fn :: fn in ranges ==>
          ranges[fn] == if fn in other || fn !in todo then MeetFn(a, other, fn) else a[fn]
        decreases todo
      {
        var fn :| fn in todo;
        todo := todo - {fn};
        if fn !in other {
          ranges := ranges[fn := Range(ranges[fn].calls + {0}, ranges[fn].access)];
        }
      }
    }
  }
}
