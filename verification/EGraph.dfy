/** The e-graph of `fast_math.cpp`. Class members are kept by value: a class is
    the set of nodes whose id has its root. */
module EGraph {
  import opened UnionFinds

  // ---------------------------------------------------------------------
  // Expressions and their meaning
  // ---------------------------------------------------------------------

  datatype BinOp = Add | Sub | Mul | Div

  /** Floating-point expressions as `get` tells them apart. Atoms stand for
      everything it treats as a leaf; roundings are compared syntactically. */
  datatype Expr =
    | Atom(id: nat)
    | Neg(e: Expr)
    | Bin(op: BinOp, rounding: nat, l: Expr, r: Expr)
    | Reassoc(e: Expr)

  /** An expression whose `reassoc` markers became flags of the node below. */
  datatype Term =
    | TAtom(id: nat, flag: bool)
    | TNeg(t: Term, flag: bool)
    | TBin(op: BinOp, rounding: nat, flag: bool, l: Term, r: Term)

  function Flatten(e: Expr, flag: bool): Term {
    match e
    case Atom(a) => TAtom(a, flag)
    case Neg(x) => TNeg(Flatten(x, false), flag)
    case Bin(op, rm, l, r) => TBin(op, rm, flag, Flatten(l, false), Flatten(r, false))
    case Reassoc(x) => Flatten(x, true)
  }

  datatype Interp = Interp(
    atom: (nat, bool) -> int,
    neg: (int, bool) -> int,
    bin: (BinOp, nat, bool, int, int) -> int)

  predicate Commutes(op: BinOp) { op == Add || op == Mul }

  ghost predicate Commutative(I: Interp) {
    forall op, rm, f, x, y :: Commutes(op) ==> I.bin(op, rm, f, x, y) == I.bin(op, rm, f, y, x)
  }

  function Eval(I: Interp, t: Term): int {
    match t
    case TAtom(a, f) => I.atom(a, f)
    case TNeg(x, f) => I.neg(Eval(I, x), f)
    case TBin(op, rm, f, l, r) => I.bin(op, rm, f, Eval(I, l), Eval(I, r))
  }

  /** Equal under every interpretation in which add and mul commute. */
  ghost predicate Equal(s: Term, t: Term) {
    forall I :: Commutative(I) ==> Eval(I, s) == Eval(I, t)
  }

  /** A meaning of expressions under which addition and multiplication commute. */
  ghost predicate Lawful(I: Interp) {
    && (forall rm, f, x, y :: I.bin(Add, rm, f, x, y) == I.bin(Add, rm, f, y, x))
    && (forall rm, f, x, y :: I.bin(Mul, rm, f, x, y) == I.bin(Mul, rm, f, y, x))
  }

  /** What an expression means; a `reassoc` marker says something of the operation
      right below it. */
  ghost function Meaning(I: Interp, e: Expr, marked: bool): int {
    match e
    case Atom(a) => I.atom(a, marked)
    case Neg(x) => I.neg(Meaning(I, x, false), marked)
    case Bin(op, rm, l, r) => I.bin(op, rm, marked, Meaning(I, l, false), Meaning(I, r, false))
    case Reassoc(x) => Meaning(I, x, true)
  }

  /** The expressions mean the same whatever the operations are. */
  ghost predicate SameMeaning(a: Expr, b: Expr) {
    forall I :: Lawful(I) ==> Meaning(I, a, false) == Meaning(I, b, false)
  }

  lemma {:induction false} FlattenMeans(I: Interp, e: Expr, flag: bool)
    ensures Eval(I, Flatten(e, flag)) == Meaning(I, e, flag)
    decreases e
  {
    match e
    case Atom(_) =>
    case Neg(x) => FlattenMeans(I, x, false);
    case Bin(_, _, l, r) => FlattenMeans(I, l, false); FlattenMeans(I, r, false);
    case Reassoc(x) => FlattenMeans(I, x, true);
  }

  lemma LawfulIff(I: Interp)
    ensures Lawful(I) <==> Commutative(I)
  {
    if Commutative(I) {
      assert Commutes(Add) && Commutes(Mul);
    }
  }

  /** Terms are equal exactly if the expressions they were made from mean the same. */
  lemma EqualIff(a: Expr, b: Expr)
    ensures Equal(Flatten(a, false), Flatten(b, false)) <==> SameMeaning(a, b)
  {
    forall I
      ensures Commutative(I) <==> Lawful(I)
      ensures Eval(I, Flatten(a, false)) == Meaning(I, a, false) && Eval(I, Flatten(b, false)) == Meaning(I, b, false)
    {
      LawfulIff(I);
      FlattenMeans(I, a, false);
      FlattenMeans(I, b, false);
    }
  }

  // ---------------------------------------------------------------------
  // Graph states
  // ---------------------------------------------------------------------

  datatype Node =
    | NAtom(id: nat, flag: bool)
    | NNeg(op1: nat, flag: bool)
    | NBin(op: BinOp, rounding: nat, flag: bool, op1: nat, op2: nat)

  predicate Below(n: Node, k: nat) {
    match n
    case NAtom(_, _) => true
    case NNeg(x, _) => x < k
    case NBin(_, _, _, x, y) => x < k && y < k
  }

  function Root(rep: seq<nat>, x: nat): nat {
    if x < |rep| then rep[x] else x
  }

  /** The node with its operand ids replaced by their roots. */
  function Canon(rep: seq<nat>, n: Node): Node {
    match n
    case NAtom(_, _) => n
    case NNeg(x, f) => NNeg(Root(rep, x), f)
    case NBin(op, rm, f, x, y) => NBin(op, rm, f, Root(rep, x), Root(rep, y))
  }

  predicate Swappable(n: Node) { n.NBin? && Commutes(n.op) }

  function Swap(n: Node): Node
    requires n.NBin?
  {
    NBin(n.op, n.rounding, n.flag, n.op2, n.op1)
  }

  /** `birth[i]` is the node that id `i` was made for, `rep` the partition of
      the ids, `nodes` the nodes currently in the graph. */
  datatype State = State(birth: seq<Node>, rep: seq<nat>, nodes: map<Node, nat>)

  ghost predicate WFBirth(birth: seq<Node>) {
    forall i :: 0 <= i < |birth| ==> Below(birth[i], i)
  }

  ghost predicate WF(s: State) {
    && |s.birth| == |s.rep| && Partition(s.rep) && WFBirth(s.birth)
    && (forall n :: n in s.nodes ==> s.nodes[n] < |s.birth| && s.birth[s.nodes[n]] == n)
  }

  /** The expression a node over the ids below `k` stands for. */
  ghost function NodeTerm(birth: seq<Node>, n: Node, k: nat): Term
    requires WFBirth(birth) && k <= |birth| && Below(n, k)
    decreases k, 0
  {
    match n
    case NAtom(a, f) => TAtom(a, f)
    case NNeg(x, f) => TNeg(TermOf(birth, x), f)
    case NBin(op, rm, f, x, y) => TBin(op, rm, f, TermOf(birth, x), TermOf(birth, y))
  }

  /** The expression an id was made for. */
  ghost function TermOf(birth: seq<Node>, i: nat): Term
    requires WFBirth(birth) && i < |birth|
    decreases i, 1
  {
    NodeTerm(birth, birth[i], i)
  }

  /** Merged ids denote equal expressions. */
  ghost predicate Sound(s: State)
    requires WF(s)
  {
    forall i :: 0 <= i < |s.birth| ==> Equal(TermOf(s.birth, i), TermOf(s.birth, s.rep[i]))
  }

  /** The graph still holds a node for every id, up to the partition. */
  ghost predicate Covered(s: State)
    requires WF(s)
  {
    forall i :: 0 <= i < |s.birth| ==> Held(s, i)
  }

  ghost predicate Held(s: State, i: nat)
    requires WF(s) && i < |s.birth|
  {
    exists n :: HoldsFor(s, n, i)
  }

  ghost predicate HoldsFor(s: State, n: Node, i: nat)
    requires WF(s) && i < |s.birth|
  {
    n in s.nodes && Canon(s.rep, n) == Canon(s.rep, s.birth[i]) && s.rep[s.nodes[n]] == s.rep[i]
  }

  ghost predicate Good(s: State) {
    WF(s) && Sound(s) && Covered(s)
  }

  ghost function Roots(rep: seq<nat>): set<nat> {
    set r: nat | r < |rep| && rep[r] == r
  }

  /** `t` came from `s` by adding ids and merging classes. */
  ghost predicate Extends(s: State, t: State)
    requires WF(s) && WF(t)
  {
    && s.birth <= t.birth
    && (forall i {:trigger s.rep[i]} :: 0 <= i < |s.rep| ==> t.rep[s.rep[i]] == t.rep[i])
  }

  // ---------------------------------------------------------------------
  // Operations
  // ---------------------------------------------------------------------

  /** `get(Node)`: find the node or make an id for it. */
  function Get(s: State, n: Node): (State, nat) {
    if n in s.nodes then (s, s.nodes[n])
    else (State(s.birth + [n], s.rep + [|s.rep|], s.nodes[n := |s.rep|]), |s.rep|)
  }

  /** `decl_equivalent`: the class of the node joins the class of `i`. */
  ghost function Declare(s: State, n: Node, i: nat): State
    requires WF(s) && i < |s.rep|
  {
    var (t, j) := Get(s, n);
    t.(rep := Merged(t.rep, j, i))
  }

  lemma TermOfPrefix(birth: seq<Node>, birth': seq<Node>, n: Node, k: nat)
    requires WFBirth(birth) && WFBirth(birth') && birth <= birth' && k <= |birth| && Below(n, k)
    ensures NodeTerm(birth, n, k) == NodeTerm(birth', n, k)
    decreases k
  {
    match n
    case NAtom(_, _) =>
    case NNeg(x, _) => TermOfPrefix(birth, birth', birth[x], x);
    case NBin(_, _, _, x, y) =>
      TermOfPrefix(birth, birth', birth[x], x);
      TermOfPrefix(birth, birth', birth[y], y);
  }

  lemma GetSound(s: State, n: Node)
    requires WF(s) && Sound(s) && Below(n, |s.birth|)
    ensures var (t, j) := Get(s, n);
      && WF(t) && Sound(t) && Extends(s, t)
      && j < |t.birth| && t.birth[j] == n && n in t.nodes && t.nodes[n] == j
  {
    var (t, j) := Get(s, n);
    if n !in s.nodes {
      forall i | 0 <= i < |t.birth|
        ensures Equal(TermOf(t.birth, i), TermOf(t.birth, t.rep[i]))
      {
        if i < |s.birth| {
          TermOfPrefix(s.birth, t.birth, s.birth[i], i);
          TermOfPrefix(s.birth, t.birth, s.birth[s.rep[i]], s.rep[i]);
        }
      }
    }
  }

  lemma GetCovered(s: State, n: Node)
    requires WF(s) && Covered(s) && Below(n, |s.birth|)
    requires WF(Get(s, n).0)
    ensures Covered(Get(s, n).0)
  {
    var (t, j) := Get(s, n);
    if n !in s.nodes {
      forall i | 0 <= i < |t.birth|
        ensures Held(t, i)
      {
        if i < |s.birth| {
          assert Held(s, i);
          var m :| HoldsFor(s, m, i);
          assert Below(s.birth[s.nodes[m]], |s.birth|);
          assert HoldsFor(t, m, i);
        } else {
          assert HoldsFor(t, n, i);
        }
      }
    }
  }

  lemma MergeSound(s: State, j: nat, i: nat)
    requires WF(s) && Sound(s) && i < |s.birth| && j < |s.birth|
    requires Equal(TermOf(s.birth, j), TermOf(s.birth, i))
    ensures var t := s.(rep := Merged(s.rep, j, i)); WF(t) && Sound(t) && Extends(s, t)
  {
    var t := s.(rep := Merged(s.rep, j, i));
    forall x | 0 <= x < |t.birth|
      ensures Equal(TermOf(t.birth, x), TermOf(t.birth, t.rep[x]))
    {
      assert Equal(TermOf(s.birth, x), TermOf(s.birth, s.rep[x]));
      if s.rep[x] == s.rep[j] {
        assert Equal(TermOf(s.birth, j), TermOf(s.birth, s.rep[j]));
        assert Equal(TermOf(s.birth, i), TermOf(s.birth, s.rep[i]));
      }
    }
  }

  lemma MergeCovered(s: State, j: nat, i: nat)
    requires WF(s) && Covered(s) && i < |s.birth| && j < |s.birth|
    ensures var t := s.(rep := Merged(s.rep, j, i)); WF(t) && Covered(t)
  {
    var t := s.(rep := Merged(s.rep, j, i));
    forall x | 0 <= x < |t.birth|
      ensures Held(t, x)
    {
      assert Held(s, x);
      var m :| HoldsFor(s, m, x);
      assert Below(s.birth[s.nodes[m]], |s.birth|);
      assert Below(s.birth[x], |s.birth|);
      assert HoldsFor(t, m, x);
    }
  }

  lemma DeclareKeeps(s: State, n: Node, i: nat)
    requires Good(s) && Below(n, |s.birth|) && i < |s.birth|
    requires Equal(NodeTerm(s.birth, n, |s.birth|), TermOf(s.birth, i))
    ensures var t := Declare(s, n, i);
      && Good(t) && Extends(s, t) && |t.birth| <= |s.birth| + 1
      && n in t.nodes && t.rep[t.nodes[n]] == t.rep[i]
      && (forall m :: m in s.nodes ==> m in t.nodes && t.nodes[m] == s.nodes[m])
      && (forall m :: m in t.nodes ==> m in s.nodes || m == n)
  {
    var (t, j) := Get(s, n);
    GetSound(s, n);
    GetCovered(s, n);
    if n in s.nodes {
      TermIrrelevantBound(s.birth, n, |s.birth|, j);
    } else {
      TermOfPrefix(s.birth, t.birth, n, |s.birth|);
      TermOfPrefix(s.birth, t.birth, s.birth[i], i);
    }
    MergeSound(t, j, i);
    MergeCovered(t, j, i);
  }

  lemma TermIrrelevantBound(birth: seq<Node>, n: Node, k: nat, k': nat)
    requires WFBirth(birth) && k <= |birth| && k' <= |birth| && Below(n, k) && Below(n, k')
    ensures NodeTerm(birth, n, k) == NodeTerm(birth, n, k')
  {
  }

  lemma CanonEqual(s: State, n: Node)
    requires WF(s) && Sound(s) && Below(n, |s.birth|)
    ensures Below(Canon(s.rep, n), |s.birth|)
    ensures Equal(NodeTerm(s.birth, Canon(s.rep, n), |s.birth|), NodeTerm(s.birth, n, |s.birth|))
  {
    match n
    case NAtom(_, _) =>
    case NNeg(x, _) => assert Equal(TermOf(s.birth, x), TermOf(s.birth, s.rep[x]));
    case NBin(_, _, _, x, y) =>
      assert Equal(TermOf(s.birth, x), TermOf(s.birth, s.rep[x]));
      assert Equal(TermOf(s.birth, y), TermOf(s.birth, s.rep[y]));
  }

  /** One iteration of the saturation loop on a node of the graph. */
  ghost function Visit(s: State, n: Node): State
    requires WF(s) && n in s.nodes
  {
    if Canon(s.rep, n) != n then
      var t := Declare(s, Canon(s.rep, n), s.nodes[n]);
      t.(nodes := t.nodes - {n})
    else if Swappable(n) then
      Declare(s, Swap(n), s.nodes[n])
    else s
  }

  lemma RemoveCovered(s: State, t: State, n: Node, c: Node)
    requires WF(s) && WF(t) && Covered(t) && Extends(s, t) && n in s.nodes && n in t.nodes
    requires c == Canon(s.rep, n) && c != n && c in t.nodes && t.rep[t.nodes[c]] == t.rep[t.nodes[n]]
    ensures Covered(t.(nodes := t.nodes - {n}))
  {
    var u := t.(nodes := t.nodes - {n});
    assert Below(s.birth[s.nodes[n]], |s.birth|);
    assert Canon(t.rep, c) == Canon(t.rep, n);
    forall x | 0 <= x < |u.birth|
      ensures Held(u, x)
    {
      assert Held(t, x);
      var m :| HoldsFor(t, m, x);
      if m == n { assert HoldsFor(u, c, x); } else { assert HoldsFor(u, m, x); }
    }
  }

  /** The canonical form and the swapped twin stand for what the node stands for. */
  lemma VisitTerms(s: State, n: Node)
    requires Good(s) && n in s.nodes
    ensures s.nodes[n] < |s.birth| && Below(n, |s.birth|) && Below(Canon(s.rep, n), |s.birth|)
    ensures Equal(NodeTerm(s.birth, Canon(s.rep, n), |s.birth|), TermOf(s.birth, s.nodes[n]))
    ensures Swappable(n) ==>
      Below(Swap(n), |s.birth|) && Equal(NodeTerm(s.birth, Swap(n), |s.birth|), TermOf(s.birth, s.nodes[n]))
  {
    var i := s.nodes[n];
    assert Below(s.birth[i], |s.birth|);
    TermIrrelevantBound(s.birth, n, |s.birth|, i);
    CanonEqual(s, n);
  }

  lemma VisitKeeps(s: State, n: Node)
    requires Good(s) && n in s.nodes
    ensures var t := Visit(s, n);
      && Good(t) && Extends(s, t) && |t.birth| <= |s.birth| + 1
      && (forall m :: m in s.nodes && m != n ==> m in t.nodes && t.nodes[m] == s.nodes[m])
  {
    var i := s.nodes[n];
    assert Below(s.birth[i], |s.birth|);
    TermIrrelevantBound(s.birth, n, |s.birth|, i);
    if Canon(s.rep, n) != n {
      CanonEqual(s, n);
      var t := Declare(s, Canon(s.rep, n), i);
      DeclareKeeps(s, Canon(s.rep, n), i);
      RemoveCovered(s, t, n, Canon(s.rep, n));
    } else if Swappable(n) {
      DeclareKeeps(s, Swap(n), i);
    }
  }

  lemma VisitRoots(s: State, n: Node)
    requires Good(s) && n in s.nodes
    ensures var t := Visit(s, n);
      && Roots(t.rep) <= Roots(s.rep)
      && |s.rep| <= |t.rep|
      && (Roots(t.rep) == Roots(s.rep) ==> forall i :: 0 <= i < |s.rep| ==> t.rep[i] == s.rep[i])
  {
    var i := s.nodes[n];
    if Canon(s.rep, n) != n {
      DeclareRoots(s, Canon(s.rep, n), i);
    } else if Swappable(n) {
      DeclareRoots(s, Swap(n), i);
    }
  }

  lemma DeclareRoots(s: State, n: Node, i: nat)
    requires WF(s) && i < |s.rep|
    ensures var t := Declare(s, n, i);
      && Roots(t.rep) <= Roots(s.rep)
      && |s.rep| <= |t.rep|
      && (Roots(t.rep) == Roots(s.rep) ==> forall x :: 0 <= x < |s.rep| ==> t.rep[x] == s.rep[x])
  {
    var t := Declare(s, n, i);
    if n in s.nodes {
      var j := s.nodes[n];
      if s.rep[j] != s.rep[i] {
        assert s.rep[j] in Roots(s.rep) && s.rep[j] !in Roots(t.rep);
      }
    }
  }

  // ---------------------------------------------------------------------
  // Graphs in which nothing is left to merge
  // ---------------------------------------------------------------------

  /** One canonical form, up to swapping the operands of an add or mul. */
  predicate Alike(rep: seq<nat>, n: Node, m: Node) {
    || Canon(rep, m) == Canon(rep, n)
    || (Swappable(n) && Canon(rep, m) == Canon(rep, Swap(n)))
  }

  /** Nodes that are alike are in one class already. */
  ghost predicate Consistent(s: State)
    requires WF(s)
  {
    forall n, m :: n in s.nodes && m in s.nodes && Alike(s.rep, n, m) ==> s.rep[s.nodes[n]] == s.rep[s.nodes[m]]
  }

  /** Every operand id is a root. */
  ghost predicate AllCanonical(s: State) {
    forall n :: n in s.nodes ==> Canon(s.rep, n) == n
  }

  lemma AlikeTrans(rep: seq<nat>, n: Node, c: Node, m: Node)
    requires Alike(rep, n, c)
    ensures Alike(rep, c, n)
    ensures Alike(rep, c, m) ==> Alike(rep, n, m)
    ensures Alike(rep, m, c) ==> Alike(rep, m, n)
  {
  }

  /** Declaring a node equal to one it is like merges nothing. */
  lemma DeclareAlike(s: State, n: Node, c: Node)
    requires WF(s) && Consistent(s) && n in s.nodes && Alike(s.rep, n, c) && Below(c, |s.rep|)
    ensures var t := Declare(s, c, s.nodes[n]); WF(t) && s.rep <= t.rep && Consistent(t)
  {
    var t := Declare(s, c, s.nodes[n]);
    if c in s.nodes {
      assert t.rep == s.rep;
    } else {
      assert t.rep == s.rep + [s.rep[s.nodes[n]]];
      forall p, q | p in t.nodes && q in t.nodes && Alike(t.rep, p, q)
        ensures t.rep[t.nodes[p]] == t.rep[t.nodes[q]]
      {
        CanonBelow(s, t, c, p);
        CanonBelow(s, t, c, q);
        AlikeTrans(s.rep, n, c, p);
        AlikeTrans(s.rep, n, c, q);
      }
    }
  }

  lemma CanonBelow(s: State, t: State, c: Node, p: Node)
    requires WF(s) && s.rep <= t.rep && Below(c, |s.rep|) && (p in s.nodes || p == c)
    ensures Canon(t.rep, p) == Canon(s.rep, p)
    ensures Swappable(p) ==> Canon(t.rep, Swap(p)) == Canon(s.rep, Swap(p))
  {
    if p in s.nodes {
      assert Below(s.birth[s.nodes[p]], |s.rep|);
    }
  }

  lemma VisitConsistent(s: State, n: Node)
    requires Good(s) && Consistent(s) && n in s.nodes
    ensures var t := Visit(s, n); WF(t) && s.rep <= t.rep && Consistent(t)
  {
    VisitKeeps(s, n);
    assert Below(s.birth[s.nodes[n]], |s.rep|);
    if Canon(s.rep, n) != n {
      CanonTwice(s.rep, n);
      DeclareAlike(s, n, Canon(s.rep, n));
    } else if Swappable(n) {
      DeclareAlike(s, n, Swap(n));
    }
  }

  lemma CanonTwice(rep: seq<nat>, n: Node)
    requires Partition(rep) && Below(n, |rep|)
    ensures Canon(rep, Canon(rep, n)) == Canon(rep, n) && Below(Canon(rep, n), |rep|)
  {
  }

  // ---------------------------------------------------------------------
  // A pass over a copy of the nodes
  // ---------------------------------------------------------------------

  /** `t` extends `s` without making new classes; if no class was lost, the old
      ids kept their representatives. */
  ghost predicate Progress(s: State, t: State)
    requires WF(s) && WF(t)
  {
    && Extends(s, t) && Roots(t.rep) <= Roots(s.rep)
    && (Roots(t.rep) == Roots(s.rep) ==> s.rep <= t.rep)
  }

  lemma ProgressTrans(a: State, b: State, c: State)
    requires WF(a) && WF(b) && WF(c) && Progress(a, b) && Progress(b, c)
    ensures Progress(a, c)
  {
  }

  ghost predicate StillThere(s: State, t: State, n: Node) {
    n in s.nodes && n in t.nodes && t.nodes[n] == s.nodes[n]
  }

  /** The swapped node is in the graph and in the class of `n`. */
  ghost predicate Swapped(s: State, n: Node)
    requires WF(s) && n.NBin? && n in s.nodes
  {
    Swap(n) in s.nodes && s.rep[s.nodes[Swap(n)]] == s.rep[s.nodes[n]]
  }

  /** Some operand id is not a root. */
  ghost predicate Stale(s: State) {
    exists n :: n in s.nodes && Canon(s.rep, n) != n
  }

  /** Some commutative node has no swapped twin in the graph. */
  ghost predicate Unswapped(s: State) {
    exists n :: n in s.nodes && Swappable(n) && Swap(n) !in s.nodes
  }

  /** As long as no class was merged, visited nodes are canonical. */
  ghost predicate QuietInv(s: State, t: State, todo: set<Node>, changed: bool) {
    Roots(t.rep) == Roots(s.rep) ==>
      && (forall n :: n in t.nodes && n !in todo ==> Canon(t.rep, n) == n)
      && (changed ==> Stale(s))
  }

  /** As long as no node was replaced, the copy is intact and only swapped twins were added. */
  ghost predicate IntactInv(s: State, t: State, todo: set<Node>, changed: bool)
    requires WF(t)
  {
    !changed ==>
      && (forall n :: n in s.nodes ==> StillThere(s, t, n))
      && (forall n :: n in t.nodes ==> n in s.nodes || (Swappable(n) && Swap(n) in s.nodes))
      && (forall n :: n in s.nodes && n !in todo && Swappable(n) ==> n in t.nodes && Swapped(t, n))
  }

  /** The state `t` of a pass that started in `s` and still has to visit `todo`. */
  ghost predicate PassInv(s: State, t: State, todo: set<Node>, changed: bool)
    requires Good(s)
  {
    && Good(t) && Progress(s, t)
    && (forall n :: n in todo ==> StillThere(s, t, n))
    && QuietInv(s, t, todo, changed) && IntactInv(s, t, todo, changed)
    && (Consistent(s) ==> s.rep <= t.rep && Consistent(t))
  }

  lemma PassStart(s: State)
    requires Good(s)
    ensures PassInv(s, s, s.nodes.Keys, false)
  {
  }

  lemma CanonPrefix(s: State, t: State, n: Node)
    requires WF(s) && s.rep <= t.rep && n in s.nodes
    ensures Canon(t.rep, n) == Canon(s.rep, n) && Below(n, |s.rep|)
  {
    assert Below(s.birth[s.nodes[n]], |s.rep|);
  }

  /** A visit that merges nothing adds canonical nodes only. */
  lemma VisitAddsCanonical(t: State, u: State, n: Node, m: Node)
    requires WF(t) && WF(u) && n in t.nodes && u == Visit(t, n) && t.rep <= u.rep
    requires m in u.nodes && m !in t.nodes
    ensures Canon(u.rep, m) == m
  {
    CanonPrefix(t, u, n);
  }

  lemma QuietStep(s: State, t: State, u: State, todo: set<Node>, changed: bool, n: Node)
    requires Good(s) && Good(t) && Good(u) && Progress(s, t) && Progress(t, u)
    requires QuietInv(s, t, todo, changed) && n in todo && StillThere(s, t, n) && u == Visit(t, n)
    ensures QuietInv(s, u, todo - {n}, changed || Canon(t.rep, n) != n)
  {
    if Roots(u.rep) == Roots(s.rep) {
      forall m | m in u.nodes && m !in todo - {n}
        ensures Canon(u.rep, m) == m
      {
        if m !in t.nodes {
          VisitAddsCanonical(t, u, n, m);
        } else {
          CanonPrefix(t, u, m);
        }
      }
      CanonPrefix(s, t, n);
    }
  }

  lemma SwappedKept(t: State, u: State, m: Node)
    requires WF(t) && WF(u) && Extends(t, u)
    requires m in t.nodes && m.NBin? && Swapped(t, m) && StillThere(t, u, m) && StillThere(t, u, Swap(m))
    ensures Swapped(u, m)
  {
    assert u.rep[t.rep[t.nodes[Swap(m)]]] == u.rep[t.nodes[Swap(m)]];
    assert u.rep[t.rep[t.nodes[m]]] == u.rep[t.nodes[m]];
  }

  /** A visit of a canonical node removes no node, and adds its swapped twin at most. */
  lemma VisitIntact(t: State, u: State, n: Node)
    requires WF(t) && WF(u) && n in t.nodes && t.nodes[n] < |t.rep| && Canon(t.rep, n) == n && u == Visit(t, n)
    ensures forall m :: m in t.nodes ==> StillThere(t, u, m)
    ensures forall m :: m in u.nodes ==> m in t.nodes || (Swappable(n) && m == Swap(n))
    ensures Swappable(n) ==> Swapped(u, n)
  {
    if Swappable(n) {
      DeclareNodes(t, Swap(n), t.nodes[n]);
    }
  }

  lemma IntactStep(s: State, t: State, u: State, todo: set<Node>, changed: bool, n: Node)
    requires Good(s) && Good(t) && Good(u) && Extends(t, u)
    requires IntactInv(s, t, todo, changed) && n in todo && StillThere(s, t, n) && u == Visit(t, n)
    ensures IntactInv(s, u, todo - {n}, changed || Canon(t.rep, n) != n)
  {
    if !changed && Canon(t.rep, n) == n {
      VisitIntact(t, u, n);
      forall m | m in s.nodes && m !in todo - {n} && Swappable(m)
        ensures m in u.nodes && Swapped(u, m)
      {
        assert StillThere(s, t, m);
        if m != n { SwappedKept(t, u, m); }
      }
    }
  }

  lemma DeclareNodes(s: State, n: Node, i: nat)
    requires WF(s) && i < |s.rep|
    ensures var t := Declare(s, n, i);
      && n in t.nodes && t.nodes[n] < |t.rep| && t.rep[t.nodes[n]] == t.rep[i]
      && (forall m :: m in s.nodes ==> m in t.nodes && t.nodes[m] == s.nodes[m])
      && (forall m :: m in t.nodes ==> m in s.nodes || m == n)
  {
  }

  lemma PassStep(s: State, t: State, todo: set<Node>, changed: bool, n: Node)
    requires Good(s) && PassInv(s, t, todo, changed) && n in todo && StillThere(s, t, n)
    ensures PassInv(s, Visit(t, n), todo - {n}, changed || Canon(t.rep, n) != n)
    ensures t.birth <= Visit(t, n).birth
  {
    var u := Visit(t, n);
    VisitKeeps(t, n);
    VisitRoots(t, n);
    ProgressTrans(s, t, u);
    QuietStep(s, t, u, todo, changed, n);
    IntactStep(s, t, u, todo, changed, n);
    if Consistent(s) {
      VisitConsistent(t, n);
    }
    forall m | m in todo - {n}
      ensures StillThere(s, u, m)
    {
      assert StillThere(s, t, m);
    }
  }

  /** The loop may exit here: every commutative node has its twin in its class. */
  ghost predicate SwapClosed(s: State)
    requires WF(s)
  {
    forall n :: n in s.nodes && Swappable(n) ==> Swapped(s, n)
  }

  lemma SameKeys<K, V>(a: map<K, V>, b: map<K, V>)
    requires a.Keys <= b.Keys && |a| == |b|
    ensures a.Keys == b.Keys
  {
    var extra := b.Keys - a.Keys;
    assert b.Keys == a.Keys + extra && |b.Keys| == |a.Keys| + |extra|;
  }

  lemma DifferentKeys<K, V>(a: map<K, V>, b: map<K, V>)
    requires a.Keys <= b.Keys && |a| != |b|
    ensures exists k :: k in b && k !in a
  {
    assert |a| == |a.Keys| && |b| == |b.Keys|;
    var extra := b.Keys - a.Keys;
    assert b.Keys == a.Keys + extra;
    var k :| k in extra;
  }

  /** The measure of the saturation loop went down. */
  ghost predicate Shrunk(s: State, t: State) {
    || Roots(t.rep) < Roots(s.rep)
    || (Roots(t.rep) == Roots(s.rep) && !Stale(t) && (Stale(s) || (Unswapped(s) && !Unswapped(t))))
  }

  /** At the end of a pass the loop exits closed under swapping, or it has lost a
      class, or else stale nodes, or else nodes without a twin. */
  lemma PassEnd(s: State, t: State, changed: bool)
    requires Good(s) && PassInv(s, t, {}, changed)
    ensures !changed && |t.nodes| == |s.nodes| ==> SwapClosed(t)
    ensures changed || |t.nodes| != |s.nodes| ==> Shrunk(s, t)
  {
    if !changed {
      assert forall n :: n in s.nodes ==> StillThere(s, t, n);
      if |t.nodes| == |s.nodes| {
        SameKeys(s.nodes, t.nodes);
      } else if Roots(t.rep) == Roots(s.rep) {
        TwinMissing(s, t);
      }
    }
  }

  lemma TwinMissing(s: State, t: State)
    requires Good(s) && PassInv(s, t, {}, false) && |t.nodes| != |s.nodes|
    ensures Unswapped(s) && !Unswapped(t)
  {
    assert forall n :: n in s.nodes ==> StillThere(s, t, n);
    DifferentKeys(s.nodes, t.nodes);
    var n :| n in t.nodes && n !in s.nodes;
    assert Swap(Swap(n)) == n && Swappable(Swap(n));
    forall n | n in t.nodes && Swappable(n)
      ensures Swap(n) in t.nodes
    {
      if n in s.nodes {
        assert Swapped(t, n);
      } else {
        assert StillThere(s, t, Swap(n));
      }
    }
  }

  // ---------------------------------------------------------------------
  // What a swap-closed graph decides
  // ---------------------------------------------------------------------

  /** No two nodes with the same operand classes are in different classes. */
  ghost predicate CongruenceClosed(s: State)
    requires WF(s)
  {
    forall n, m :: n in s.nodes && m in s.nodes && Canon(s.rep, n) == Canon(s.rep, m) ==>
      s.rep[s.nodes[n]] == s.rep[s.nodes[m]]
  }

  /** Two ids have one root exactly if their expressions are equal. */
  ghost predicate DecidesEquality(s: State)
    requires WF(s)
  {
    forall i, j :: 0 <= i < |s.birth| && 0 <= j < |s.birth| ==>
      (s.rep[i] == s.rep[j] <==> Equal(TermOf(s.birth, i), TermOf(s.birth, j)))
  }

  ghost predicate HasClass(s: State, c: Node) {
    exists n :: n in s.nodes && Canon(s.rep, n) == c
  }

  /** The root of the nodes with canonical form `c`, or -1. */
  ghost function ClassOf(s: State, c: Node): int
    requires WF(s)
  {
    if HasClass(s, c) then
      var n :| n in s.nodes && Canon(s.rep, n) == c;
      s.rep[s.nodes[n]]
    else -1
  }

  /** The graph read as an interpretation whose values are roots. */
  ghost function GraphInterp(s: State): Interp
    requires WF(s)
  {
    Interp(
      (a: nat, f: bool) => ClassOf(s, NAtom(a, f)),
      (x: int, f: bool) => if x < 0 then -1 else ClassOf(s, NNeg(x, f)),
      (op: BinOp, rm: nat, f: bool, x: int, y: int) =>
        if x < 0 || y < 0 then -1 else ClassOf(s, NBin(op, rm, f, x, y)))
  }

  lemma ClassOfNode(s: State, n: Node)
    requires WF(s) && CongruenceClosed(s) && n in s.nodes
    ensures ClassOf(s, Canon(s.rep, n)) == s.rep[s.nodes[n]]
  {
    assert HasClass(s, Canon(s.rep, n));
  }

  lemma SwappedClass(s: State, c: Node)
    requires WF(s) && CongruenceClosed(s) && SwapClosed(s) && Swappable(c) && HasClass(s, c)
    ensures ClassOf(s, c) == ClassOf(s, Swap(c))
  {
    var n :| n in s.nodes && Canon(s.rep, n) == c;
    assert Swapped(s, n) && Canon(s.rep, Swap(n)) == Swap(c);
    ClassOfNode(s, n);
    ClassOfNode(s, Swap(n));
  }

  lemma GraphInterpCommutes(s: State)
    requires WF(s) && CongruenceClosed(s) && SwapClosed(s)
    ensures Commutative(GraphInterp(s))
  {
    forall op, rm, f, x, y | Commutes(op)
      ensures GraphInterp(s).bin(op, rm, f, x, y) == GraphInterp(s).bin(op, rm, f, y, x)
    {
      if x >= 0 && y >= 0 {
        var c := NBin(op, rm, f, x, y);
        assert Swap(Swap(c)) == c;
        if HasClass(s, c) {
          SwappedClass(s, c);
        } else if HasClass(s, Swap(c)) {
          SwappedClass(s, Swap(c));
        }
      }
    }
  }

  lemma {:induction false} EvalIsRoot(s: State, i: nat)
    requires WF(s) && Covered(s) && CongruenceClosed(s) && i < |s.birth|
    ensures Eval(GraphInterp(s), TermOf(s.birth, i)) == s.rep[i]
  {
    assert Below(s.birth[i], i);
    match s.birth[i] {
      case NAtom(_, _) =>
      case NNeg(x, _) => EvalIsRoot(s, x);
      case NBin(_, _, _, x, y) => EvalIsRoot(s, x); EvalIsRoot(s, y);
    }
    assert Held(s, i);
    var n :| HoldsFor(s, n, i);
    ClassOfNode(s, n);
  }

  /** After saturation, root equality is equality in every commutative
      interpretation exactly if the graph is congruence closed. */
  lemma SaturatedDecides(s: State)
    requires Good(s) && SwapClosed(s)
    ensures DecidesEquality(s) <==> CongruenceClosed(s)
  {
    if CongruenceClosed(s) {
      GraphInterpCommutes(s);
      forall i, j | 0 <= i < |s.birth| && 0 <= j < |s.birth|
        ensures s.rep[i] == s.rep[j] <==> Equal(TermOf(s.birth, i), TermOf(s.birth, j))
      {
        RootsSound(s, i, j);
        EvalIsRoot(s, i);
        EvalIsRoot(s, j);
      }
    }
    if DecidesEquality(s) {
      forall n, m | n in s.nodes && m in s.nodes && Canon(s.rep, n) == Canon(s.rep, m)
        ensures s.rep[s.nodes[n]] == s.rep[s.nodes[m]]
      {
        CongruentEqual(s, n, m);
      }
    }
  }

  lemma CongruentEqual(s: State, n: Node, m: Node)
    requires WF(s) && Sound(s) && n in s.nodes && m in s.nodes && Canon(s.rep, n) == Canon(s.rep, m)
    ensures Equal(TermOf(s.birth, s.nodes[n]), TermOf(s.birth, s.nodes[m]))
  {
    assert Below(s.birth[s.nodes[n]], |s.birth|) && Below(s.birth[s.nodes[m]], |s.birth|);
    CanonEqual(s, n);
    CanonEqual(s, m);
    TermIrrelevantBound(s.birth, n, |s.birth|, s.nodes[n]);
    TermIrrelevantBound(s.birth, m, |s.birth|, s.nodes[m]);
  }

  lemma RootsSound(s: State, i: nat, j: nat)
    requires WF(s) && Sound(s) && i < |s.birth| && j < |s.birth|
    ensures s.rep[i] == s.rep[j] ==> Equal(TermOf(s.birth, i), TermOf(s.birth, j))
  {
    assert Equal(TermOf(s.birth, i), TermOf(s.birth, s.rep[i]));
    assert Equal(TermOf(s.birth, j), TermOf(s.birth, s.rep[j]));
  }

  // ---------------------------------------------------------------------
  // When the exit test is enough
  // ---------------------------------------------------------------------

  lemma KeptRoots(s: State, t: State)
    requires WF(s) && WF(t) && Progress(s, t)
    ensures s.rep <= t.rep <==> Roots(t.rep) == Roots(s.rep)
  {
    if s.rep <= t.rep {
      forall r | r in Roots(s.rep)
        ensures r in Roots(t.rep)
      {
        assert s.rep[r] == t.rep[r];
      }
    }
  }

  /** A pass that merges nothing leaves canonical nodes only. */
  lemma QuietEnd(s: State, t: State, changed: bool)
    requires Good(s) && PassInv(s, t, {}, changed) && s.rep <= t.rep
    ensures AllCanonical(t) && CongruenceClosed(t) && CongruenceClosed(s)
  {
    KeptRoots(s, t);
    forall n, m | n in s.nodes && m in s.nodes && Canon(s.rep, n) == Canon(s.rep, m)
      ensures s.rep[s.nodes[n]] == s.rep[s.nodes[m]]
    {
      CanonicalHeld(s, t, n);
      CanonicalHeld(s, t, m);
    }
  }

  /** A canonical graph that kept the partition holds the canonical form of every old node. */
  lemma CanonicalHeld(s: State, t: State, n: Node)
    requires WF(s) && WF(t) && Covered(t) && s.birth <= t.birth && s.rep <= t.rep && AllCanonical(t)
    requires n in s.nodes
    ensures var c := Canon(s.rep, n); c in t.nodes && t.rep[t.nodes[c]] == s.rep[s.nodes[n]]
  {
    var i := s.nodes[n];
    CanonPrefix(s, t, n);
    assert Held(t, i);
    var k :| HoldsFor(t, k, i);
    assert t.birth[i] == n && Canon(t.rep, k) == k;
  }

  /** On a graph closed under swapping, congruence closure is all that is missing. */
  lemma ConsistentIff(s: State)
    requires WF(s) && SwapClosed(s)
    ensures Consistent(s) <==> CongruenceClosed(s)
  {
    if CongruenceClosed(s) {
      forall n, m | n in s.nodes && m in s.nodes && Alike(s.rep, n, m)
        ensures s.rep[s.nodes[n]] == s.rep[s.nodes[m]]
      {
        if Canon(s.rep, m) != Canon(s.rep, n) {
          assert Swapped(s, n);
        }
      }
    }
    if Consistent(s) {
      assert forall n, m :: Canon(s.rep, n) == Canon(s.rep, m) ==> Alike(s.rep, n, m);
    }
  }

  /** The test the exit condition lacks: on a graph closed under swapping, a pass
      merges nothing exactly if the graph was congruence closed. */
  lemma OneMorePass(s: State, t: State, changed: bool)
    requires Good(s) && SwapClosed(s) && PassInv(s, t, {}, changed)
    ensures s.rep <= t.rep <==> CongruenceClosed(s)
  {
    ConsistentIff(s);
    if s.rep <= t.rep {
      QuietEnd(s, t, changed);
    }
  }

  /** If passes merged nothing, there was nothing to merge. */
  lemma ConsistentBefore(s: State, t: State)
    requires WF(s) && Good(t) && s.birth <= t.birth && s.rep <= t.rep && AllCanonical(t) && SwapClosed(t)
    ensures Consistent(s)
  {
    forall n, m | n in s.nodes && m in s.nodes && Alike(s.rep, n, m)
      ensures s.rep[s.nodes[n]] == s.rep[s.nodes[m]]
    {
      CanonicalHeld(s, t, n);
      CanonicalHeld(s, t, m);
      if Canon(s.rep, m) != Canon(s.rep, n) {
        assert Swapped(t, Canon(s.rep, n));
      }
    }
  }

  /** `get(expr)`: second operand first, then the first one, then the node. */
  ghost function Build(s: State, e: Expr, flag: bool): (State, nat)
    decreases e
  {
    match e
    case Atom(a) => Get(s, NAtom(a, flag))
    case Reassoc(x) => Build(s, x, true)
    case Neg(x) =>
      var (t, i) := Build(s, x, false);
      Get(t, NNeg(i, flag))
    case Bin(op, rm, l, r) =>
      var (t, j) := Build(s, r, false);
      var (u, i) := Build(t, l, false);
      Get(u, NBin(op, rm, flag, i, j))
  }

  lemma {:induction false} BuildKeeps(s: State, e: Expr, flag: bool)
    requires Good(s)
    ensures var (t, i) := Build(s, e, flag);
      Good(t) && s.birth <= t.birth && i < |t.birth| && TermOf(t.birth, i) == Flatten(e, flag)
    decreases e
  {
    match e
    case Atom(a) => BuildNode(s, NAtom(a, flag));
    case Reassoc(x) => BuildKeeps(s, x, true);
    case Neg(x) =>
      BuildKeeps(s, x, false);
      var (t, i) := Build(s, x, false);
      BuildNode(t, NNeg(i, flag));
    case Bin(op, rm, l, r) =>
      BuildKeeps(s, r, false);
      var (t, j) := Build(s, r, false);
      BuildKeeps(t, l, false);
      var (u, i) := Build(t, l, false);
      TermOfPrefix(t.birth, u.birth, t.birth[j], j);
      BuildNode(u, NBin(op, rm, flag, i, j));
  }

  lemma BuildNode(s: State, n: Node)
    requires Good(s) && Below(n, |s.birth|)
    ensures var (t, i) := Get(s, n);
      Good(t) && s.birth <= t.birth && i < |t.birth| && TermOf(t.birth, i) == NodeTerm(s.birth, n, |s.birth|)
  {
    var (t, i) := Get(s, n);
    GetSound(s, n);
    GetCovered(s, n);
    TermOfPrefix(s.birth, t.birth, n, |s.birth|);
    TermIrrelevantBound(t.birth, n, |s.birth|, i);
  }

  // ---------------------------------------------------------------------
  // The class
  // ---------------------------------------------------------------------

  /** The position of an operation in the order of the node map. */
  function Rank(n: Node): int {
    match n
    case NAtom(_, _) => 5
    case NNeg(_, _) => 4
    case NBin(op, _, _, _, _) => match op case Add => 0 case Sub => 1 case Mul => 2 case Div => 3
  }

  class EGraph {
    const uf: UnionFind
    var nodes: map<Node, nat>
    ghost var birth: seq<Node>

    ghost function S(): State
      reads this, uf
    {
      State(birth, uf.rep, nodes)
    }

    ghost predicate Valid()
      reads this, uf
    {
      uf.Valid() && Good(S())
    }

    constructor ()
      ensures Valid() && fresh(uf) && S() == State([], [], map[])
    {
      uf := new UnionFind(0);
      nodes := map[];
      birth := [];
    }

    method GetNode(n: Node) returns (i: nat)
      requires Valid() && Below(n, |birth|)
      modifies this, uf
      ensures Valid() && (S(), i) == Get(old(S()), n)
    {
      ghost var s := S();
      if n in nodes {
        i := nodes[n];
      } else {
        i := uf.Mk();
        nodes := nodes[n := i];
        birth := birth + [n];
      }
      GetSound(s, n);
      GetCovered(s, n);
    }

    method GetExpr(e: Expr, flag: bool) returns (i: nat)
      requires Valid()
      modifies this, uf
      ensures Valid() && (S(), i) == Build(old(S()), e, flag)
      ensures old(birth) <= birth && i < |birth| && TermOf(birth, i) == Flatten(e, flag)
      decreases e
    {
      ghost var s := S();
      BuildKeeps(s, e, flag);
      match e {
        case Atom(a) => i := GetNode(NAtom(a, flag));
        case Reassoc(x) => i := GetExpr(x, true);
        case Neg(x) =>
          var a := GetExpr(x, false);
          i := GetNode(NNeg(a, flag));
        case Bin(op, rm, l, r) =>
          var b := GetExpr(r, false);
          var a := GetExpr(l, false);
          i := GetNode(NBin(op, rm, flag, a, b));
      }
    }

    method DeclEquivalent(n: Node, n1: nat)
      requires Valid() && Below(n, |birth|) && n1 < |birth|
      requires Equal(NodeTerm(birth, n, |birth|), TermOf(birth, n1))
      modifies this, uf
      ensures Valid() && S() == Declare(old(S()), n, n1)
    {
      DeclareKeeps(S(), n, n1);
      var n2 := GetNode(n);
      var root := uf.Merge(n2, n1);
    }

    method VisitNode(n: Node) returns (changed: bool)
      requires Valid() && n in nodes
      modifies this, uf
      ensures Valid() && S() == Visit(old(S()), n)
      ensures changed <==> Canon(old(uf.rep), n) != n
    {
      ghost var s := S();
      var i := nodes[n];
      VisitTerms(s, n);
      VisitKeeps(s, n);
      var nn := CanonNode(n);
      changed := nn != n;
      assert S() == s;
      if changed {
        DeclEquivalent(nn, i);
        nodes := nodes - {n};
      } else if Swappable(n) {
        DeclEquivalent(Swap(n), i);
      }
    }

    method CanonNode(n: Node) returns (c: Node)
      requires Valid() && Below(n, |birth|)
      modifies uf`id
      ensures Valid() && c == Canon(uf.rep, n)
    {
      match n {
        case NAtom(_, _) => c := n;
        case NNeg(x, f) =>
          var a := uf.Find(x);
          c := NNeg(a, f);
        case NBin(op, rm, f, x, y) =>
          var a := uf.Find(x);
          var b := uf.Find(y);
          c := NBin(op, rm, f, a, b);
      }
    }

    method VisitInPass(n: Node, ghost s: State, ghost todo: set<Node>, changed: bool) returns (changed': bool)
      requires Valid() && n in nodes && Good(s) && PassInv(s, S(), todo, changed)
      requires n in todo && StillThere(s, S(), n)
      modifies this, uf
      ensures Valid() && old(birth) <= birth && PassInv(s, S(), todo - {n}, changed')
    {
      ghost var t := S();
      PassStep(s, t, todo, changed, n);
      var c := VisitNode(n);
      changed' := changed || c;
    }

    /** The next node of the copy in map order, up to nodes of one operation. */
    static method First(todo: set<Node>) returns (n: Node)
      requires todo != {}
      ensures n in todo && forall m :: m in todo ==> Rank(n) <= Rank(m)
    {
      n :| n in todo;
      var rest := todo - {n};
      while rest != {}
        invariant n in todo && rest <= todo
        invariant forall m :: m in todo ==> m in rest || Rank(n) <= Rank(m)
        decreases rest
      {
        var m :| m in rest;
        if Rank(m) < Rank(n) { n := m; }
        rest := rest - {m};
      }
    }

    /** One round of the saturation loop; `again` is the negation of its exit test. */
    method Pass() returns (again: bool)
      requires Valid()
      modifies this, uf
      ensures Valid() && Progress(old(S()), S())
      ensures !again ==> SwapClosed(S())
      ensures again ==> Shrunk(old(S()), S())
      ensures old(uf.rep) <= uf.rep ==> AllCanonical(S()) && CongruenceClosed(S())
      ensures old(SwapClosed(S())) ==> (old(uf.rep) <= uf.rep <==> old(CongruenceClosed(S())))
      ensures old(Consistent(S())) ==> old(uf.rep) <= uf.rep && Consistent(S())
    {
      var copy := nodes;
      var changed := false;
      var todo := copy.Keys;
      ghost var s := S();
      PassStart(s);
      while todo != {}
        invariant Valid() && old(birth) <= birth && PassInv(s, S(), todo, changed)
        decreases todo
      {
        var n := First(todo);
        assert StillThere(s, S(), n);
        changed := VisitInPass(n, s, todo, changed);
        todo := todo - {n};
      }
      PassEnd(s, S(), changed);
      if s.rep <= uf.rep {
        QuietEnd(s, S(), changed);
      }
      if SwapClosed(s) {
        OneMorePass(s, S(), changed);
      }
      again := changed || |nodes| != |copy|;
    }

    /** Terminates, keeps the meaning of every id, and exits closed under swapping.
        `last` is the graph at the start of the last pass: if that pass merged
        nothing, the result is congruence closed. No pass merges anything exactly
        if the graph was consistent from the start. */
    method Saturate() returns (ghost last: State)
      requires Valid()
      modifies this, uf
      ensures Valid() && old(birth) <= birth && SwapClosed(S()) && Progress(old(S()), S())
      ensures Good(last) && Progress(last, S()) && (last.rep <= uf.rep ==> CongruenceClosed(S()))
      ensures old(uf.rep) <= uf.rep <==> old(Consistent(S()))
      ensures old(uf.rep) <= uf.rep ==> CongruenceClosed(S())
    {
      ghost var s := S();
      var again := true;
      last := s;
      while again
        invariant Valid() && Progress(s, S())
        invariant Good(last) && Progress(s, last) && Progress(last, S())
        invariant Consistent(s) ==> s.rep <= uf.rep && Consistent(S())
        invariant !again ==> SwapClosed(S()) && (last.rep <= uf.rep ==> AllCanonical(S()) && CongruenceClosed(S()))
        decreases again, Roots(uf.rep), Stale(S()), Unswapped(S())
      {
        last := S();
        again := Pass();
        ProgressTrans(s, last, S());
      }
      KeptRoots(s, S());
      if s.rep <= uf.rep {
        ConsistentBefore(s, S());
      }
    }
  }

  const Empty := State([], [], map[])

  /** What the roots of two ids say of the expressions they were made for. */
  lemma RootsDecide(birth: seq<Node>, g: State, i: nat, j: nat)
    requires WFBirth(birth) && Good(g) && SwapClosed(g) && birth <= g.birth && i < |birth| && j < |birth|
    ensures g.rep[i] == g.rep[j] ==> Equal(TermOf(birth, i), TermOf(birth, j))
    ensures CongruenceClosed(g) && g.rep[i] != g.rep[j] ==> !Equal(TermOf(birth, i), TermOf(birth, j))
  {
    TermOfPrefix(birth, g.birth, birth[i], i);
    TermOfPrefix(birth, g.birth, birth[j], j);
    RootsSound(g, i, j);
    SaturatedDecides(g);
  }

  /** The graph of both expressions, before saturation. */
  ghost function BothBuilt(a: Expr, b: Expr): State {
    Build(Build(Empty, a, false).0, b, false).0
  }

  /** The graph of both expressions and the ids they got. */
  method BuildBoth(a: Expr, b: Expr) returns (e: EGraph, na: nat, nb: nat)
    ensures fresh(e) && fresh(e.uf) && e.Valid() && e.S() == BothBuilt(a, b) && na < |e.birth| && nb < |e.birth|
    ensures TermOf(e.birth, na) == Flatten(a, false) && TermOf(e.birth, nb) == Flatten(b, false)
    ensures na == Build(Empty, a, false).1 && nb == Build(Build(Empty, a, false).0, b, false).1
  {
    e := new EGraph();
    na := e.GetExpr(a, false);
    ghost var birthA := e.birth;
    nb := e.GetExpr(b, false);
    TermOfPrefix(birthA, e.birth, birthA[na], na);
  }

  /** `float_refined` up to its comparison of roots. Equal roots always mean equal
      expressions. Unequal roots mean unequal ones if the final graph `g` is
      congruence closed, which it is if the last pass, from `last`, merged nothing.
      On a graph with nothing to merge the answer is always right. */
  method FloatRefined(a: Expr, b: Expr) returns (same: bool, ghost last: State, ghost g: State)
    ensures Good(last) && Good(g) && Progress(last, g) && (same || SwapClosed(g))
    ensures same ==> SameMeaning(a, b)
    ensures !same && CongruenceClosed(g) ==> !SameMeaning(a, b)
    ensures !same && last.rep <= g.rep ==> CongruenceClosed(g)
    ensures WF(BothBuilt(a, b)) && Progress(BothBuilt(a, b), g)
    ensures !same && BothBuilt(a, b).rep <= g.rep ==> CongruenceClosed(g)
    ensures Build(Empty, a, false).1 < |g.rep| && Build(Build(Empty, a, false).0, b, false).1 < |g.rep|
    ensures same <==> g.rep[Build(Empty, a, false).1] == g.rep[Build(Build(Empty, a, false).0, b, false).1]
    ensures Consistent(BothBuilt(a, b)) ==> (same <==> SameMeaning(a, b))
  {
    EqualIff(a, b);
    var e, na, nb := BuildBoth(a, b);
    g := e.S();
    last := g;
    if na == nb {
      return true, last, g;
    }
    ghost var before := e.birth;
    last := e.Saturate();
    g := e.S();
    RootsDecide(before, g, na, nb);
    var ra := e.uf.Find(na);
    var rb := e.uf.Find(nb);
    same := ra == rb;
  }

  /** The operations on two different atoms that mean the same when swapped. */
  lemma SwapMeans(op: BinOp, rm: nat, l: nat, r: nat)
    requires l != r
    ensures SameMeaning(Bin(op, rm, Atom(l), Atom(r)), Bin(op, rm, Atom(r), Atom(l))) <==> op == Add || op == Mul
  {
    var a, b := Bin(op, rm, Atom(l), Atom(r)), Bin(op, rm, Atom(r), Atom(l));
    forall J: Interp
      ensures Meaning(J, a, false) == J.bin(op, rm, false, J.atom(l, false), J.atom(r, false))
      ensures Meaning(J, b, false) == J.bin(op, rm, false, J.atom(r, false), J.atom(l, false))
      ensures Lawful(J) && (op == Add || op == Mul) ==> Meaning(J, a, false) == Meaning(J, b, false)
    {
      PairMeans(J, op, rm, l, r);
      PairMeans(J, op, rm, r, l);
      if Lawful(J) { LawfulAt(J, rm, J.atom(l, false), J.atom(r, false)); }
    }
    var I := Interp((id: nat, f) => id, (x, f) => 0, (o: BinOp, m, f, x: int, y) => if o == Add || o == Mul then 0 else x);
    assert Lawful(I);
    assert I.bin(op, rm, false, I.atom(l, false), I.atom(r, false)) == if op == Add || op == Mul then 0 else l;
    assert I.bin(op, rm, false, I.atom(r, false), I.atom(l, false)) == if op == Add || op == Mul then 0 else r;
  }

  lemma PairMeans(I: Interp, op: BinOp, rm: nat, l: nat, r: nat)
    ensures Meaning(I, Bin(op, rm, Atom(l), Atom(r)), false) == I.bin(op, rm, false, I.atom(l, false), I.atom(r, false))
  {
    assert Meaning(I, Atom(l), false) == I.atom(l, false) && Meaning(I, Atom(r), false) == I.atom(r, false);
  }

  lemma LawfulAt(I: Interp, rm: nat, x: int, y: int)
    requires Lawful(I)
    ensures I.bin(Add, rm, false, x, y) == I.bin(Add, rm, false, y, x) && I.bin(Mul, rm, false, x, y) == I.bin(Mul, rm, false, y, x)
  {
  }

  /** The graph of such a pair. */
  lemma SwapBuilt(op: BinOp, rm: nat, l: nat, r: nat)
    requires l != r
    ensures
      var a, b := Bin(op, rm, Atom(l), Atom(r)), Bin(op, rm, Atom(r), Atom(l));
      && Build(Empty, a, false).1 == 2 && Build(Build(Empty, a, false).0, b, false).1 == 3
      && BothBuilt(a, b).birth == [NAtom(r, false), NAtom(l, false), NBin(op, rm, false, 1, 0), NBin(op, rm, false, 0, 1)]
      && BothBuilt(a, b).rep == [0, 1, 2, 3]
  {
    var ar, al, x, y := NAtom(r, false), NAtom(l, false), NBin(op, rm, false, 1, 0), NBin(op, rm, false, 0, 1);
    var s0 := State([ar], [0], map[ar := 0]);
    var s1 := State([ar, al], [0, 1], map[ar := 0, al := 1]);
    var s2 := State([ar, al, x], [0, 1, 2], map[ar := 0, al := 1, x := 2]);
    var s3 := State([ar, al, x, y], [0, 1, 2, 3], map[ar := 0, al := 1, x := 2, y := 3]);
    GetFresh(Empty, ar, s0);
    GetFresh(s0, al, s1);
    GetFresh(s1, x, s2);
    GetFresh(s2, y, s3);
    assert Build(Empty, Atom(r), false) == (s0, 0) && Build(s0, Atom(l), false) == (s1, 1);
    assert Build(Empty, Bin(op, rm, Atom(l), Atom(r)), false) == (s2, 2);
    assert Build(s2, Atom(l), false) == (s2, 1) && Build(s2, Atom(r), false) == (s2, 0);
  }

  lemma DifferentTerms(s: Term, t: Term)
    requires (s.TAtom? && t.TAtom? && s.id != t.id) || (s.TAtom? && t.TBin?)
    ensures !Equal(s, t)
  {
    var I := Interp((id: nat, f) => id + 1, (x, f) => 0, (o: BinOp, m, f, x: int, y: int) => 0);
    assert Commutative(I) && Eval(I, s) == s.id + 1;
  }

  /** If such a pair ends in two classes, nothing was merged. */
  lemma NothingMerged(op: BinOp, rm: nat, l: nat, r: nat, g: State)
    requires l != r && Good(g)
    requires var s := BothBuilt(Bin(op, rm, Atom(l), Atom(r)), Bin(op, rm, Atom(r), Atom(l)));
      WF(s) && Progress(s, g)
    requires |g.rep| > 3 && g.rep[2] != g.rep[3]
    ensures BothBuilt(Bin(op, rm, Atom(l), Atom(r)), Bin(op, rm, Atom(r), Atom(l))).rep <= g.rep
  {
    var s := BothBuilt(Bin(op, rm, Atom(l), Atom(r)), Bin(op, rm, Atom(r), Atom(l)));
    SwapBuilt(op, rm, l, r);
    forall i: nat | i < 4 ensures TermOf(g.birth, i) == TermOf(s.birth, i) { TermOfPrefix(s.birth, g.birth, s.birth[i], i); }
    assert TermOf(s.birth, 0) == TAtom(r, false) && TermOf(s.birth, 1) == TAtom(l, false);
    assert TermOf(s.birth, 2).TBin? && TermOf(s.birth, 3).TBin?;
    forall i: nat, j: nat | i < 2 && i < j < 4
      ensures g.rep[i] != g.rep[j]
    {
      RootsSound(g, i, j);
      DifferentTerms(TermOf(g.birth, i), TermOf(g.birth, j));
    }
    FourRoots(g.rep, Roots(s.rep), Roots(g.rep));
    KeptRoots(s, g);
  }

  lemma FourRoots(rep: seq<nat>, before: set<nat>, after: set<nat>)
    requires Partition(rep) && |rep| > 3 && after == Roots(rep) && after <= before && before <= {0, 1, 2, 3}
    requires forall i, j :: 0 <= i < j < 4 ==> rep[i] != rep[j]
    ensures after == before
  {
    var four := {rep[0], rep[1], rep[2], rep[3]};
    assert four <= after by {
      forall i: nat | i < 4 ensures rep[i] in after { assert IsRoot(rep, rep[i]); }
    }
    assert |four| == 4;
    var rest := {0, 1, 2, 3} - four;
    assert four <= {0, 1, 2, 3} && |{0, 1, 2, 3}| == |four| + |rest|;
    assert rest == {};
  }

  /** An operation on two different atoms and its swapped form are found equal exactly
      if it is an addition or a multiplication. */
  method SwapRefined(op: BinOp, rm: nat, l: nat, r: nat) returns (same: bool)
    requires l != r
    ensures same <==> op == Add || op == Mul
  {
    ghost var last, g;
    same, last, g := FloatRefined(Bin(op, rm, Atom(l), Atom(r)), Bin(op, rm, Atom(r), Atom(l)));
    SwapMeans(op, rm, l, r);
    SwapBuilt(op, rm, l, r);
    if !same {
      NothingMerged(op, rm, l, r, g);
    }
  }

  // ---------------------------------------------------------------------
  // Where saturation stops too early
  // ---------------------------------------------------------------------

  /** A whole pass that visits the nodes in the given order. */
  ghost function RunPass(s: State, order: seq<Node>): State
    decreases |order|
  {
    if order != [] && WF(s) && order[0] in s.nodes then RunPass(Visit(s, order[0]), order[1..]) else s
  }

  /** The pass meets a node that is not canonical. */
  ghost predicate PassChanges(s: State, order: seq<Node>)
    decreases |order|
  {
    && order != [] && WF(s) && order[0] in s.nodes
    && (Canon(s.rep, order[0]) != order[0] || PassChanges(Visit(s, order[0]), order[1..]))
  }

  /** The order is a possible iteration order of the node map. */
  ghost predicate MapOrder(s: State, order: seq<Node>) {
    && (forall n :: n in order <==> n in s.nodes)
    && (forall i, j :: 0 <= i < j < |order| ==> order[i] != order[j] && Rank(order[i]) <= Rank(order[j]))
  }

  /** `atom i * atom j - atom 0` */
  function ProductMinus(i: nat, j: nat): Expr {
    Bin(Sub, 0, Bin(Mul, 0, Atom(i), Atom(j)), Atom(0))
  }

  lemma BuildProductMinus(s: State, i: nat, j: nat)
    ensures
      var (s0, z) := Get(s, NAtom(0, false));
      var (s1, y) := Get(s0, NAtom(j, false));
      var (s2, x) := Get(s1, NAtom(i, false));
      var (s3, m) := Get(s2, NBin(Mul, 0, false, x, y));
      Build(s, ProductMinus(i, j), false) == Get(s3, NBin(Sub, 0, false, m, z))
  {
    var p := Bin(Mul, 0, Atom(i), Atom(j));
    var (s0, z) := Build(s, Atom(0), false);
    var (s1, y) := Build(s0, Atom(j), false);
    var (s2, x) := Build(s1, Atom(i), false);
    assert Build(s0, p, false) == Get(s2, NBin(Mul, 0, false, x, y));
  }

  /** The graph of `x*y - z` and `y*x - z` before saturation. */
  function ProductsGraph(): State {
    var z, y, x := NAtom(0, false), NAtom(1, false), NAtom(2, false);
    var xy, yx := NBin(Mul, 0, false, 2, 1), NBin(Mul, 0, false, 1, 2);
    var sa, sb := NBin(Sub, 0, false, 3, 0), NBin(Sub, 0, false, 5, 0);
    State([z, y, x, xy, sa, yx, sb], [0, 1, 2, 3, 4, 5, 6],
          map[z := 0, y := 1, x := 2, xy := 3, sa := 4, yx := 5, sb := 6])
  }

  lemma GetFresh(s: State, n: Node, t: State)
    requires n !in s.nodes && t.birth == s.birth + [n] && t.rep == s.rep + [|s.rep|]
    requires t.nodes == s.nodes[n := |s.rep|]
    ensures Get(s, n) == (t, |s.rep|)
  {
  }

  /** The graph of `x*y - z` alone. */
  function FirstProduct(): State {
    var z, y, x := NAtom(0, false), NAtom(1, false), NAtom(2, false);
    var xy, sa := NBin(Mul, 0, false, 2, 1), NBin(Sub, 0, false, 3, 0);
    State([z, y, x, xy, sa], [0, 1, 2, 3, 4], map[z := 0, y := 1, x := 2, xy := 3, sa := 4])
  }

  lemma BuildsFirstProduct()
    ensures Build(Empty, ProductMinus(2, 1), false) == (FirstProduct(), 4)
  {
    var z, y, x := NAtom(0, false), NAtom(1, false), NAtom(2, false);
    var s0 := State([z], [0], map[z := 0]);
    var s1 := State([z, y], [0, 1], map[z := 0, y := 1]);
    var s2 := State([z, y, x], [0, 1, 2], map[z := 0, y := 1, x := 2]);
    var xy := NBin(Mul, 0, false, 2, 1);
    var s3 := State([z, y, x, xy], [0, 1, 2, 3], map[z := 0, y := 1, x := 2, xy := 3]);
    BuildProductMinus(Empty, 2, 1);
    GetFresh(Empty, z, s0);
    GetFresh(s0, y, s1);
    GetFresh(s1, x, s2);
    GetFresh(s2, xy, s3);
    GetFresh(s3, NBin(Sub, 0, false, 3, 0), FirstProduct());
  }

  lemma BuildsSecondProduct()
    ensures Build(FirstProduct(), ProductMinus(1, 2), false) == (ProductsGraph(), 6)
  {
    var s := FirstProduct();
    var yx := NBin(Mul, 0, false, 1, 2);
    var t := State(s.birth + [yx], s.rep + [5], s.nodes[yx := 5]);
    BuildProductMinus(s, 1, 2);
    GetFresh(s, yx, t);
    GetFresh(t, NBin(Sub, 0, false, 5, 0), ProductsGraph());
  }

  /** `x*y - z` and `y*x - z` are equal, but the first pass visits the
      subtractions before it merges the two products, sees neither a replaced
      nor a new node, and is the last one. */
  lemma MissedCongruence() returns (order: seq<Node>)
    ensures SameMeaning(ProductMinus(2, 1), ProductMinus(1, 2))
    ensures
      var (s, ia) := Build(Empty, ProductMinus(2, 1), false);
      var (t, ib) := Build(s, ProductMinus(1, 2), false);
      var u := RunPass(t, order);
      && MapOrder(t, order) && !PassChanges(t, order) && |u.nodes| == |t.nodes|
      && ia < |u.rep| && ib < |u.rep| && u.rep[ia] != u.rep[ib]
  {
    BuildsFirstProduct();
    BuildsSecondProduct();
    ProductsEqual();
    order := [NBin(Sub, 0, false, 3, 0), NBin(Sub, 0, false, 5, 0), NBin(Mul, 0, false, 1, 2),
              NBin(Mul, 0, false, 2, 1), NAtom(0, false), NAtom(1, false), NAtom(2, false)];
    ProductsOrder(order);
    RunProducts(order);
  }

  lemma ProductsEqual()
    ensures SameMeaning(ProductMinus(2, 1), ProductMinus(1, 2))
  {
  }

  lemma ProductsOrder(order: seq<Node>)
    requires order == [NBin(Sub, 0, false, 3, 0), NBin(Sub, 0, false, 5, 0), NBin(Mul, 0, false, 1, 2),
                       NBin(Mul, 0, false, 2, 1), NAtom(0, false), NAtom(1, false), NAtom(2, false)]
    ensures MapOrder(ProductsGraph(), order)
  {
  }

  /** The same graph with the class of id 3 joined to the class of id 5. */
  function ProductsMerged(): State {
    ProductsGraph().(rep := [0, 1, 2, 5, 4, 5, 6])
  }

  lemma ProductsWF()
    ensures WF(ProductsGraph()) && WF(ProductsMerged())
  {
    var t := ProductsGraph();
    assert forall i :: 0 <= i < 7 ==> Below(t.birth[i], i);
  }

  lemma VisitProducts()
    ensures WF(ProductsGraph()) && WF(ProductsMerged())
    ensures Visit(ProductsGraph(), NBin(Mul, 0, false, 1, 2)) == ProductsMerged()
    ensures Visit(ProductsMerged(), NBin(Mul, 0, false, 2, 1)) == ProductsMerged()
  {
    ProductsWF();
    var t, u := ProductsGraph(), ProductsMerged();
    assert Merged(t.rep, 3, 5) == u.rep;
    assert Merged(u.rep, 5, 3) == u.rep;
  }

  lemma RunProducts(order: seq<Node>)
    requires order == [NBin(Sub, 0, false, 3, 0), NBin(Sub, 0, false, 5, 0), NBin(Mul, 0, false, 1, 2),
                       NBin(Mul, 0, false, 2, 1), NAtom(0, false), NAtom(1, false), NAtom(2, false)]
    ensures RunPass(ProductsGraph(), order) == ProductsMerged() && !PassChanges(ProductsGraph(), order)
  {
    var t, u := ProductsGraph(), ProductsMerged();
    VisitProducts();
    RunMerged(order[3..]);
    RunSplit(t, u, order[2], order[3..]);
    assert order[2..] == [order[2]] + order[3..];
    RunSplit(t, t, order[1], order[2..]);
    assert order[1..] == [order[1]] + order[2..];
    RunSplit(t, t, order[0], order[1..]);
    assert order == [order[0]] + order[1..];
  }

  lemma RunMerged(order: seq<Node>)
    requires order == [NBin(Mul, 0, false, 2, 1), NAtom(0, false), NAtom(1, false), NAtom(2, false)]
    ensures RunPass(ProductsMerged(), order) == ProductsMerged() && !PassChanges(ProductsMerged(), order)
  {
    var u := ProductsMerged();
    VisitProducts();
    RunSplit(u, u, order[3], []);
    assert order[3..] == [order[3]] + [];
    RunSplit(u, u, order[2], order[3..]);
    assert order[2..] == [order[2]] + order[3..];
    RunSplit(u, u, order[1], order[2..]);
    assert order[1..] == [order[1]] + order[2..];
    RunSplit(u, u, order[0], order[1..]);
    assert order == [order[0]] + order[1..];
  }

  lemma RunSplit(s: State, t: State, n: Node, rest: seq<Node>)
    requires WF(s) && n in s.nodes && Canon(s.rep, n) == n && t == Visit(s, n)
    ensures RunPass(s, [n] + rest) == RunPass(t, rest)
    ensures PassChanges(s, [n] + rest) <==> PassChanges(t, rest)
  {
    assert ([n] + rest)[1..] == rest;
  }
}
