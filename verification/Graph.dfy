/** Control-flow graphs as `Function` holds them: block `b` is the b-th entry of
    `BB_order`, `g[b]` lists the jump targets of its terminator in operand order,
    and the index `|g|` stands for the sink block, which has no terminator. */
module Graph {
  type Cfg = seq<seq<nat>>

  ghost predicate WellFormed(g: Cfg) {
    |g| > 0 && forall u, i :: 0 <= u < |g| && 0 <= i < |g[u]| ==> g[u][i] <= |g|
  }

  predicate Edge(g: Cfg, u: nat, v: nat) {
    u < |g| && v in g[u]
  }

  /** `p` is a walk over real blocks (the sink is never on it). */
  ghost predicate IsWalk(g: Cfg, p: seq<nat>) {
    && |p| > 0
    && (forall i :: 0 <= i < |p| ==> p[i] < |g|)
    && (forall i :: 0 <= i < |p| - 1 ==> Edge(g, p[i], p[i + 1]))
  }

  ghost predicate WalkFromTo(g: Cfg, a: nat, b: nat, p: seq<nat>) {
    IsWalk(g, p) && p[0] == a && p[|p| - 1] == b
  }

  /** Every walk from the first block to `b` passes through `a`. */
  ghost predicate Dominates(g: Cfg, a: nat, b: nat) {
    forall p :: WalkFromTo(g, 0, b, p) ==> a in p
  }

  lemma ExtendWalk(g: Cfg, a: nat, u: nat, v: nat, p: seq<nat>)
    requires WalkFromTo(g, a, u, p) && Edge(g, u, v) && v < |g|
    ensures WalkFromTo(g, a, v, p + [v])
  {
  }

  /** A strict dominator of `x` dominates every predecessor of `x`. */
  lemma DominatesPredecessor(g: Cfg, d: nat, u: nat, x: nat)
    requires Dominates(g, d, x) && d != x && Edge(g, u, x) && x < |g|
    ensures Dominates(g, d, u)
  {
    forall p | WalkFromTo(g, 0, u, p)
      ensures d in p
    {
      ExtendWalk(g, 0, u, x, p);
      assert d in p + [x];
    }
  }
}
