/** `util::UnionFind`: a forest of parent links with path compression of the
    queried element only. `rep` is the partition the links stand for. */
module UnionFinds {
  /** The partition after the class of `p` joined the class of `q`. */
  function Merged(rep: seq<nat>, p: nat, q: nat): (r: seq<nat>)
    requires p < |rep| && q < |rep|
  {
    seq(|rep|, x requires 0 <= x < |rep| => if rep[x] == rep[p] then rep[q] else rep[x])
  }

  predicate IsRoot(rep: seq<nat>, r: nat) {
    r < |rep| && rep[r] == r
  }

  /** Every element points to the representative of its class. */
  ghost predicate Partition(rep: seq<nat>) {
    forall i :: 0 <= i < |rep| ==> IsRoot(rep, rep[i])
  }

  /** The link of `i` stays in its class and gets closer to the representative. */
  ghost predicate LinkOk(id: seq<nat>, rep: seq<nat>, depth: seq<nat>, i: nat)
    requires |id| == |rep| == |depth| && i < |id|
  {
    && id[i] < |id| && rep[id[i]] == rep[i]
    && (id[i] == i <==> rep[i] == i)
    && (id[i] != i ==> depth[id[i]] < depth[i])
  }

  class UnionFind {
    var id: seq<nat>
    ghost var rep: seq<nat>
    ghost var depth: seq<nat>

    ghost predicate Valid()
      reads this
    {
      && |id| == |rep| == |depth| && Partition(rep)
      && forall i {:trigger LinkOk(id, rep, depth, i)} :: 0 <= i < |id| ==> LinkOk(id, rep, depth, i)
    }

    constructor (n: nat)
      ensures Valid() && rep == seq(n, i => i)
    {
      id := seq(n, i => i);
      rep := seq(n, i => i);
      depth := seq(n, i => 0);
    }

    method Mk() returns (n: nat)
      requires Valid()
      modifies this
      ensures Valid() && n == |old(rep)| && rep == old(rep) + [n]
    {
      n := |id|;
      ghost var id0, rep0, depth0 := id, rep, depth;
      id := id + [n];
      rep := rep + [n];
      depth := depth + [0];
      forall i: nat | i < |id|
        ensures LinkOk(id, rep, depth, i)
      {
        if i < n { assert LinkOk(id0, rep0, depth0, i); }
      }
    }

    method Find(i: nat) returns (root: nat)
      requires Valid() && i < |rep|
      modifies this`id
      ensures Valid() && root == rep[i] && id == old(id)[i := root]
    {
      root := i;
      assert LinkOk(id, rep, depth, i);
      while root != id[root]
        invariant root < |id| && rep[root] == rep[i]
        invariant root == i || depth[root] < depth[i]
        invariant LinkOk(id, rep, depth, root)
        decreases depth[root]
      {
        root := id[root];
        assert LinkOk(id, rep, depth, root);
      }
      ghost var id0 := id;
      id := id[i := root];
      forall j: nat | j < |id|
        ensures LinkOk(id, rep, depth, j)
      {
        assert LinkOk(id0, rep, depth, j);
      }
    }

    method Merge(p: nat, q: nat) returns (j: nat)
      requires Valid() && p < |rep| && q < |rep|
      modifies this
      ensures Valid() && j == old(rep[q]) && rep == Merged(old(rep), p, q)
      ensures id == old(id[p := rep[p]][q := rep[q]][rep[p] := rep[q]])
    {
      var i := Find(p);
      j := Find(q);
      ghost var id0, rep0, depth0 := id, rep, depth;
      id := id[i := j];
      rep := Merged(rep0, p, q);
      if i != j {
        depth := seq(|depth0|, x requires 0 <= x < |depth0| && |depth0| == |rep0| && j < |depth0| =>
          if rep0[x] == i then depth0[x] + depth0[j] + 1 else depth0[x]);
      }
      forall x: nat | x < |id|
        ensures LinkOk(id, rep, depth, x)
      {
        assert LinkOk(id0, rep0, depth0, x);
      }
    }
  }
}
