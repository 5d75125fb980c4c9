/** Union-find over group indices, with path compression and union by rank (faces_gocv.go). */
module GroupDsu {

  function Pow2(k: nat): (r: nat)
    ensures r > k
  {
    if k == 0 then 1 else 2 * Pow2(k - 1)
  }

  lemma {:induction false} Pow2Monotone(a: nat, b: nat)
    requires a <= b
    ensures Pow2(a) <= Pow2(b)
  {
    if a < b {
      Pow2Monotone(a, b - 1);
    }
  }

  // ---------- Forests as values ----------

  /** Every parent is a node, and ranks strictly increase on the way to a root. */
  predicate Forest(parent: seq<nat>, rank: seq<nat>) {
    |rank| == |parent|
    && forall x {:trigger parent[x]} :: 0 <= x < |parent| ==>
      parent[x] < |parent| && rank[x] < |parent| && (parent[x] != x ==> rank[x] < rank[parent[x]])
  }

  function Root(parent: seq<nat>, rank: seq<nat>, x: nat): (r: nat)
    requires Forest(parent, rank) && x < |parent|
    ensures r < |parent|
    decreases |parent| - rank[x]
  {
    if parent[x] == x then x else Root(parent, rank, parent[x])
  }

  /** How many parents `Find` follows from `x`. */
  function Depth(parent: seq<nat>, rank: seq<nat>, x: nat): nat
    requires Forest(parent, rank) && x < |parent|
    decreases |parent| - rank[x]
  {
    if parent[x] == x then 0 else 1 + Depth(parent, rank, parent[x])
  }

  /** The partition a forest stands for: for each node the representative of its class. */
  predicate Partition(roots: seq<nat>) {
    forall x :: 0 <= x < |roots| ==> roots[x] < |roots| && roots[roots[x]] == roots[x]
  }

  function Class(roots: seq<nat>, r: nat): set<nat> {
    set x | 0 <= x < |roots| && roots[x] == r
  }

  /** A representative of rank k has at least 2^k nodes in its class. */
  predicate Balanced(rank: seq<nat>, roots: seq<nat>)
    requires |rank| == |roots|
  {
    forall r :: 0 <= r < |roots| && roots[r] == r ==> Pow2(rank[r]) <= |Class(roots, r)|
  }

  /** The forest's root of every node is its representative, and the ranks are earned. */
  predicate Rooted(parent: seq<nat>, rank: seq<nat>, roots: seq<nat>) {
    Forest(parent, rank) && |roots| == |parent| && Partition(roots) && Balanced(rank, roots)
    && forall x {:trigger Root(parent, rank, x)} :: 0 <= x < |parent| ==> Root(parent, rank, x) == roots[x]
  }

  lemma {:induction false} RootIsRoot(parent: seq<nat>, rank: seq<nat>, x: nat)
    requires Forest(parent, rank) && x < |parent|
    ensures var r := Root(parent, rank, x); parent[r] == r && Root(parent, rank, r) == r
    ensures rank[x] + Depth(parent, rank, x) <= rank[Root(parent, rank, x)]
    decreases |parent| - rank[x]
  {
    if parent[x] != x {
      RootIsRoot(parent, rank, parent[x]);
    }
  }

  lemma {:induction false} BoundedSet(s: set<nat>, n: nat)
    requires forall x :: x in s ==> x < n
    ensures |s| <= n
  {
    if n == 0 {
      assert s == {};
    } else {
      BoundedSet(s - {n - 1}, n - 1);
    }
  }

  /** A find follows at most log2(n) parents. */
  lemma DepthIsLogarithmic(parent: seq<nat>, rank: seq<nat>, roots: seq<nat>, x: nat)
    requires Rooted(parent, rank, roots) && x < |parent|
    ensures Pow2(Depth(parent, rank, x)) <= |parent|
  {
    var r := roots[x];
    RootIsRoot(parent, rank, x);
    BoundedSet(Class(roots, r), |parent|);
    Pow2Monotone(Depth(parent, rank, x), rank[r]);
  }

  lemma {:induction false} CompressedRoot(p: seq<nat>, rank: seq<nat>, x: nat, r: nat, y: nat)
    requires Forest(p, rank) && x < |p| && y < |p| && p[x] != x && r == Root(p, rank, x) && p[r] == r
    requires Forest(p[x := r], rank)
    ensures Root(p[x := r], rank, y) == Root(p, rank, y)
    decreases |p| - rank[y]
  {
    if p[y] != y && y != x {
      CompressedRoot(p, rank, x, r, p[y]);
    }
  }

  /** Pointing a node straight at its representative keeps the forest and its partition. */
  lemma Compress(p: seq<nat>, rank: seq<nat>, roots: seq<nat>, x: nat)
    requires Rooted(p, rank, roots) && x < |p| && p[x] != x
    ensures Rooted(p[x := roots[x]], rank, roots)
  {
    var r := roots[x];
    RootIsRoot(p, rank, x);
    assert r == Root(p, rank, x) && p[r] == r && rank[x] < rank[r];
    var q := p[x := r];
    forall y | 0 <= y < |q|
      ensures q[y] < |q| && rank[y] < |q| && (q[y] != y ==> rank[y] < rank[q[y]])
    {
      assert p[y] < |p|;
    }
    forall y | 0 <= y < |p|
      ensures Root(q, rank, y) == roots[y]
    {
      CompressedRoot(p, rank, x, r, y);
    }
  }

  // ---------- Hanging one root under another ----------

  /** The partition with the class of `child` joined to that of `top`. */
  function Joined(roots: seq<nat>, child: nat, top: nat): (r: seq<nat>)
    ensures |r| == |roots|
  {
    seq(|roots|, y requires 0 <= y < |roots| => if roots[y] == child then top else roots[y])
  }

  lemma JoinedSelf(roots: seq<nat>, r: nat)
    ensures Joined(roots, r, r) == roots
  {
  }

  /** The rank of the new root rises only when two equal ranks meet. */
  function Raised(rank: seq<nat>, child: nat, top: nat): (r: seq<nat>)
    requires child < |rank| && top < |rank|
    ensures |r| == |rank|
  {
    if rank[child] == rank[top] then rank[top := rank[top] + 1] else rank
  }

  predicate TwoRoots(roots: seq<nat>, child: nat, top: nat) {
    child < |roots| && top < |roots| && child != top && roots[child] == child && roots[top] == top
  }

  lemma JoinedClass(roots: seq<nat>, child: nat, top: nat)
    requires Partition(roots) && TwoRoots(roots, child, top)
    ensures Class(Joined(roots, child, top), top) == Class(roots, child) + Class(roots, top)
    ensures |Class(Joined(roots, child, top), top)| == |Class(roots, child)| + |Class(roots, top)|
  {
    assert Class(Joined(roots, child, top), top) == Class(roots, child) + Class(roots, top);
    assert Class(roots, child) !! Class(roots, top);
  }

  lemma JoinedBalanced(rank: seq<nat>, roots: seq<nat>, child: nat, top: nat)
    requires |rank| == |roots| && Partition(roots) && Balanced(rank, roots) && TwoRoots(roots, child, top)
    requires rank[child] <= rank[top]
    ensures Balanced(Raised(rank, child, top), Joined(roots, child, top))
  {
    var joined := Joined(roots, child, top);
    JoinedClass(roots, child, top);
    forall r | 0 <= r < |joined| && joined[r] == r
      ensures Pow2(Raised(rank, child, top)[r]) <= |Class(joined, r)|
    {
      if r != top {
        assert Class(joined, r) == Class(roots, r);
        assert Raised(rank, child, top)[r] == rank[r] && roots[r] == r;
      }
    }
  }

  lemma EqualRanksFit(rank: seq<nat>, roots: seq<nat>, a: nat, b: nat)
    requires |rank| == |roots| && Partition(roots) && Balanced(rank, roots) && TwoRoots(roots, a, b) && rank[a] == rank[b]
    ensures rank[a] + 1 < |roots|
  {
    JoinedClass(roots, a, b);
    BoundedSet(Class(Joined(roots, a, b), b), |roots|);
    assert Pow2(rank[a] + 1) <= |Class(Joined(roots, a, b), b)|;
  }

  lemma {:induction false} LinkedRoot(p: seq<nat>, rank: seq<nat>, q: seq<nat>, rank': seq<nat>, child: nat, top: nat, y: nat)
    requires Forest(p, rank) && Forest(q, rank') && child < |p| && top < |p| && y < |p|
    requires child != top && p[child] == child && p[top] == top && q == p[child := top]
    ensures Root(q, rank', y) == if Root(p, rank, y) == child then top else Root(p, rank, y)
    decreases |p| - rank[y]
  {
    if p[y] != y {
      LinkedRoot(p, rank, q, rank', child, top, p[y]);
    }
  }

  lemma LinkForest(p: seq<nat>, rank: seq<nat>, child: nat, top: nat)
    requires Forest(p, rank) && child < |p| && top < |p| && child != top && p[child] == child && p[top] == top
    requires rank[child] <= rank[top] && (rank[child] == rank[top] ==> rank[top] + 1 < |p|)
    ensures Forest(p[child := top], Raised(rank, child, top))
  {
    var q, rank' := p[child := top], Raised(rank, child, top);
    forall x | 0 <= x < |q|
      ensures q[x] < |q| && rank'[x] < |q| && (q[x] != x ==> rank'[x] < rank'[q[x]])
    {
      assert p[x] < |p|;
    }
  }

  lemma JoinedPartition(roots: seq<nat>, child: nat, top: nat)
    requires Partition(roots) && TwoRoots(roots, child, top)
    ensures Partition(Joined(roots, child, top))
  {
  }

  lemma LinkedRoots(p: seq<nat>, rank: seq<nat>, q: seq<nat>, rank': seq<nat>, roots: seq<nat>, child: nat, top: nat)
    requires Rooted(p, rank, roots) && Forest(q, rank') && TwoRoots(roots, child, top) && q == p[child := top]
    ensures forall y :: 0 <= y < |q| ==> Root(q, rank', y) == Joined(roots, child, top)[y]
  {
    RootIsRoot(p, rank, child);
    RootIsRoot(p, rank, top);
    forall y | 0 <= y < |p|
      ensures Root(q, rank', y) == Joined(roots, child, top)[y]
    {
      LinkedRoot(p, rank, q, rank', child, top, y);
    }
  }

  lemma Link(p: seq<nat>, rank: seq<nat>, roots: seq<nat>, child: nat, top: nat)
    requires Rooted(p, rank, roots) && TwoRoots(roots, child, top) && rank[child] <= rank[top]
    ensures Rooted(p[child := top], Raised(rank, child, top), Joined(roots, child, top))
  {
    if rank[child] == rank[top] {
      EqualRanksFit(rank, roots, child, top);
    }
    LinkForest(p, rank, child, top) by {
      RootIsRoot(p, rank, child);
      RootIsRoot(p, rank, top);
    }
    JoinedPartition(roots, child, top);
    JoinedBalanced(rank, roots, child, top);
    LinkedRoots(p, rank, p[child := top], Raised(rank, child, top), roots, child, top);
  }

  // ---------- The structure the source updates in place ----------

  class Dsu {
    const parent: array<nat>
    const rank: array<nat>
    /** The representative of every node. */
    ghost var roots: seq<nat>

    ghost predicate Valid()
      reads this, parent, rank
    {
      parent != rank && Rooted(parent[..], rank[..], roots)
    }

    constructor (n: nat)
      ensures Valid() && fresh(parent) && fresh(rank) && parent.Length == n
      ensures roots == seq(n, i => i)
    {
      parent := new nat[n](i => i);
      rank := new nat[n](_ => 0);
      roots := seq(n, i => i);
      new;
      forall r | 0 <= r < n
        ensures Pow2(0) <= |Class(roots, r)|
      {
        assert r in Class(roots, r);
      }
    }

    /** Recursive, compressing the path on the way back; it follows at most log2(n) parents. */
    method Find(x: nat) returns (r: nat, ghost steps: nat)
      requires Valid() && x < parent.Length
      modifies parent
      ensures Valid() && r == roots[x] && parent[x] == r
      ensures steps == old(Depth(parent[..], rank[..], x)) && Pow2(steps) <= parent.Length
      decreases parent.Length - rank[x]
    {
      ghost var before, ranks := parent[..], rank[..];
      DepthIsLogarithmic(before, ranks, roots, x);
      steps := 0;
      if parent[x] != x {
        RootIsRoot(before, ranks, x);
        assert roots[parent[x]] == roots[x] == Root(before, ranks, x);
        r, steps := Find(parent[x]);
        steps := steps + 1;
        assert rank[..] == ranks;
        ghost var after := parent[..];
        assert after[x] != x by { RootIsRoot(after, ranks, x); }
        Compress(after, ranks, roots, x);
        parent[x] := r;
        assert parent[..] == after[x := r];
      }
      r := parent[x];
    }

    /** By rank: the class of the lower root joins the other's; equal ranks give the second to the first. */
    method Union(a: nat, b: nat)
      requires Valid() && a < parent.Length && b < parent.Length
      modifies this`roots, parent, rank
      ensures Valid()
      ensures var ra, rb := old(roots[a]), old(roots[b]);
        if old(rank[ra]) < old(rank[rb]) then roots == Joined(old(roots), ra, rb) else roots == Joined(old(roots), rb, ra)
    {
      var ra, _ := Find(a);
      var rb, _ := Find(b);
      if ra == rb {
        JoinedSelf(roots, ra);
        return;
      }
      if rank[ra] < rank[rb] {
        Hang(ra, rb);
      } else {
        Hang(rb, ra);
      }
    }

    /** A tie raises the new root's rank. */
    method Hang(child: nat, top: nat)
      requires Valid() && TwoRoots(roots, child, top) && rank[child] <= rank[top]
      modifies this`roots, parent, rank
      ensures Valid() && roots == Joined(old(roots), child, top)
      ensures rank[..] == Raised(old(rank[..]), child, top)
    {
      ghost var p, ranks := parent[..], rank[..];
      parent[child] := top;
      if rank[child] == rank[top] {
        rank[top] := rank[top] + 1;
      }
      assert parent[..] == p[child := top];
      assert rank[..] == Raised(ranks, child, top);
      Link(p, ranks, roots, child, top);
      roots := Joined(roots, child, top);
    }
  }
}
