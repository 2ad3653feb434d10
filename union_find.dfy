/**
 * The weighted quick-union forest of the percolation assignment: a parent array
 * `unions` and a tree-size array `weights`, with `union`, `connected` and the
 * looping `rootOf`.
 */
module UnionFinds {

  /**
   * The partition after the class whose representative is `child` has been
   * merged into the class whose representative is `parent`.
   */
  ghost function Relink(root: seq<int>, child: int, parent: int): (r: seq<int>)
    ensures |r| == |root|
    ensures forall k :: 0 <= k < |root| ==> r[k] == (if root[k] == child then parent else root[k])
  {
    seq(|root|, k requires 0 <= k < |root| => if root[k] == child then parent else root[k])
  }

  /** `root` maps every element to a representative that maps to itself. */
  ghost predicate Representatives(root: seq<int>)
  {
    forall k :: 0 <= k < |root| ==> 0 <= root[k] < |root| && root[root[k]] == root[k]
  }

  /**
   * `after` is the partition `before` with the classes of `x` and `y` joined: a
   * pair is together afterwards iff it was together before, or one end was with
   * `x` and the other with `y`.
   */
  ghost predicate Merged(before: seq<int>, after: seq<int>, x: int, y: int)
    requires 0 <= x < |before| && 0 <= y < |before|
  {
    && |after| == |before|
    && forall a, b :: 0 <= a < |before| && 0 <= b < |before| ==>
      (after[a] == after[b] <==>
        before[a] == before[b]
        || (before[a] == before[x] && before[b] == before[y])
        || (before[a] == before[y] && before[b] == before[x]))
  }

  /** Relinking the root of `x` under that of `y`, or the reverse, joins exactly those two classes. */
  lemma RelinkMergesExactly(root: seq<int>, x: int, y: int, child: int, parent: int)
    requires Representatives(root)
    requires 0 <= x < |root| && 0 <= y < |root|
    requires (child, parent) == (root[x], root[y]) || (child, parent) == (root[y], root[x])
    ensures Representatives(Relink(root, child, parent))
    ensures Merged(root, Relink(root, child, parent), x, y)
  {
  }

  /**
   * `parent` is a forest whose roots are named by `root`; `depth` counts the links
   * from each element up to its root, so following parent links terminates.
   */
  ghost predicate Forest(parent: seq<int>, root: seq<int>, depth: seq<nat>)
  {
    && |parent| == |root| == |depth|
    && (forall i :: 0 <= i < |parent| ==> 0 <= parent[i] < |parent|)
    && Representatives(root)
    && (forall i :: 0 <= i < |parent| && parent[i] == i ==> root[i] == i && depth[i] == 0)
    && (forall i :: 0 <= i < |parent| && parent[i] != i ==>
          root[i] == root[parent[i]] && depth[i] == depth[parent[i]] + 1)
  }

  /** The number of elements whose representative is `r`. */
  ghost function Count(root: seq<int>, r: int): (c: nat)
    ensures c <= |root|
  {
    if root == [] then 0
    else Count(root[..|root| - 1], r) + (if root[|root| - 1] == r then 1 else 0)
  }

  /** Every root's weight is the number of elements of its class. */
  ghost predicate Weighted(parent: seq<int>, weight: seq<int>, root: seq<int>)
  {
    && |weight| == |parent| == |root|
    && forall r :: 0 <= r < |parent| && parent[r] == r ==> weight[r] == Count(root, r)
  }

  /** Depths after the tree of `child` has been hung one level below another root. */
  ghost function Deepen(depth: seq<nat>, root: seq<int>, child: int): (d: seq<nat>)
    requires |depth| == |root|
    ensures |d| == |depth|
    ensures forall k :: 0 <= k < |depth| ==> d[k] == if root[k] == child then depth[k] + 1 else depth[k]
  {
    seq(|depth|, k requires 0 <= k < |depth| => if root[k] == child then depth[k] + 1 else depth[k])
  }

  /** Linking one root under another root keeps a forest, with the merged partition. */
  lemma LinkKeepsForest(parent: seq<int>, root: seq<int>, depth: seq<nat>, child: int, newParent: int)
    requires Forest(parent, root, depth)
    requires 0 <= child < |parent| && 0 <= newParent < |parent| && child != newParent
    requires parent[child] == child && parent[newParent] == newParent
    ensures Forest(parent[child := newParent], Relink(root, child, newParent), Deepen(depth, root, child))
  {
  }

  /**
   * Moving the class of `child` into that of `parent` adds its count to `parent`'s
   * and leaves every other class's count alone.
   */
  lemma {:induction false} RelinkCounts(root: seq<int>, child: int, parent: int, r: int)
    requires child != parent
    ensures Count(Relink(root, child, parent), r) ==
      if r == parent then Count(root, parent) + Count(root, child)
      else if r == child then 0
      else Count(root, r)
  {
    if root != [] {
      var n := |root| - 1;
      assert Relink(root, child, parent)[..n] == Relink(root[..n], child, parent);
      RelinkCounts(root[..n], child, parent, r);
    }
  }

  /** Linking one root under another, adding its weight, keeps every root's weight exact. */
  lemma LinkKeepsWeights(parent: seq<int>, weight: seq<int>, root: seq<int>, child: int, newParent: int)
    requires Weighted(parent, weight, root)
    requires 0 <= child < |parent| && 0 <= newParent < |parent| && child != newParent
    requires parent[child] == child && parent[newParent] == newParent
    ensures Weighted(parent[child := newParent], weight[newParent := weight[newParent] + weight[child]],
                     Relink(root, child, newParent))
  {
    forall r | 0 <= r < |parent| && parent[child := newParent][r] == r
      ensures weight[newParent := weight[newParent] + weight[child]][r] == Count(Relink(root, child, newParent), r)
    {
      RelinkCounts(root, child, newParent, r);
    }
  }

  class WeightedUnionFind {
    /** Parent links: `unions[i] == i` marks a root. */
    const unions: array<int>
    /** Tree sizes, kept up to date for roots only. */
    const weights: array<int>

    /** The representative (root) of every element: the partition this forest stands for. */
    ghost var root: seq<int>
    /** Number of parent links from every element up to its root; bounds `RootOf`'s loop. */
    ghost var depth: seq<nat>

    ghost function Repr(): set<object>
    {
      {this, unions, weights}
    }

    ghost predicate Valid()
      reads this, unions, weights
    {
      && unions != weights
      && Forest(unions[..], root, depth)
      && Weighted(unions[..], weights[..], root)
    }

    /** Elements `p` and `q` are in the same class. */
    ghost predicate Together(p: int, q: int)
      reads this
      requires 0 <= p < |root| && 0 <= q < |root|
    {
      root[p] == root[q]
    }

    /** `n` singleton classes, each element its own root of weight 1. */
    constructor (n: int)
      requires n >= 0
      ensures Valid() && fresh(unions) && fresh(weights)
      ensures unions.Length == n
      ensures unions[..] == seq(n, i => i) && weights[..] == seq(n, i => 1) && root == seq(n, i => i)
      ensures forall p, q :: 0 <= p < n && 0 <= q < n ==> (Together(p, q) <==> p == q)
    {
      unions := new int[n];
      weights := new int[n];
      new;
      for i := 0 to unions.Length
        invariant forall k :: 0 <= k < i ==> unions[k] == k
      {
        unions[i] := i;
      }
      for i := 0 to weights.Length
        invariant forall k :: 0 <= k < n ==> unions[k] == k
        invariant forall k :: 0 <= k < i ==> weights[k] == 1
      {
        weights[i] := 1;
      }
      root := seq(n, i => i);
      depth := seq(n, i => 0);
      assert unions[..] == seq(n, i => i) && weights[..] == seq(n, i => 1);
      forall r | 0 <= r < n
        ensures weights[r] == Count(root, r)
      {
        SingletonCount(n, r);
      }
    }

    /** Follows parent links from `i` up to its root. */
    method RootOf(i: int) returns (r: int)
      requires Valid() && 0 <= i < unions.Length
      ensures 0 <= r < unions.Length && unions[r] == r
      ensures r == root[i]
    {
      r := i;
      while unions[r] != r
        invariant 0 <= r < unions.Length && root[r] == root[i]
        decreases depth[r]
      {
        r := unions[r];
      }
    }

    method Connected(p: int, q: int) returns (b: bool)
      requires Valid() && 0 <= p < unions.Length && 0 <= q < unions.Length
      ensures b <==> Together(p, q)
    {
      var pRoot := RootOf(p);
      var qRoot := RootOf(q);
      b := pRoot == qRoot;
    }

    /**
     * Merges the classes of `p` and `q`. The root of SMALLER weight becomes the
     * parent, and on equal weights `p`'s root goes under `q`'s root.
     */
    method Union(p: int, q: int)
      requires Valid() && 0 <= p < unions.Length && 0 <= q < unions.Length
      modifies this, unions, weights
      ensures Valid() && Together(p, q)
      ensures |root| == old(|root|)
      ensures Merged(old(root), root, p, q)
      ensures old(Together(p, q)) ==>
        unions[..] == old(unions[..]) && weights[..] == old(weights[..]) && root == old(root)
      ensures !old(Together(p, q)) && old(weights[root[p]] < weights[root[q]]) ==>
        && unions[..] == old(unions[..])[old(root[q]) := old(root[p])]
        && weights[old(root[p])] == old(weights[root[p]] + weights[root[q]])
        && (forall k :: 0 <= k < weights.Length && k != old(root[p]) ==> weights[k] == old(weights[k]))
        && root == Relink(old(root), old(root[q]), old(root[p]))
      ensures !old(Together(p, q)) && old(weights[root[p]] >= weights[root[q]]) ==>
        && unions[..] == old(unions[..])[old(root[p]) := old(root[q])]
        && weights[old(root[q])] == old(weights[root[q]] + weights[root[p]])
        && (forall k :: 0 <= k < weights.Length && k != old(root[q]) ==> weights[k] == old(weights[k]))
        && root == Relink(old(root), old(root[p]), old(root[q]))
    {
      var pRoot := RootOf(p);
      var qRoot := RootOf(q);

      if qRoot == pRoot {
        return;
      }

      RelinkMergesExactly(root, p, q, pRoot, qRoot);
      RelinkMergesExactly(root, p, q, qRoot, pRoot);
      if weights[pRoot] < weights[qRoot] {
        Link(qRoot, pRoot);
      } else {
        Link(pRoot, qRoot);
      }
    }

    /** Hangs root `child` under root `parent`, which takes over its weight. */
    method Link(child: int, parent: int)
      requires Valid() && 0 <= child < unions.Length && 0 <= parent < unions.Length
      requires unions[child] == child && unions[parent] == parent && child != parent
      modifies this, unions, weights
      ensures Valid()
      ensures unions[..] == old(unions[..])[child := parent]
      ensures weights[parent] == old(weights[parent] + weights[child])
      ensures forall k :: 0 <= k < weights.Length && k != parent ==> weights[k] == old(weights[k])
      ensures root == Relink(old(root), child, parent)
    {
      ghost var links, sizes := unions[..], weights[..];
      unions[child] := parent;
      weights[parent] := weights[parent] + weights[child];
      assert unions[..] == links[child := parent];
      assert weights[..] == sizes[parent := sizes[parent] + sizes[child]];
      assert Forest(unions[..], Relink(root, child, parent), Deepen(depth, root, child)) by {
        LinkKeepsForest(links, root, depth, child, parent);
      }
      assert Weighted(unions[..], weights[..], Relink(root, child, parent)) by {
        LinkKeepsWeights(links, sizes, root, child, parent);
      }
      depth := Deepen(depth, root, child);
      root := Relink(root, child, parent);
    }

    /** No class is larger than the forest, so the weights never overflow. */
    lemma WeightAtMostSize(r: int)
      requires Valid() && 0 <= r < unions.Length && unions[r] == r
      ensures 1 <= weights[r] <= unions.Length
    {
      CountOfRepresentative(root, r);
    }
  }

  /** In the identity partition every element is alone in its class. */
  lemma {:induction false} SingletonCount(n: nat, r: int)
    requires 0 <= r < n
    ensures Count(seq(n, i => i), r) == 1
  {
    if n - 1 == r {
      assert seq(n, i => i)[..n - 1] == seq(n - 1, i => i);
      AbsentCount(seq(n - 1, i => i), r);
    } else {
      assert seq(n, i => i)[..n - 1] == seq(n - 1, i => i);
      SingletonCount(n - 1, r);
    }
  }

  /** A value that does not occur is counted zero times. */
  lemma {:induction false} AbsentCount(root: seq<int>, r: int)
    requires forall k :: 0 <= k < |root| ==> root[k] != r
    ensures Count(root, r) == 0
  {
    if root != [] {
      AbsentCount(root[..|root| - 1], r);
    }
  }

  /** A value that occurs is counted at least once. */
  lemma {:induction false} CountOfRepresentative(root: seq<int>, r: int)
    requires r in root
    ensures Count(root, r) >= 1
  {
    var n := |root| - 1;
    if root[n] != r {
      assert r in root[..n];
      CountOfRepresentative(root[..n], r);
    }
  }
}
