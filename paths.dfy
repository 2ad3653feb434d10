/**
 * Undirected reachability over a finite edge set: the meaning of "these two
 * elements were unioned, directly or through others". An edge `(u, v)` is stored
 * together with `(v, u)`.
 */
module Paths {
  import opened UnionFinds

  type Edges = set<(int, int)>

  /** The two directed halves of the undirected edge `u`–`v`. */
  function EdgeBetween(u: int, v: int): (e: Edges)
    ensures (u, v) in e && (v, u) in e && |e| <= 2
  {
    {(u, v), (v, u)}
  }

  ghost predicate Symmetric(e: Edges)
  {
    forall w :: w in e ==> (w.1, w.0) in e
  }

  /** Consecutive elements of `p` are joined by edges of `e`. */
  ghost predicate IsPath(e: Edges, p: seq<int>)
  {
    && |p| >= 1
    && forall i :: 0 <= i < |p| - 1 ==> (p[i], p[i + 1]) in e
  }

  /** Some path of `e` leads from `a` to `b`. */
  ghost predicate Linked(e: Edges, a: int, b: int)
  {
    exists p :: IsPath(e, p) && p[0] == a && p[|p| - 1] == b
  }

  /**
   * `root` names one representative per element, and two elements share it
   * exactly when a path of `e` joins them.
   */
  ghost predicate Tracks(root: seq<int>, e: Edges)
  {
    forall a, b :: 0 <= a < |root| && 0 <= b < |root| ==> (root[a] == root[b] <==> Linked(e, a, b))
  }

  lemma LinkedRefl(e: Edges, a: int)
    ensures Linked(e, a, a)
  {
    assert IsPath(e, [a]);
  }

  lemma LinkedEdge(e: Edges, a: int, b: int)
    requires (a, b) in e
    ensures Linked(e, a, b)
  {
    assert IsPath(e, [a, b]);
  }

  /** Two paths that meet make one. */
  lemma PathAppend(e: Edges, p: seq<int>, q: seq<int>)
    requires IsPath(e, p) && IsPath(e, q) && p[|p| - 1] == q[0]
    ensures IsPath(e, p + q[1..])
  {
    var r := p + q[1..];
    forall i | 0 <= i < |r| - 1
      ensures (r[i], r[i + 1]) in e
    {
      if i < |p| - 1 {
        assert r[i] == p[i] && r[i + 1] == p[i + 1];
      } else {
        assert r[i] == q[i - |p| + 1] && r[i + 1] == q[i - |p| + 2];
      }
    }
  }

  lemma LinkedTrans(e: Edges, a: int, b: int, c: int)
    requires Linked(e, a, b) && Linked(e, b, c)
    ensures Linked(e, a, c)
  {
    var p :| IsPath(e, p) && p[0] == a && p[|p| - 1] == b;
    var q :| IsPath(e, q) && q[0] == b && q[|q| - 1] == c;
    PathAppend(e, p, q);
    var r := p + q[1..];
    assert r[0] == a && r[|r| - 1] == c;
  }

  /** A path read backwards is a path of a symmetric edge set. */
  lemma LinkedSym(e: Edges, a: int, b: int)
    requires Symmetric(e) && Linked(e, a, b)
    ensures Linked(e, b, a)
  {
    var p :| IsPath(e, p) && p[0] == a && p[|p| - 1] == b;
    var r := seq(|p|, i requires 0 <= i < |p| => p[|p| - 1 - i]);
    forall i | 0 <= i < |r| - 1
      ensures (r[i], r[i + 1]) in e
    {
      var k := |p| - 2 - i;
      assert (p[k], p[k + 1]) in e;
      assert r[i] == p[k + 1] && r[i + 1] == p[k];
    }
    assert IsPath(e, r) && r[0] == b && r[|r| - 1] == a;
  }

  /** More edges link at least as much. */
  lemma LinkedMono(e: Edges, f: Edges, a: int, b: int)
    requires e <= f && Linked(e, a, b)
    ensures Linked(f, a, b)
  {
    var p :| IsPath(e, p) && p[0] == a && p[|p| - 1] == b;
    assert IsPath(f, p);
  }

  /** A path of more than one element starts with an edge. */
  lemma PathStart(e: Edges, p: seq<int>)
    requires IsPath(e, p)
    ensures |p| == 1 || (p[0], p[1]) in e
  {
  }

  /** An element that no edge touches is linked to itself only. */
  lemma IsolatedLinked(e: Edges, a: int, b: int)
    requires forall w :: w in e ==> w.0 != a && w.1 != a
    requires Linked(e, a, b)
    ensures b == a
  {
    var p :| IsPath(e, p) && p[0] == a && p[|p| - 1] == b;
    PathStart(e, p);
  }

  /** Without edges, every element is alone. */
  lemma LinkedEmpty(a: int, b: int)
    ensures Linked({}, a, b) <==> a == b
  {
    if Linked({}, a, b) {
      IsolatedLinked({}, a, b);
    } else {
      LinkedRefl({}, a);
    }
  }
  /** A partition into singletons tracks the empty edge set. */
  lemma SingletonsTrackNothing(root: seq<int>)
    requires root == seq(|root|, i => i)
    ensures Tracks(root, {})
  {
    forall a, b | 0 <= a < |root| && 0 <= b < |root|
      ensures root[a] == root[b] <==> Linked({}, a, b)
    {
      LinkedEmpty(a, b);
    }
  }


  /**
   * Adding the edge `u`–`v` links `a` to `b` iff they were linked already, or
   * one of them was linked to `u` and the other to `v`.
   */
  lemma LinkedAddEdge(e: Edges, u: int, v: int, a: int, b: int)
    requires Symmetric(e)
    ensures Linked(e + EdgeBetween(u, v), a, b) <==>
      Linked(e, a, b) || (Linked(e, a, u) && Linked(e, v, b)) || (Linked(e, a, v) && Linked(e, u, b))
  {
    var f := e + EdgeBetween(u, v);
    if Linked(f, a, b) {
      var p :| IsPath(f, p) && p[0] == a && p[|p| - 1] == b;
      PathAcross(e, u, v, p);
    }
    if Linked(e, a, b) {
      LinkedMono(e, f, a, b);
    }
    if Linked(e, a, u) && Linked(e, v, b) {
      LinkedMono(e, f, a, u);
      LinkedMono(e, f, v, b);
      LinkedEdge(f, u, v);
      LinkedTrans(f, a, u, v);
      LinkedTrans(f, a, v, b);
    }
    if Linked(e, a, v) && Linked(e, u, b) {
      LinkedMono(e, f, a, v);
      LinkedMono(e, f, u, b);
      LinkedEdge(f, v, u);
      LinkedTrans(f, a, v, u);
      LinkedTrans(f, a, u, b);
    }
  }

  /**
   * The relation "linked without the new edge, or through it once" that a path
   * of `e + EdgeBetween(u, v)` starting at `a` keeps as it grows.
   */
  ghost predicate ViaEdge(e: Edges, u: int, v: int, a: int, b: int)
  {
    Linked(e, a, b) || (Linked(e, a, u) && Linked(e, v, b)) || (Linked(e, a, v) && Linked(e, u, b))
  }

  lemma {:induction false} PathAcross(e: Edges, u: int, v: int, p: seq<int>)
    requires Symmetric(e) && IsPath(e + EdgeBetween(u, v), p)
    ensures ViaEdge(e, u, v, p[0], p[|p| - 1])
    decreases |p|
  {
    var a, b := p[0], p[|p| - 1];
    if |p| == 1 {
      LinkedRefl(e, a);
    } else {
      var q := p[..|p| - 1];
      assert IsPath(e + EdgeBetween(u, v), q);
      PathAcross(e, u, v, q);
      var c := q[|q| - 1];
      assert (c, b) in e + EdgeBetween(u, v);
      ViaEdgeStep(e, u, v, a, c, b);
    }
  }

  /** One more step along an old edge or the new one keeps `ViaEdge`. */
  lemma ViaEdgeStep(e: Edges, u: int, v: int, a: int, c: int, b: int)
    requires Symmetric(e) && ViaEdge(e, u, v, a, c) && (c, b) in e + EdgeBetween(u, v)
    ensures ViaEdge(e, u, v, a, b)
  {
    if (c, b) in e {
      LinkedEdge(e, c, b);
      if Linked(e, a, c) {
        LinkedTrans(e, a, c, b);
      } else if Linked(e, a, u) && Linked(e, v, c) {
        LinkedTrans(e, v, c, b);
      } else {
        LinkedTrans(e, u, c, b);
      }
    } else if (c, b) == (u, v) {
      LinkedRefl(e, b);
      if Linked(e, a, c) {
      } else if Linked(e, a, u) && Linked(e, v, c) {
        LinkedSym(e, v, c);
        LinkedTrans(e, a, u, v);
      } else {
      }
    } else {
      assert (c, b) == (v, u);
      LinkedRefl(e, b);
      if Linked(e, a, c) {
      } else if Linked(e, a, u) && Linked(e, v, c) {
      } else {
        LinkedSym(e, u, c);
        LinkedTrans(e, a, v, u);
      }
    }
  }

  /**
   * A partition that tracks `e`, merged at `u` and `v`, tracks `e` with the
   * edge `u`–`v` added.
   */
  lemma TracksAddEdge(before: seq<int>, after: seq<int>, e: Edges, u: int, v: int)
    requires Symmetric(e) && Tracks(before, e)
    requires 0 <= u < |before| && 0 <= v < |before|
    requires Merged(before, after, u, v)
    ensures Symmetric(e + EdgeBetween(u, v)) && Tracks(after, e + EdgeBetween(u, v))
  {
    forall a, b | 0 <= a < |after| && 0 <= b < |after|
      ensures after[a] == after[b] <==> Linked(e + EdgeBetween(u, v), a, b)
    {
      LinkedAddEdge(e, u, v, a, b);
      if Linked(e, v, b) {
        LinkedSym(e, v, b);
      }
      if Linked(e, u, b) {
        LinkedSym(e, u, b);
      }
      if before[b] == before[v] {
        LinkedSym(e, b, v);
      }
      if before[b] == before[u] {
        LinkedSym(e, b, u);
      }
    }
  }

  /** A stretch of a path is a path. */
  lemma PathSlice(e: Edges, p: seq<int>, i: int, j: int)
    requires IsPath(e, p) && 0 <= i < j <= |p|
    ensures IsPath(e, p[i..j])
  {
    var q := p[i..j];
    forall k | 0 <= k < |q| - 1
      ensures (q[k], q[k + 1]) in e
    {
      assert q[k] == p[i + k] && q[k + 1] == p[i + k + 1];
    }
  }

  /** A path that keeps clear of `vs` uses only the edges of `e` that keep clear of `vs`. */
  lemma PathAvoiding(e: Edges, f: Edges, vs: set<int>, p: seq<int>)
    requires IsPath(e, p)
    requires forall k :: 0 <= k < |p| ==> p[k] !in vs
    requires forall w :: w in e && w.0 !in vs && w.1 !in vs ==> w in f
    ensures IsPath(f, p)
  {
    forall k | 0 <= k < |p| - 1
      ensures (p[k], p[k + 1]) in f
    {
      assert (p[k], p[k + 1]) in e;
    }
  }

  /** The last position at which `v` occurs in `p`. */
  lemma LastVisit(p: seq<int>, v: int) returns (i: int)
    requires v in p
    ensures 0 <= i < |p| && p[i] == v
    ensures forall k :: i < k < |p| ==> p[k] != v
  {
    i := |p| - 1;
    while p[i] != v
      invariant 0 <= i < |p| && v in p[..i + 1]
      invariant forall k :: i < k < |p| ==> p[k] != v
      decreases i
    {
      i := i - 1;
    }
  }

  /** The first position at which `v` occurs in `p`. */
  lemma FirstVisit(p: seq<int>, v: int) returns (j: int)
    requires v in p
    ensures 0 <= j < |p| && p[j] == v
    ensures forall k :: 0 <= k < j ==> p[k] != v
  {
    j := 0;
    while p[j] != v
      invariant 0 <= j < |p| && v in p[j..]
      invariant forall k :: 0 <= k < j ==> p[k] != v
      decreases |p| - j
    {
      j := j + 1;
    }
  }

  /** The pairs of `adj` whose two ends are both open. */
  ghost function OpenPairs(adj: Edges, open: seq<bool>): Edges
  {
    set w | w in adj && 0 <= w.0 < |open| && 0 <= w.1 < |open| && open[w.0] && open[w.1]
  }

  /** Opening more elements keeps every open pair. */
  lemma OpenPairsMono(adj: Edges, open: seq<bool>, more: seq<bool>)
    requires |open| == |more| && forall k :: 0 <= k < |open| && open[k] ==> more[k]
    ensures OpenPairs(adj, open) <= OpenPairs(adj, more)
  {
  }

  /** The open pairs that have `c` at one end. */
  ghost function Touching(adj: Edges, open: seq<bool>, c: int): Edges
  {
    set w | w in OpenPairs(adj, open) && (w.0 == c || w.1 == c)
  }

  /** The node `v` joined, both ways, to every open element with index in `[lo, hi)`. */
  ghost function VirtualEdges(v: int, lo: int, hi: int, open: seq<bool>): Edges
    requires 0 <= lo <= hi <= |open|
  {
    (set a | lo <= a < hi && open[a] :: (v, a)) + (set a | lo <= a < hi && open[a] :: (a, v))
  }

  /** Opening `c` adds to the open pairs exactly those at `c`. */
  lemma OpenPairsGrow(adj: Edges, open: seq<bool>, c: int)
    requires 0 <= c < |open|
    ensures OpenPairs(adj, open[c := true]) == OpenPairs(adj, open) + Touching(adj, open[c := true], c)
  {
  }

  /** Opening `c` joins it to `v` when `c` lies in `[lo, hi)`, and adds nothing else. */
  lemma OpenVirtualEdges(v: int, lo: int, hi: int, open: seq<bool>, c: int)
    requires 0 <= lo <= hi <= |open| && 0 <= c < |open|
    ensures VirtualEdges(v, lo, hi, open[c := true]) ==
      VirtualEdges(v, lo, hi, open) + (if lo <= c < hi then EdgeBetween(v, c) else {})
  {
  }

  lemma OpenPairsSymmetric(adj: Edges, open: seq<bool>)
    requires Symmetric(adj)
    ensures Symmetric(OpenPairs(adj, open))
  {
  }

  /** A closed element has no open pair at it, and no virtual edge. */
  lemma ClosedIsolated(adj: Edges, open: seq<bool>, k: int)
    requires 0 <= k < |open| && !open[k]
    ensures forall w :: w in OpenPairs(adj, open) ==> w.0 != k && w.1 != k
  {
  }

  /**
   * With the elements `[0, size)` and edges `e` among them, a virtual node `v`
   * outside joined to the open elements of `[lo, hi)` reaches element `k`
   * exactly when some open element of `[lo, hi)` reaches `k` without it.
   */
  lemma ThroughVirtual(e: Edges, v: int, lo: int, hi: int, open: seq<bool>, k: int)
    requires 0 <= lo <= hi <= |open| && !(0 <= v < |open|) && 0 <= k < |open|
    requires forall w :: w in e ==> 0 <= w.0 < |open| && 0 <= w.1 < |open|
    ensures Linked(e + VirtualEdges(v, lo, hi, open), v, k) <==>
      exists t :: lo <= t < hi && open[t] && Linked(e, t, k)
  {
    var f := e + VirtualEdges(v, lo, hi, open);
    if Linked(f, v, k) {
      var t := LeaveVirtual(e, v, lo, hi, open, k);
    }
    if exists t :: lo <= t < hi && open[t] && Linked(e, t, k) {
      var t :| lo <= t < hi && open[t] && Linked(e, t, k);
      LinkedMono(e, f, t, k);
      LinkedEdge(f, v, t);
      LinkedTrans(f, v, t, k);
    }
  }

  /** A path from the virtual node to `k` leaves it, for the last time, to an open element that reaches `k` through `e`. */
  lemma LeaveVirtual(e: Edges, v: int, lo: int, hi: int, open: seq<bool>, k: int) returns (t: int)
    requires 0 <= lo <= hi <= |open| && !(0 <= v < |open|) && 0 <= k < |open|
    requires forall w :: w in e ==> 0 <= w.0 < |open| && 0 <= w.1 < |open|
    requires Linked(e + VirtualEdges(v, lo, hi, open), v, k)
    ensures lo <= t < hi && open[t] && Linked(e, t, k)
  {
    var f := e + VirtualEdges(v, lo, hi, open);
    var p :| IsPath(f, p) && p[0] == v && p[|p| - 1] == k;
    var i := LastVisit(p, v);
    PathSlice(f, p, i, |p|);
    var q := p[i..];
    PathStart(f, q);
    t := q[1];
    VirtualEdgeEnd(e, v, lo, hi, open, t);
    PathSlice(f, q, 1, |q|);
    assert forall x :: 0 <= x < |q[1..]| ==> q[1..][x] == p[i + 1 + x] != v;
    PathAvoiding(f, e, {v}, q[1..]);
    var r := q[1..];
    assert r[0] == t && r[|r| - 1] == k;
  }

  /** An edge from a virtual node outside the elements' range is one of its virtual links. */
  lemma VirtualEdgeEnd(e: Edges, v: int, lo: int, hi: int, open: seq<bool>, x: int)
    requires 0 <= lo <= hi <= |open| && !(0 <= v < |open|)
    requires forall w :: w in e ==> 0 <= w.0 < |open| && 0 <= w.1 < |open|
    requires (v, x) in e + VirtualEdges(v, lo, hi, open)
    ensures lo <= x < hi && open[x]
  {
    assert (v, x) !in e;
  }


  /**
   * Two distinct virtual nodes outside `[0, size)`, `top` joined to the open
   * elements of `[tlo, thi)` and `bottom` to those of `[blo, bhi)`, are linked
   * exactly when an open element of the first range reaches one of the second
   * through `e` alone.
   */
  lemma BetweenVirtuals(e: Edges, top: int, tlo: int, thi: int, bottom: int, blo: int, bhi: int, open: seq<bool>)
    requires 0 <= tlo <= thi <= |open| && 0 <= blo <= bhi <= |open|
    requires !(0 <= top < |open|) && !(0 <= bottom < |open|) && top != bottom
    requires forall w :: w in e ==> 0 <= w.0 < |open| && 0 <= w.1 < |open|
    ensures Linked(e + VirtualEdges(top, tlo, thi, open) + VirtualEdges(bottom, blo, bhi, open), top, bottom) <==>
      exists t, b :: tlo <= t < thi && blo <= b < bhi && open[t] && open[b] && Linked(e, t, b)
  {
    var f := e + VirtualEdges(top, tlo, thi, open) + VirtualEdges(bottom, blo, bhi, open);
    if Linked(f, top, bottom) {
      var t, b := CrossBetweenVirtuals(e, top, tlo, thi, bottom, blo, bhi, open);
    }
    if exists t, b :: tlo <= t < thi && blo <= b < bhi && open[t] && open[b] && Linked(e, t, b) {
      var t, b :| tlo <= t < thi && blo <= b < bhi && open[t] && open[b] && Linked(e, t, b);
      LinkedMono(e, f, t, b);
      LinkedEdge(f, top, t);
      LinkedEdge(f, b, bottom);
      LinkedTrans(f, top, t, b);
      LinkedTrans(f, top, b, bottom);
    }
  }

  /** The open elements where a path from `top` to `bottom` last leaves `top` and first reaches `bottom`. */
  lemma CrossBetweenVirtuals(e: Edges, top: int, tlo: int, thi: int, bottom: int, blo: int, bhi: int, open: seq<bool>)
    returns (t: int, b: int)
    requires 0 <= tlo <= thi <= |open| && 0 <= blo <= bhi <= |open|
    requires !(0 <= top < |open|) && !(0 <= bottom < |open|) && top != bottom
    requires forall w :: w in e ==> 0 <= w.0 < |open| && 0 <= w.1 < |open|
    requires Linked(e + VirtualEdges(top, tlo, thi, open) + VirtualEdges(bottom, blo, bhi, open), top, bottom)
    ensures tlo <= t < thi && blo <= b < bhi && open[t] && open[b] && Linked(e, t, b)
  {
    var f := e + VirtualEdges(top, tlo, thi, open) + VirtualEdges(bottom, blo, bhi, open);
    var p :| IsPath(f, p) && p[0] == top && p[|p| - 1] == bottom;
    forall x, y | (x, y) in f
      ensures (x, y) != (top, bottom)
    {
      VirtualStep(e, top, tlo, thi, bottom, blo, bhi, open, x, y);
    }
    t, b := SplitPath(e, f, top, bottom, p);
    VirtualStep(e, top, tlo, thi, bottom, blo, bhi, open, top, t);
    VirtualStep(e, top, tlo, thi, bottom, blo, bhi, open, b, bottom);
  }

  /**
   * A path from `top` to `bottom` leaves `top` for the last time along an edge
   * to `t`, reaches `bottom` for the first time along an edge from `b`, and in
   * between uses only the edges that `e` keeps of those clear of both.
   */
  lemma SplitPath(e: Edges, f: Edges, top: int, bottom: int, p: seq<int>) returns (t: int, b: int)
    requires top != bottom && (top, bottom) !in f
    requires forall w :: w in f && w.0 !in {top, bottom} && w.1 !in {top, bottom} ==> w in e
    requires IsPath(f, p) && p[0] == top && p[|p| - 1] == bottom
    ensures (top, t) in f && (b, bottom) in f && t != top && b != bottom && Linked(e, t, b)
  {
    var i := LastVisit(p, top);
    PathSlice(f, p, i, |p|);
    var q := p[i..];
    assert forall k :: 1 <= k < |q| ==> q[k] == p[i + k] != top;
    PathStart(f, q);
    t := q[1];
    var j := FirstVisit(q, bottom);
    assert (q[j - 1], q[j]) in f;
    b := q[j - 1];
    PathSlice(f, q, 1, j);
    PathAvoiding(f, e, {top, bottom}, q[1..j]);
    assert q[1..j][0] == t && q[1..j][j - 2] == b;
  }

  /** An edge at a virtual node joins it to an open element of its range. */
  lemma VirtualStep(e: Edges, top: int, tlo: int, thi: int, bottom: int, blo: int, bhi: int, open: seq<bool>, x: int, y: int)
    requires 0 <= tlo <= thi <= |open| && 0 <= blo <= bhi <= |open|
    requires !(0 <= top < |open|) && !(0 <= bottom < |open|) && top != bottom
    requires forall w :: w in e ==> 0 <= w.0 < |open| && 0 <= w.1 < |open|
    requires (x, y) in e + VirtualEdges(top, tlo, thi, open) + VirtualEdges(bottom, blo, bhi, open)
    ensures x == top ==> tlo <= y < thi && open[y]
    ensures y == bottom && x != top ==> blo <= x < bhi && open[x]
    ensures (x, y) != (top, bottom)
  {
  }
}
