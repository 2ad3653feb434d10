/**
 * The N-by-N site grid of the percolation assignment: 1-based coordinates,
 * their row-major indices, the four orthogonal neighbours of a site, and the
 * edge sets that the two union-find forests stand for. It also gives the
 * reference meaning of "full" and "percolates" as paths of open sites, with no
 * virtual nodes.
 */
module Grid {
  import opened Paths

  /** A 1-based (row, column) coordinate. */
  datatype Pair = Pair(i: int, j: int)

  /** `(i, j)` lies on the `n`-by-`n` grid, so its row-major offset lies inside the site array. */
  predicate ValidIndex(n: int, i: int, j: int): (b: bool)
    ensures b ==> 0 <= (i - 1) * n + (j - 1) < n * n
  {
    ProductBound(n, i, j);
    1 <= i <= n && 1 <= j <= n
  }

  /** Row-major index of site `(i, j)`; a coordinate on the grid gets an index in `[0, n * n)`. */
  function GetIndex(n: int, i: int, j: int): (k: int)
    ensures n >= 1 && ValidIndex(n, i, j) ==> 0 <= k < n * n
  {
    (i - 1) * n + (j - 1)
  }

  lemma ProductBound(n: int, i: int, j: int)
    ensures 1 <= i <= n && 1 <= j <= n ==> 0 <= (i - 1) * n + (j - 1) < n * n
  {
    if 1 <= i <= n && 1 <= j <= n {
      MulSign(n - i + 1, n);
      MulSign(i - 1, n);
      assert (n - i + 1) * n == n * n - (i - 1) * n;
    }
  }

  function Row(n: int, k: int): int
    requires n >= 1
  {
    k / n + 1
  }

  function Col(n: int, k: int): int
    requires n >= 1
  {
    k % n + 1
  }

  /** Index of the virtual top node, one past the last site. */
  function Top(n: int): (t: int)
    ensures !(0 <= t < n * n)
  {
    n * n
  }

  /** Index of the virtual bottom node. */
  function Bottom(n: int): (b: int)
    ensures !(0 <= b < n * n) && b != Top(n)
  {
    n * n + 1
  }

  /** A non-zero multiple of `n` is at least `n` away from zero. */
  lemma MulSign(d: int, n: int)
    requires n >= 1
    ensures d >= 1 ==> d * n >= n
    ensures d <= -1 ==> d * n <= -n
  {
  }

  lemma DivModUnique(k: int, n: int, q: int, r: int)
    requires n >= 1 && k == q * n + r && 0 <= r < n
    ensures k / n == q && k % n == r
  {
    var q', r' := k / n, k % n;
    assert k == q' * n + r';
    assert (q - q') * n == r' - r;
    MulSign(q - q', n);
  }

  /** `GetIndex` sends a valid coordinate to a site index, from which `Row` and `Col` recover it. */
  lemma IndexInRange(n: int, i: int, j: int)
    requires n >= 1 && ValidIndex(n, i, j)
    ensures 0 <= GetIndex(n, i, j) < n * n
    ensures Row(n, GetIndex(n, i, j)) == i && Col(n, GetIndex(n, i, j)) == j
  {
    var k := GetIndex(n, i, j);
    MulSign(n - i + 1, n);
    assert (n - i + 1) * n == n * n - (i - 1) * n;
    DivModUnique(k, n, i - 1, j - 1);
  }

  /** Every site index is the index of the coordinate `Row` and `Col` give it. */
  lemma RowColInRange(n: int, k: int)
    requires n >= 1 && 0 <= k < n * n
    ensures ValidIndex(n, Row(n, k), Col(n, k))
    ensures GetIndex(n, Row(n, k), Col(n, k)) == k
  {
    var q := k / n;
    assert k == q * n + k % n;
    MulSign(q - n, n);
    assert (q - n) * n == q * n - n * n;
  }

  /** Two coordinates are distinct exactly when their indices are: `GetIndex` is one-to-one on the grid. */
  lemma IndexInjective(n: int, i: int, j: int, i2: int, j2: int)
    requires n >= 1 && ValidIndex(n, i, j) && ValidIndex(n, i2, j2)
    ensures GetIndex(n, i, j) == GetIndex(n, i2, j2) <==> i == i2 && j == j2
  {
    IndexInRange(n, i, j);
    IndexInRange(n, i2, j2);
  }

  /** The virtual nodes lie past every site and differ from each other. */
  lemma VirtualNodes(n: int, i: int, j: int)
    requires n >= 1 && ValidIndex(n, i, j)
    ensures GetIndex(n, i, j) < Top(n) < Bottom(n)
  {
    IndexInRange(n, i, j);
  }

  /** Row 1 holds the first `n` indices and row `n` the last `n`. */
  lemma BoundaryRows(n: int, i: int, j: int)
    requires n >= 1 && ValidIndex(n, i, j)
    ensures i == 1 <==> GetIndex(n, i, j) < n
    ensures i == n <==> GetIndex(n, i, j) >= n * n - n
  {
    MulSign(i - 1, n);
    MulSign(n - i, n);
    assert (n - i) * n == n * n - n - (i - 1) * n;
  }

  /** Orthogonal neighbours: one step up, down, left or right. */
  predicate AdjacentCells(i: int, j: int, i2: int, j2: int)
  {
    || ((i2 == i - 1 || i2 == i + 1) && j2 == j)
    || (i2 == i && (j2 == j - 1 || j2 == j + 1))
  }

  /** Sites `a` and `b` are orthogonal neighbours on the grid. */
  predicate Adjacent(n: int, a: int, b: int)
    requires n >= 1
  {
    && 0 <= a < n * n && 0 <= b < n * n
    && AdjacentCells(Row(n, a), Col(n, a), Row(n, b), Col(n, b))
  }

  /** The four candidate neighbours of `(i, j)`, in the order the percolation code lists them. */
  function Candidates(i: int, j: int): (r: seq<Pair>)
    ensures |r| == 4
    ensures forall p :: p in r <==> AdjacentCells(i, j, p.i, p.j)
  {
    [Pair(i - 1, j), Pair(i + 1, j), Pair(i, j - 1), Pair(i, j + 1)]
  }

  /** The coordinates of `ps` that lie on the grid, in their order in `ps`. */
  function ValidPairs(n: int, ps: seq<Pair>): (r: seq<Pair>)
    ensures |r| <= |ps|
  {
    if ps == [] then []
    else
      var init, last := ps[..|ps| - 1], ps[|ps| - 1];
      var r := ValidPairs(n, init);
      if ValidIndex(n, last.i, last.j) then r + [last] else r
  }

  /** `ValidPairs` keeps exactly the coordinates of `ps` that lie on the grid. */
  lemma {:induction false} ValidPairsMembers(n: int, ps: seq<Pair>)
    ensures forall p :: p in ValidPairs(n, ps) <==> p in ps && ValidIndex(n, p.i, p.j)
    decreases |ps|
  {
    if ps != [] {
      var init, last := ps[..|ps| - 1], ps[|ps| - 1];
      ValidPairsMembers(n, init);
      assert forall p :: p in ps <==> p in init || p == last;
    }
  }

  /** Filtering a prefix keeps no more than filtering the whole sequence. */
  lemma {:induction false} ValidPairsPrefix(n: int, ps: seq<Pair>, m: int)
    requires 0 <= m <= |ps|
    ensures |ValidPairs(n, ps[..m])| <= |ValidPairs(n, ps)|
    decreases |ps|
  {
    if m < |ps| {
      var init := ps[..|ps| - 1];
      ValidPairsPrefix(n, init, m);
      assert init[..m] == ps[..m];
    } else {
      assert ps[..m] == ps;
    }
  }

  /** Filtering one element more of `ps` keeps that element exactly when it lies on the grid. */
  lemma ValidPairsStep(n: int, ps: seq<Pair>, m: int)
    requires 0 <= m < |ps|
    ensures ValidPairs(n, ps[..m + 1]) == ValidPairs(n, ps[..m]) + (if ValidIndex(n, ps[m].i, ps[m].j) then [ps[m]] else [])
    ensures |ValidPairs(n, ps[..m + 1])| <= |ValidPairs(n, ps)|
  {
    assert ps[..m + 1][..m] == ps[..m];
    ValidPairsPrefix(n, ps, m + 1);
  }

  /** The neighbours of `(i, j)`: those of the four candidates that lie on the grid, in order. */
  function NeighbourSpec(n: int, i: int, j: int): seq<Pair>
  {
    ValidPairs(n, Candidates(i, j))
  }

  /** The neighbours of `(i, j)` are the candidates that lie on the grid. */
  lemma NeighbourMembers(n: int, i: int, j: int)
    ensures forall p :: p in NeighbourSpec(n, i, j) <==> p in Candidates(i, j) && ValidIndex(n, p.i, p.j)
  {
    ValidPairsMembers(n, Candidates(i, j));
  }

  /**
   * The neighbours of a site are exactly the sites adjacent to it: an index is
   * that of some listed neighbour iff it is adjacent to `(i, j)`.
   */
  lemma NeighboursAreAdjacent(n: int, i: int, j: int, k: int)
    requires n >= 1 && ValidIndex(n, i, j)
    ensures (exists p :: p in NeighbourSpec(n, i, j) && GetIndex(n, p.i, p.j) == k) <==>
      Adjacent(n, GetIndex(n, i, j), k)
  {
    if exists p :: p in NeighbourSpec(n, i, j) && GetIndex(n, p.i, p.j) == k {
      var p :| p in NeighbourSpec(n, i, j) && GetIndex(n, p.i, p.j) == k;
      NeighbourIsAdjacent(n, i, j, p);
    }
    if Adjacent(n, GetIndex(n, i, j), k) {
      AdjacentIsNeighbour(n, i, j, k);
    }
  }

  lemma NeighbourIsAdjacent(n: int, i: int, j: int, p: Pair)
    requires n >= 1 && ValidIndex(n, i, j) && p in NeighbourSpec(n, i, j)
    ensures Adjacent(n, GetIndex(n, i, j), GetIndex(n, p.i, p.j))
  {
    NeighbourMembers(n, i, j);
    assert p in Candidates(i, j) && ValidIndex(n, p.i, p.j);
    IndexInRange(n, i, j);
    IndexInRange(n, p.i, p.j);
  }

  lemma AdjacentIsNeighbour(n: int, i: int, j: int, k: int)
    requires n >= 1 && ValidIndex(n, i, j) && Adjacent(n, GetIndex(n, i, j), k)
    ensures Pair(Row(n, k), Col(n, k)) in NeighbourSpec(n, i, j)
    ensures GetIndex(n, Row(n, k), Col(n, k)) == k
  {
    IndexInRange(n, i, j);
    RowColInRange(n, k);
    var p := Pair(Row(n, k), Col(n, k));
    assert p in Candidates(i, j);
    NeighbourMembers(n, i, j);
  }

  /** Both directions of every pair of adjacent sites. */
  ghost function Adjacency(n: int): Edges
    requires n >= 1
  {
    set a, b | 0 <= a < n * n && 0 <= b < n * n && Adjacent(n, a, b) :: (a, b)
  }

  /** Both directions of every pair of open, adjacent sites. */
  ghost function SiteEdges(n: int, open: seq<bool>): Edges
    requires n >= 1
  {
    OpenPairs(Adjacency(n), open)
  }

  /** The virtual top node joined to every open site of row 1. */
  ghost function TopEdges(n: int, open: seq<bool>): Edges
    requires n >= 1 && |open| == n * n
  {
    MulSign(n, n);
    VirtualEdges(Top(n), 0, n, open)
  }

  /** The virtual bottom node joined to every open site of row `n`. */
  ghost function BottomEdges(n: int, open: seq<bool>): Edges
    requires n >= 1 && |open| == n * n
  {
    MulSign(n, n);
    VirtualEdges(Bottom(n), n * n - n, n * n, open)
  }

  /** What the forest without a virtual bottom has been told to union. */
  ghost function FullEdges(n: int, open: seq<bool>): Edges
    requires n >= 1 && |open| == n * n
  {
    SiteEdges(n, open) + TopEdges(n, open)
  }

  /** What the forest with both virtual nodes has been told to union. */
  ghost function PercEdges(n: int, open: seq<bool>): Edges
    requires n >= 1 && |open| == n * n
  {
    FullEdges(n, open) + BottomEdges(n, open)
  }

  lemma EdgesSymmetric(n: int, open: seq<bool>)
    requires n >= 1 && |open| == n * n
    ensures Symmetric(SiteEdges(n, open)) && Symmetric(FullEdges(n, open)) && Symmetric(PercEdges(n, open))
  {
    OpenPairsSymmetric(Adjacency(n), open);
  }

  /** Site `k` is full: a path of open, adjacent sites links it to an open site of row 1. */
  ghost predicate FullSite(n: int, open: seq<bool>, k: int)
    requires n >= 1 && |open| == n * n
  {
    exists t :: 0 <= t < n && open[t] && Linked(SiteEdges(n, open), t, k)
  }

  /** The grid percolates: a path of open, adjacent sites links row 1 to row `n`. */
  ghost predicate Percolates(n: int, open: seq<bool>)
    requires n >= 1 && |open| == n * n
  {
    exists t, b :: 0 <= t < n && n * n - n <= b < n * n && open[t] && open[b] && Linked(SiteEdges(n, open), t, b)
  }

  /** Through the virtual top, the full-site forest links exactly the full sites. */
  lemma FullBridge(n: int, open: seq<bool>, k: int)
    requires n >= 1 && |open| == n * n && 0 <= k < n * n
    ensures Linked(FullEdges(n, open), Top(n), k) <==> FullSite(n, open, k)
  {
    MulSign(n, n);
    ThroughVirtual(SiteEdges(n, open), Top(n), 0, n, open, k);
  }

  /** The forest with both virtual nodes links top to bottom exactly when the grid percolates. */
  lemma PercBridge(n: int, open: seq<bool>)
    requires n >= 1 && |open| == n * n
    ensures Linked(PercEdges(n, open), Top(n), Bottom(n)) <==> Percolates(n, open)
  {
    MulSign(n, n);
    MulSign(n, n);
    BetweenVirtuals(SiteEdges(n, open), Top(n), 0, n, Bottom(n), n * n - n, n * n, open);
  }

  /** A closed site is never full. */
  lemma ClosedNeverFull(n: int, open: seq<bool>, k: int)
    requires n >= 1 && |open| == n * n && 0 <= k < n * n && !open[k]
    ensures !FullSite(n, open, k)
  {
    var e := SiteEdges(n, open);
    ClosedIsolated(Adjacency(n), open, k);
    forall t | 0 <= t < n * n && Linked(e, t, k)
      ensures t == k
    {
      EdgesSymmetric(n, open);
      LinkedSym(e, t, k);
      IsolatedLinked(e, k, t);
    }
  }

  /** Opening more sites keeps every full site full and a percolating grid percolating. */
  lemma OpeningIsMonotone(n: int, open: seq<bool>, more: seq<bool>)
    requires n >= 1 && |open| == |more| == n * n
    requires forall k :: 0 <= k < n * n && open[k] ==> more[k]
    ensures forall k :: 0 <= k < n * n && FullSite(n, open, k) ==> FullSite(n, more, k)
    ensures Percolates(n, open) ==> Percolates(n, more)
  {
    OpenPairsMono(Adjacency(n), open, more);
    forall k | 0 <= k < n * n && FullSite(n, open, k)
      ensures FullSite(n, more, k)
    {
      FullSiteMono(n, open, more, k);
    }
    if Percolates(n, open) {
      PercolatesMono(n, open, more);
    }
  }

  lemma FullSiteMono(n: int, open: seq<bool>, more: seq<bool>, k: int)
    requires n >= 1 && |open| == |more| == n * n
    requires forall k :: 0 <= k < n * n && open[k] ==> more[k]
    requires SiteEdges(n, open) <= SiteEdges(n, more) && FullSite(n, open, k)
    ensures FullSite(n, more, k)
  {
    var t :| 0 <= t < n && open[t] && Linked(SiteEdges(n, open), t, k);
    LinkedMono(SiteEdges(n, open), SiteEdges(n, more), t, k);
    assert 0 <= t < n * n by { MulSign(n, n); }
  }

  lemma PercolatesMono(n: int, open: seq<bool>, more: seq<bool>)
    requires n >= 1 && |open| == |more| == n * n
    requires forall k :: 0 <= k < n * n && open[k] ==> more[k]
    requires SiteEdges(n, open) <= SiteEdges(n, more) && Percolates(n, open)
    ensures Percolates(n, more)
  {
    MulSign(n, n);
    var t, b :| 0 <= t < n && n * n - n <= b < n * n && open[t] && open[b] && Linked(SiteEdges(n, open), t, b);
    LinkedMono(SiteEdges(n, open), SiteEdges(n, more), t, b);
    assert more[t] && more[b];
  }

  /** With every site closed neither forest has anything to union. */
  lemma NoEdgesWhenClosed(n: int, open: seq<bool>)
    requires n >= 1 && |open| == n * n && forall k :: 0 <= k < n * n ==> !open[k]
    ensures FullEdges(n, open) == {} && PercEdges(n, open) == {}
  {
    MulSign(n, n);
    assert SiteEdges(n, open) == {};
    assert TopEdges(n, open) == {};
    assert BottomEdges(n, open) == {};
  }

  /** Two open, adjacent sites are joined by a site edge. */
  lemma OpenNeighboursJoined(n: int, open: seq<bool>, a: int, b: int)
    requires n >= 1 && |open| == n * n && Adjacent(n, a, b) && open[a] && open[b]
    ensures (a, b) in SiteEdges(n, open)
  {
    assert (a, b) in Adjacency(n);
  }

  /** A site whose neighbours are all closed has no site edge. */
  lemma SurroundedIsolated(n: int, open: seq<bool>, k: int)
    requires n >= 1 && |open| == n * n
    requires forall b :: Adjacent(n, k, b) ==> !open[b]
    ensures forall w :: w in SiteEdges(n, open) ==> w.0 != k && w.1 != k
  {
    forall w | w in SiteEdges(n, open)
      ensures w.0 != k && w.1 != k
    {
      assert Adjacent(n, w.0, w.1) && Adjacent(n, w.1, w.0);
    }
  }

  /** On a grid with every site closed nothing is full and nothing percolates. */
  lemma BlockedGrid(n: int, open: seq<bool>)
    requires n >= 1 && |open| == n * n && forall k :: 0 <= k < n * n ==> !open[k]
    ensures forall k :: 0 <= k < n * n ==> !FullSite(n, open, k)
    ensures !Percolates(n, open)
  {
    forall k | 0 <= k < n * n
      ensures !FullSite(n, open, k)
    {
      ClosedNeverFull(n, open, k);
    }
  }

  /** The edges from site `c` to each open site listed in `ps`. */
  ghost function NeighbourEdges(n: int, open: seq<bool>, c: int, ps: seq<Pair>): Edges
    requires n >= 1 && |open| == n * n
  {
    if ps == [] then {}
    else
      var k := GetIndex(n, ps[|ps| - 1].i, ps[|ps| - 1].j);
      NeighbourEdges(n, open, c, ps[..|ps| - 1]) + (if 0 <= k < n * n && open[k] then EdgeBetween(k, c) else {})
  }

  /** One more listed neighbour adds its edge to `c` exactly when it is open. */
  lemma NeighbourEdgesStep(n: int, open: seq<bool>, c: int, ps: seq<Pair>, t: int, e: Edges)
    requires n >= 1 && |open| == n * n && 0 <= t < |ps| && ValidIndex(n, ps[t].i, ps[t].j)
    ensures var k := GetIndex(n, ps[t].i, ps[t].j);
      e + NeighbourEdges(n, open, c, ps[..t + 1]) ==
        if open[k] then e + NeighbourEdges(n, open, c, ps[..t]) + EdgeBetween(k, c) else e + NeighbourEdges(n, open, c, ps[..t])
  {
    assert ps[..t + 1][..t] == ps[..t];
  }

  lemma {:induction false} NeighbourEdgesMembers(n: int, open: seq<bool>, c: int, ps: seq<Pair>)
    requires n >= 1 && |open| == n * n
    ensures forall w :: w in NeighbourEdges(n, open, c, ps) <==>
      exists p :: p in ps && 0 <= GetIndex(n, p.i, p.j) < n * n && open[GetIndex(n, p.i, p.j)]
        && (w == (GetIndex(n, p.i, p.j), c) || w == (c, GetIndex(n, p.i, p.j)))
  {
    if ps != [] {
      var init := ps[..|ps| - 1];
      NeighbourEdgesMembers(n, open, c, init);
      assert forall p :: p in ps <==> p in init || p == ps[|ps| - 1];
    }
  }

  /** The edges to the open neighbours of an open site are its open pairs of adjacent sites. */
  lemma AddedEdges(n: int, open: seq<bool>, i: int, j: int)
    requires n >= 1 && |open| == n * n && ValidIndex(n, i, j)
    requires open[GetIndex(n, i, j)]
    ensures var c := GetIndex(n, i, j);
      NeighbourEdges(n, open, c, NeighbourSpec(n, i, j)) == Touching(Adjacency(n), open, c)
  {
    var c := GetIndex(n, i, j);
    NeighbourEdgesMembers(n, open, c, NeighbourSpec(n, i, j));
    forall w | w in Touching(Adjacency(n), open, c)
      ensures w in NeighbourEdges(n, open, c, NeighbourSpec(n, i, j))
    {
      TouchingIsNeighbourEdge(n, open, i, j, w);
    }
    forall w | w in NeighbourEdges(n, open, c, NeighbourSpec(n, i, j))
      ensures w in Touching(Adjacency(n), open, c)
    {
      NeighbourEdgeIsTouching(n, open, i, j, w);
    }
  }

  lemma TouchingIsNeighbourEdge(n: int, open: seq<bool>, i: int, j: int, w: (int, int))
    requires n >= 1 && |open| == n * n && ValidIndex(n, i, j)
    requires w in Touching(Adjacency(n), open, GetIndex(n, i, j))
    ensures exists p :: (p in NeighbourSpec(n, i, j) && 0 <= GetIndex(n, p.i, p.j) < n * n && open[GetIndex(n, p.i, p.j)]
        && (w == (GetIndex(n, p.i, p.j), GetIndex(n, i, j)) || w == (GetIndex(n, i, j), GetIndex(n, p.i, p.j))))
  {
    var c := GetIndex(n, i, j);
    var k := if w.0 == c then w.1 else w.0;
    assert Adjacent(n, c, k) && 0 <= k < n * n && open[k];
    AdjacentIsNeighbour(n, i, j, k);
  }

  lemma NeighbourEdgeIsTouching(n: int, open: seq<bool>, i: int, j: int, w: (int, int))
    requires n >= 1 && |open| == n * n && ValidIndex(n, i, j) && open[GetIndex(n, i, j)]
    requires exists p :: (p in NeighbourSpec(n, i, j) && 0 <= GetIndex(n, p.i, p.j) < n * n && open[GetIndex(n, p.i, p.j)]
        && (w == (GetIndex(n, p.i, p.j), GetIndex(n, i, j)) || w == (GetIndex(n, i, j), GetIndex(n, p.i, p.j))))
    ensures w in Touching(Adjacency(n), open, GetIndex(n, i, j))
  {
    var c := GetIndex(n, i, j);
    var p :| p in NeighbourSpec(n, i, j) && 0 <= GetIndex(n, p.i, p.j) < n * n && open[GetIndex(n, p.i, p.j)]
      && (w == (GetIndex(n, p.i, p.j), c) || w == (c, GetIndex(n, p.i, p.j)));
    NeighbourIsAdjacent(n, i, j, p);
    IndexInRange(n, i, j);
  }

  /** Opening a site adds to the site edges exactly those to its open neighbours. */
  lemma OpenSiteEdges(n: int, open: seq<bool>, i: int, j: int)
    requires n >= 1 && |open| == n * n && ValidIndex(n, i, j)
    ensures var c := GetIndex(n, i, j);
      SiteEdges(n, open[c := true]) == SiteEdges(n, open) + NeighbourEdges(n, open[c := true], c, NeighbourSpec(n, i, j))
  {
    var c := GetIndex(n, i, j);
    IndexInRange(n, i, j);
    OpenPairsGrow(Adjacency(n), open, c);
    AddedEdges(n, open[c := true], i, j);
  }

  /** Opening a site of row 1 joins it to the virtual top; opening any other site adds no top edge. */
  lemma OpenTopEdges(n: int, open: seq<bool>, i: int, j: int)
    requires n >= 1 && |open| == n * n && ValidIndex(n, i, j)
    ensures var c := GetIndex(n, i, j);
      TopEdges(n, open[c := true]) == TopEdges(n, open) + (if i == 1 then EdgeBetween(Top(n), c) else {})
  {
    var c := GetIndex(n, i, j);
    IndexInRange(n, i, j);
    BoundaryRows(n, i, j);
    MulSign(n, n);
    OpenVirtualEdges(Top(n), 0, n, open, c);
    assert (0 <= c < n) == (i == 1);
  }

  /** Opening a site of row `n` joins it to the virtual bottom; opening any other site adds no bottom edge. */
  lemma OpenBottomEdges(n: int, open: seq<bool>, i: int, j: int)
    requires n >= 1 && |open| == n * n && ValidIndex(n, i, j)
    ensures var c := GetIndex(n, i, j);
      BottomEdges(n, open[c := true]) == BottomEdges(n, open) + (if i == n then EdgeBetween(Bottom(n), c) else {})
  {
    var c := GetIndex(n, i, j);
    IndexInRange(n, i, j);
    BoundaryRows(n, i, j);
    MulSign(n, n);
    var lo := n * n - n;
    OpenVirtualEdges(Bottom(n), lo, n * n, open, c);
    assert (lo <= c < n * n) == (i == n);
  }

  /** Set algebra for the edge sets after an opening. */
  lemma RegroupEdges(s: Edges, s': Edges, t: Edges, t': Edges, b: Edges, b': Edges, lt: Edges, lb: Edges, a: Edges)
    requires s' == s + a && t' == t + lt && b' == b + lb
    ensures s' + t' == s + t + lt + a
    ensures s' + t' + b' == s + t + b + lt + lb + a
  {
  }

  /**
   * Opening site `(i, j)` adds to the edge sets exactly what the percolation
   * code unions: the virtual top for row 1, the virtual bottom for row `n`
   * (in the forest that has one), and every open neighbour.
   */
  lemma OpenEdges(n: int, open: seq<bool>, i: int, j: int)
    requires n >= 1 && |open| == n * n && ValidIndex(n, i, j)
    ensures var c := GetIndex(n, i, j);
      FullEdges(n, open[c := true]) ==
        FullEdges(n, open) + (if i == 1 then EdgeBetween(Top(n), c) else {})
        + NeighbourEdges(n, open[c := true], c, NeighbourSpec(n, i, j))
    ensures var c := GetIndex(n, i, j);
      PercEdges(n, open[c := true]) ==
        PercEdges(n, open) + (if i == 1 then EdgeBetween(Top(n), c) else {}) + (if i == n then EdgeBetween(Bottom(n), c) else {})
        + NeighbourEdges(n, open[c := true], c, NeighbourSpec(n, i, j))
  {
    var c := GetIndex(n, i, j);
    IndexInRange(n, i, j);
    OpenSiteEdges(n, open, i, j);
    OpenTopEdges(n, open, i, j);
    OpenBottomEdges(n, open, i, j);
    RegroupEdges(SiteEdges(n, open), SiteEdges(n, open[c := true]), TopEdges(n, open), TopEdges(n, open[c := true]),
      BottomEdges(n, open), BottomEdges(n, open[c := true]),
      if i == 1 then EdgeBetween(Top(n), c) else {}, if i == n then EdgeBetween(Bottom(n), c) else {},
      NeighbourEdges(n, open[c := true], c, NeighbourSpec(n, i, j)));
  }
}
