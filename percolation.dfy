/**
 * The percolation system: an N-by-N grid of sites, each open or blocked, with
 * two union-find forests over the sites. One forest also holds a virtual top
 * and a virtual bottom node and answers "does the system percolate"; the other
 * holds only the virtual top and answers "is this site full", so that a site
 * joined to the bottom row is not reported full through the virtual bottom.
 */
module Percolations {
  import opened Wrappers
  import opened UnionFinds
  import opened Paths
  import opened Grid

  /** Unions `p` and `q` in `uf`, whose partition then tracks the edge `p`–`q` as well as `e`. */
  method UnionTracked(uf: WeightedUnionFind, p: int, q: int, ghost e: Edges)
    requires uf.Valid() && 0 <= p < uf.unions.Length && 0 <= q < uf.unions.Length
    requires Symmetric(e) && Tracks(uf.root, e)
    modifies uf, uf.unions, uf.weights
    ensures uf.Valid() && |uf.root| == old(|uf.root|)
    ensures Symmetric(e + EdgeBetween(p, q)) && Tracks(uf.root, e + EdgeBetween(p, q))
  {
    ghost var before := uf.root;
    uf.Union(p, q);
    TracksAddEdge(before, uf.root, e, p, q);
  }

  /**
   * The first unions of `open`: a newly opened site `cur` of row 1 joins the
   * virtual top in both forests, and one of row `n` joins the virtual bottom in
   * the percolating forest.
   */
  method UnionVirtual(perc: WeightedUnionFind, full: WeightedUnionFind, n: int, i: int, cur: int, ghost open: seq<bool>)
    requires n >= 1 && 1 <= i <= n && 0 <= cur < n * n && |open| == n * n
    requires perc != full && perc.unions != full.unions && perc.unions != full.weights
    requires perc.weights != full.unions && perc.weights != full.weights
    requires perc.Valid() && full.Valid()
    requires perc.unions.Length == n * n + 2 && full.unions.Length == n * n + 1
    requires Tracks(perc.root, PercEdges(n, open)) && Tracks(full.root, FullEdges(n, open))
    modifies perc, perc.unions, perc.weights, full, full.unions, full.weights
    ensures perc.Valid() && full.Valid()
    ensures |perc.root| == n * n + 2 && |full.root| == n * n + 1
    ensures var top := if i == 1 then EdgeBetween(Top(n), cur) else {};
      var bottom := if i == n then EdgeBetween(Bottom(n), cur) else {};
      && Symmetric(PercEdges(n, open) + top + bottom) && Tracks(perc.root, PercEdges(n, open) + top + bottom)
      && Symmetric(FullEdges(n, open) + top) && Tracks(full.root, FullEdges(n, open) + top)
  {
    EdgesSymmetric(n, open);
    ghost var pe' := PercEdges(n, open);
    if i == 1 {
      UnionTop(perc, full, n, cur, pe', FullEdges(n, open));
      pe' := pe' + EdgeBetween(Top(n), cur);
    } else {
      assert pe' + {} == pe' && FullEdges(n, open) + {} == FullEdges(n, open);
    }
    if i == n {
      UnionTracked(perc, Bottom(n), cur, pe');
    } else {
      assert pe' + {} == pe';
    }
  }

  /** The union of a row-1 site `cur` with the virtual top, in both forests. */
  method UnionTop(perc: WeightedUnionFind, full: WeightedUnionFind, n: int, cur: int, ghost pe: Edges, ghost fe: Edges)
    requires n >= 1 && 0 <= cur < n * n
    requires perc != full && perc.unions != full.unions && perc.unions != full.weights
    requires perc.weights != full.unions && perc.weights != full.weights
    requires perc.Valid() && full.Valid()
    requires perc.unions.Length == n * n + 2 && full.unions.Length == n * n + 1
    requires Symmetric(pe) && Symmetric(fe) && Tracks(perc.root, pe) && Tracks(full.root, fe)
    modifies perc, perc.unions, perc.weights, full, full.unions, full.weights
    ensures perc.Valid() && full.Valid()
    ensures |perc.root| == n * n + 2 && |full.root| == n * n + 1
    ensures Symmetric(pe + EdgeBetween(Top(n), cur)) && Tracks(perc.root, pe + EdgeBetween(Top(n), cur))
    ensures Symmetric(fe + EdgeBetween(Top(n), cur)) && Tracks(full.root, fe + EdgeBetween(Top(n), cur))
  {
    UnionTracked(perc, Top(n), cur, pe);
    UnionTracked(full, Top(n), cur, fe);
  }

  /**
   * The loop of `open` over the neighbours of a newly opened site `cur`: each
   * open neighbour is unioned with `cur` in both forests, which then track
   * exactly the edges to those neighbours on top of what they tracked before.
   */
  method UnionOpenNeighbours(perc: WeightedUnionFind, full: WeightedUnionFind, sites: array<bool>, n: int, cur: int,
                             neighbours: array<Pair>, ghost pe: Edges, ghost fe: Edges)
    requires n >= 1 && sites.Length == n * n && 0 <= cur < n * n
    requires perc != full && perc.unions != full.unions && perc.unions != full.weights
    requires perc.weights != full.unions && perc.weights != full.weights
    requires perc.Valid() && full.Valid()
    requires perc.unions.Length == n * n + 2 && full.unions.Length == n * n + 1
    requires forall t :: 0 <= t < neighbours.Length ==> ValidIndex(n, neighbours[t].i, neighbours[t].j)
    requires Symmetric(pe) && Symmetric(fe) && Tracks(perc.root, pe) && Tracks(full.root, fe)
    modifies perc, perc.unions, perc.weights, full, full.unions, full.weights
    ensures perc.Valid() && full.Valid()
    ensures |perc.root| == n * n + 2 && |full.root| == n * n + 1
    ensures Tracks(perc.root, pe + NeighbourEdges(n, sites[..], cur, neighbours[..]))
    ensures Tracks(full.root, fe + NeighbourEdges(n, sites[..], cur, neighbours[..]))
  {
    assert neighbours[..0] == [];
    assert pe + NeighbourEdges(n, sites[..], cur, []) == pe && fe + NeighbourEdges(n, sites[..], cur, []) == fe;
    for t := 0 to neighbours.Length
      invariant perc.Valid() && full.Valid()
      invariant |perc.root| == n * n + 2 && |full.root| == n * n + 1
      invariant Symmetric(pe + NeighbourEdges(n, sites[..], cur, neighbours[..t]))
      invariant Symmetric(fe + NeighbourEdges(n, sites[..], cur, neighbours[..t]))
      invariant Tracks(perc.root, pe + NeighbourEdges(n, sites[..], cur, neighbours[..t]))
      invariant Tracks(full.root, fe + NeighbourEdges(n, sites[..], cur, neighbours[..t]))
    {
      var k := GetIndex(n, neighbours[t].i, neighbours[t].j);
      NeighbourEdgesStep(n, sites[..], cur, neighbours[..], t, pe);
      NeighbourEdgesStep(n, sites[..], cur, neighbours[..], t, fe);
      if sites[k] {
        UnionTracked(perc, k, cur, pe + NeighbourEdges(n, sites[..], cur, neighbours[..t]));
        UnionTracked(full, k, cur, fe + NeighbourEdges(n, sites[..], cur, neighbours[..t]));
      }
    }
    assert neighbours[..neighbours.Length] == neighbours[..];
  }

  /**
   * Once `open` has unioned the newly opened site with the virtual nodes and its
   * open neighbours, each forest tracks exactly the edges of the new grid.
   */
  lemma OpenTracked(n: int, before: seq<bool>, i: int, j: int, perc: seq<int>, full: seq<int>)
    requires n >= 1 && |before| == n * n && ValidIndex(n, i, j)
    requires var c := GetIndex(n, i, j);
      var top := if i == 1 then EdgeBetween(Top(n), c) else {};
      var bottom := if i == n then EdgeBetween(Bottom(n), c) else {};
      var added := NeighbourEdges(n, before[c := true], c, NeighbourSpec(n, i, j));
      Tracks(perc, PercEdges(n, before) + top + bottom + added) && Tracks(full, FullEdges(n, before) + top + added)
    ensures var c := GetIndex(n, i, j);
      Tracks(perc, PercEdges(n, before[c := true])) && Tracks(full, FullEdges(n, before[c := true]))
  {
    OpenEdges(n, before, i, j);
  }

  /**
   * All the unions of `open` once site `(i, j)` of `sites` has been opened:
   * afterwards each forest tracks exactly the edges of the new grid.
   */
  method UnionOpened(perc: WeightedUnionFind, full: WeightedUnionFind, sites: array<bool>, n: int, i: int, j: int,
                     neighbours: array<Pair>, ghost before: seq<bool>)
    requires n >= 1 && sites.Length == n * n && |before| == n * n && ValidIndex(n, i, j)
    requires sites[..] == before[GetIndex(n, i, j) := true] && neighbours[..] == NeighbourSpec(n, i, j)
    requires perc != full && perc.unions != full.unions && perc.unions != full.weights
    requires perc.weights != full.unions && perc.weights != full.weights
    requires perc.Valid() && full.Valid()
    requires perc.unions.Length == n * n + 2 && full.unions.Length == n * n + 1
    requires Tracks(perc.root, PercEdges(n, before)) && Tracks(full.root, FullEdges(n, before))
    modifies perc, perc.unions, perc.weights, full, full.unions, full.weights
    ensures perc.Valid() && full.Valid()
    ensures Tracks(perc.root, PercEdges(n, sites[..])) && Tracks(full.root, FullEdges(n, sites[..]))
  {
    var curIndex := GetIndex(n, i, j);
    NeighbourMembers(n, i, j);
    assert forall t :: 0 <= t < neighbours.Length ==> neighbours[t] in NeighbourSpec(n, i, j);
    UnionVirtual(perc, full, n, i, curIndex, before);
    UnionOpenNeighbours(perc, full, sites, n, curIndex, neighbours,
      PercEdges(n, before) + (if i == 1 then EdgeBetween(Top(n), curIndex) else {}) + (if i == n then EdgeBetween(Bottom(n), curIndex) else {}),
      FullEdges(n, before) + (if i == 1 then EdgeBetween(Top(n), curIndex) else {}));
    OpenTracked(n, before, i, j, perc.root, full.root);
  }

  class Percolation {
    /** Side of the grid. */
    const N: int
    /** `sites[GetIndex(N, i, j)]` tells whether site `(i, j)` is open. */
    const sites: array<bool>
    /** Forest over the sites, the virtual top and the virtual bottom. */
    const percolatingSites: WeightedUnionFind
    /** Forest over the sites and the virtual top only. */
    const fullSites: WeightedUnionFind
    const virtualTop: int
    const virtualBottom: int

    ghost function Repr(): set<object>
    {
      {this, sites, percolatingSites, percolatingSites.unions, percolatingSites.weights,
       fullSites, fullSites.unions, fullSites.weights}
    }

    /**
     * The forests are separate, and each one's partition is exactly the
     * reachability of the edges it stands for: the open adjacent pairs plus the
     * virtual links of the open boundary sites.
     */
    ghost predicate Valid()
      reads Repr()
    {
      && N >= 1 && sites.Length == N * N
      && virtualTop == Top(N) && virtualBottom == Bottom(N)
      && percolatingSites != fullSites
      && percolatingSites.unions != fullSites.unions && percolatingSites.unions != fullSites.weights
      && percolatingSites.weights != fullSites.unions && percolatingSites.weights != fullSites.weights
      && percolatingSites.Valid() && fullSites.Valid()
      && percolatingSites.unions.Length == N * N + 2 && fullSites.unions.Length == N * N + 1
      && Tracks(percolatingSites.root, PercEdges(N, sites[..]))
      && Tracks(fullSites.root, FullEdges(N, sites[..]))
    }

    /** An `n`-by-`n` grid with every site blocked. */
    constructor (n: int)
      requires n >= 1
      ensures Valid() && N == n
      ensures fresh(sites) && fresh(percolatingSites) && fresh(fullSites)
      ensures fresh(percolatingSites.unions) && fresh(percolatingSites.weights)
      ensures fresh(fullSites.unions) && fresh(fullSites.weights)
      ensures sites[..] == seq(n * n, _ => false)
      ensures forall k :: 0 <= k < n * n ==> !FullSite(n, sites[..], k)
      ensures !Grid.Percolates(n, sites[..])
    {
      N := n;
      sites := new bool[n * n](_ => false);
      virtualTop := n * n;
      virtualBottom := n * n + 1;
      percolatingSites := new WeightedUnionFind(n * n + 2);
      fullSites := new WeightedUnionFind(n * n + 1);
      new;
      NoEdgesWhenClosed(n, sites[..]);
      SingletonsTrackNothing(percolatingSites.root);
      SingletonsTrackNothing(fullSites.root);
      BlockedGrid(n, sites[..]);
    }

    /** Whether site `(i, j)` is open; a coordinate off the grid throws. */
    function IsOpen(i: int, j: int): (r: Result<bool>)
      requires Valid()
      reads Repr()
      ensures r.Throws? <==> !ValidIndex(N, i, j)
      ensures r.Throws? ==> r.exception == IndexOutOfBounds
      ensures r.Ok? ==> r.value == sites[GetIndex(N, i, j)]
    {
      if !ValidIndex(N, i, j) then Throws(IndexOutOfBounds)
      else Ok(sites[GetIndex(N, i, j)])
    }

    /**
     * Opens site `(i, j)` and unions it, in both forests, with its open
     * neighbours and with the virtual top (row 1); in the percolating forest
     * also with the virtual bottom (row `N`). Nothing but that site's flag
     * changes, and no site is ever closed again.
     */
    method Open(i: int, j: int) returns (r: Result<()>)
      requires Valid()
      modifies Repr() - {this}
      ensures Valid()
      ensures r.Throws? <==> !ValidIndex(N, i, j)
      ensures r.Throws? ==> r.exception == IndexOutOfBounds && unchanged(Repr())
      ensures r.Ok? ==> sites[..] == old(sites[..])[GetIndex(N, i, j) := true]
      ensures r.Ok? ==> IsOpen(i, j) == Ok(true)
      ensures forall k :: 0 <= k < sites.Length && old(sites[k]) ==> sites[k]
    {
      if !ValidIndex(N, i, j) {
        return Throws(IndexOutOfBounds);
      }
      var curIndex := GetIndex(N, i, j);
      ghost var before := sites[..];
      sites[curIndex] := true;
      assert sites[..] == before[curIndex := true];
      var neighbours := Neighbours(i, j);
      UnionOpened(percolatingSites, fullSites, sites, N, i, j, neighbours, before);
      return Ok(());
    }

    /** Site `(i, j)` is full: an open path links it to the top row. */
    method IsFull(i: int, j: int) returns (r: Result<bool>)
      requires Valid()
      ensures r.Throws? <==> !ValidIndex(N, i, j)
      ensures r.Throws? ==> r.exception == IndexOutOfBounds
      ensures r.Ok? ==> (r.value <==> FullSite(N, sites[..], GetIndex(N, i, j)))
    {
      if !ValidIndex(N, i, j) {
        return Throws(IndexOutOfBounds);
      }
      var k := GetIndex(N, i, j);
      var b := fullSites.Connected(virtualTop, k);
      FullBridge(N, sites[..], k);
      return Ok(b);
    }

    /** The system percolates: an open path links the top row to the bottom row. */
    method Percolates() returns (b: bool)
      requires Valid()
      ensures b <==> Grid.Percolates(N, sites[..])
    {
      b := percolatingSites.Connected(virtualTop, virtualBottom);
      PercBridge(N, sites[..]);
    }

    /** The candidate neighbours of `(i, j)` that lie on the grid, in the order up, down, left, right. */
    method Neighbours(i: int, j: int) returns (valid: array<Pair>)
      ensures valid[..] == NeighbourSpec(N, i, j)
    {
      var all := new Pair[4] [Pair(i - 1, j), Pair(i + 1, j), Pair(i, j - 1), Pair(i, j + 1)];
      assert all[..] == Candidates(i, j);
      valid := OnGrid(all);
    }

    /** The elements of `all` that lie on the grid, in order: the two loops of `neighbours`. */
    method OnGrid(all: array<Pair>) returns (valid: array<Pair>)
      ensures valid[..] == ValidPairs(N, all[..])
    {
      var validIndices := new bool[all.Length](_ => false);
      var numValid := 0;
      for pi := 0 to all.Length
        modifies validIndices
        invariant numValid == |ValidPairs(N, all[..pi])|
        invariant forall k {:trigger validIndices[k]} :: 0 <= k < validIndices.Length ==>
          validIndices[k] == (k < pi && ValidIndex(N, all[k].i, all[k].j))
      {
        ValidPairsStep(N, all[..], pi);
        assert all[..][..pi + 1] == all[..pi + 1] && all[..][..pi] == all[..pi];
        if ValidIndex(N, all[pi].i, all[pi].j) {
          validIndices[pi] := true;
          numValid := numValid + 1;
        }
      }
      assert all[..all.Length] == all[..];

      valid := new Pair[numValid](_ => Pair(0, 0));
      var ind := 0;
      for vi := 0 to validIndices.Length
        modifies valid
        invariant ind == |ValidPairs(N, all[..vi])| && ind <= numValid
        invariant valid[..ind] == ValidPairs(N, all[..vi])
      {
        ValidPairsStep(N, all[..], vi);
        assert all[..][..vi + 1] == all[..vi + 1] && all[..][..vi] == all[..vi];
        if validIndices[vi] {
          valid[ind] := all[vi];
          ind := ind + 1;
        }
      }
      assert ind == valid.Length;
      assert valid[..] == valid[..ind];
    }
  }

  /** Sites 1, 4, 7 and 9 of a 3-by-3 grid, counted row by row: the first column and the bottom-right corner. */
  function BackwashSites(): (open: seq<bool>)
    ensures |open| == 9
  {
    [true, false, false, true, false, false, true, false, true]
  }

  /** The first column links the top row to the bottom row, so the grid percolates. */
  lemma BackwashPercolates()
    ensures Grid.Percolates(3, BackwashSites())
  {
    var open := BackwashSites();
    var e := SiteEdges(3, open);
    assert Row(3, 0) == 1 && Row(3, 3) == 2 && Row(3, 6) == 3;
    assert Col(3, 0) == 1 && Col(3, 3) == 1 && Col(3, 6) == 1;
    OpenNeighboursJoined(3, open, 0, 3);
    OpenNeighboursJoined(3, open, 3, 6);
    var p := [0, 3, 6];
    assert IsPath(e, p);
    assert open[0] && open[6] && Linked(e, 0, 6);
  }

  /**
   * No backwash: the bottom-right corner is open and on the bottom row, but it
   * touches no open site, so it is not full although the grid percolates.
   */
  lemma CornerNotFull()
    ensures !FullSite(3, BackwashSites(), GetIndex(3, 3, 3))
  {
    var open := BackwashSites();
    var e := SiteEdges(3, open);
    forall b | Adjacent(3, 8, b)
      ensures !open[b]
    {
      assert Row(3, 8) == 3 && Col(3, 8) == 3;
      if b !in {0, 3, 6, 8} {
        assert b in {1, 2, 4, 5, 7};
      }
    }
    SurroundedIsolated(3, open, 8);
    forall t | 0 <= t < 9 && Linked(e, t, 8)
      ensures t == 8
    {
      EdgesSymmetric(3, open);
      LinkedSym(e, t, 8);
      IsolatedLinked(e, 8, t);
    }
  }

  /** A one-site grid percolates once its site is open. */
  lemma SingleSitePercolates()
    ensures Grid.Percolates(1, [true])
  {
    LinkedRefl(SiteEdges(1, [true]), 0);
  }

  /** Opening the first column and the bottom-right corner of a 3-by-3 system: it percolates, the corner is not full. */
  method BackwashExample() returns (cornerFull: Result<bool>, percolates: bool)
    ensures cornerFull == Ok(false) && percolates
  {
    var p := new Percolation(3);
    OpenBackwashSites(p);
    BackwashPercolates();
    CornerNotFull();
    cornerFull := p.IsFull(3, 3);
    percolates := p.Percolates();
  }

  /** Opens the first column and the bottom-right corner of a blocked 3-by-3 grid. */
  method OpenBackwashSites(p: Percolation)
    requires p.Valid() && p.N == 3 && p.sites[..] == seq(9, _ => false)
    modifies p.Repr() - {p}
    ensures p.Valid() && p.sites[..] == BackwashSites()
  {
    ghost var blocked := p.sites[..];
    var _ := p.Open(1, 1);
    var _ := p.Open(2, 1);
    var _ := p.Open(3, 1);
    var _ := p.Open(3, 3);
    assert GetIndex(3, 1, 1) == 0 && GetIndex(3, 2, 1) == 3 && GetIndex(3, 3, 1) == 6 && GetIndex(3, 3, 3) == 8;
    assert p.sites[..] == blocked[0 := true][3 := true][6 := true][8 := true];
    BackwashSitesOpened();
  }

  /** Opening sites 0, 3, 6 and 8 of a blocked 3-by-3 grid gives the backwash layout. */
  lemma BackwashSitesOpened()
    ensures seq(9, _ => false)[0 := true][3 := true][6 := true][8 := true] == BackwashSites()
  {
    var s := seq(9, _ => false)[0 := true][3 := true][6 := true][8 := true];
    assert forall k | 0 <= k < 9 :: s[k] == BackwashSites()[k];
  }

  /** A 1-by-1 system percolates once its only site is opened. */
  method SingleSiteExample() returns (percolates: bool)
    ensures percolates
  {
    var p := new Percolation(1);
    var _ := p.Open(1, 1);
    assert p.sites[..] == [true];
    SingleSitePercolates();
    percolates := p.Percolates();
  }

}
