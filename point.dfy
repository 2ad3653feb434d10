/**
 * Points with 32-bit integer coordinates, their y-then-x order, and the
 * discrete cases of the slope between two points. A Java `null` argument is
 * an `Option<Point>` that is `None`.
 */
module Points {
  import opened Wrappers

  const TWO_31: int := 0x8000_0000
  const TWO_32: int := 0x1_0000_0000

  /** A Java `int`. */
  newtype int32 = v: int | -0x8000_0000 <= v < 0x8000_0000

  /** Reduces an exact integer to the Java `int` it wraps around to. */
  function Wrap32(v: int): (r: int32)
    ensures (r as int - v) % TWO_32 == 0
    ensures -TWO_31 <= v < TWO_31 ==> r as int == v
  {
    ((v + TWO_31) % TWO_32 - TWO_31) as int32
  }

  /**
   * The slope from one point to another. `Ratio(dy, dx)` stands for the
   * quotient `dy / dx`; the rounding of that quotient to a double is not
   * modelled.
   */
  datatype Slope = NegInf | PosInf | Zero | Ratio(dy: int, dx: int)

  /** Two slopes denote the same value; ratios are compared as fractions. */
  predicate SameSlope(a: Slope, b: Slope)
  {
    if a.Ratio? && b.Ratio? then a.dy * b.dx == b.dy * a.dx else a == b
  }

  datatype Point = Point(x: int32, y: int32)
  {
    /**
     * Orders points by y and breaks ties by x: negative, zero or positive as
     * this point comes before, equals or comes after `that`; a null argument
     * throws.
     */
    function CompareTo(that: Option<Point>): (r: Result<int>)
      ensures that.None? <==> r == Throws(NullPointer)
      ensures that.Some? ==> r.Ok? && -1 <= r.value <= 1
      ensures that.Some? ==> (r.value < 0 <==> Rank(this) < Rank(that.value))
      ensures that.Some? ==> (r.value == 0 <==> this == that.value)
      ensures that.Some? ==> (r.value > 0 <==> Rank(this) > Rank(that.value))
    {
      if that.None? then
        Throws(NullPointer)
      else
        var q := that.value;
        if y < q.y || (y == q.y && x < q.x) then
          Ok(-1)
        else if x == q.x && y == q.y then
          Ok(0)
        else
          Ok(1)
    }

    /**
     * The slope from this point to `that`, with the three special cases
     * tried in the order the source tries them. The differences are exact.
     * A null argument throws when its coordinates are read.
     */
    function SlopeTo(that: Option<Point>): (r: Result<Slope>)
      ensures that.None? <==> r == Throws(NullPointer)
      ensures that.Some? ==> r.Ok?
      ensures that.Some? ==> (r.value == NegInf <==> this == that.value)
      ensures that.Some? ==> (r.value == PosInf <==> x == that.value.x && y != that.value.y)
      ensures that.Some? ==> (r.value == Zero <==> y == that.value.y && x != that.value.x)
      ensures that.Some? && r.value.Ratio? ==> r.value.dx != 0 && r.value.dy != 0
    {
      if that.None? then
        Throws(NullPointer)
      else
        var q := that.value;
        if q.x == x && q.y == y then
          Ok(NegInf)
        else if x == q.x then
          Ok(PosInf)
        else if y == q.y then
          Ok(Zero)
        else
          Ok(Ratio(q.y as int - y as int, q.x as int - x as int))
    }

    /**
     * The slope as the source computes it: `that.y - this.y` and
     * `that.x - this.x` are Java `int` subtractions, which wrap around.
     */
    function SlopeToAsWritten(that: Option<Point>): (r: Result<Slope>)
      ensures that.None? <==> r == Throws(NullPointer)
      ensures that.Some? ==> r.Ok? && (r.value.Ratio? <==> SlopeTo(that).value.Ratio?)
      ensures that.Some? && !r.value.Ratio? ==> r == SlopeTo(that)
    {
      if that.None? then
        Throws(NullPointer)
      else
        var q := that.value;
        if q.x == x && q.y == y then
          Ok(NegInf)
        else if x == q.x then
          Ok(PosInf)
        else if y == q.y then
          Ok(Zero)
        else
          Ok(Ratio(Wrap32(q.y as int - y as int) as int, Wrap32(q.x as int - x as int) as int))
    }
  }

  /**
   * An independent key for the order: y is the major digit and x the minor
   * one, in base 2^32.
   */
  function Rank(p: Point): int
  {
    p.y as int * TWO_32 + (p.x as int + TWO_31)
  }

  /** The key orders points by y first and by x among equal y. */
  lemma RankOrder(p: Point, q: Point)
    ensures Rank(p) < Rank(q) <==> p.y < q.y || (p.y == q.y && p.x < q.x)
  {
    var dy := p.y as int - q.y as int;
    assert Rank(p) - Rank(q) == dy * TWO_32 + (p.x as int - q.x as int);
    if dy > 0 {
      assert dy * TWO_32 >= TWO_32;
    } else if dy < 0 {
      assert dy * TWO_32 <= -TWO_32;
    }
  }

  /** Distinct points have distinct keys. */
  lemma RankInjective(p: Point, q: Point)
    ensures Rank(p) == Rank(q) <==> p == q
  {
    RankOrder(p, q);
    RankOrder(q, p);
  }

  /** `compareTo` returns 0 exactly for equal coordinates, and -1 exactly when y, then x, is smaller. */
  lemma CompareToSpec(p: Point, q: Point)
    ensures p.CompareTo(Some(q)) == Ok(0) <==> p.x == q.x && p.y == q.y
    ensures p.CompareTo(Some(q)) == Ok(-1) <==> p.y < q.y || (p.y == q.y && p.x < q.x)
    ensures p.CompareTo(Some(q)) == Ok(1) <==> p.y > q.y || (p.y == q.y && p.x > q.x)
  {
    RankOrder(p, q);
    RankOrder(q, p);
  }

  /** Swapping the arguments negates the comparison. */
  lemma CompareAntisymmetric(p: Point, q: Point)
    ensures p.CompareTo(Some(q)).Ok? && q.CompareTo(Some(p)).Ok?
    ensures p.CompareTo(Some(q)).value == -q.CompareTo(Some(p)).value
  {
    RankInjective(p, q);
  }

  /** The comparison is transitive, so it is a total order. */
  lemma CompareTransitive(p: Point, q: Point, r: Point)
    requires p.CompareTo(Some(q)).value <= 0 && q.CompareTo(Some(r)).value <= 0
    ensures p.CompareTo(Some(r)).value <= 0
    ensures p.CompareTo(Some(q)).value < 0 || q.CompareTo(Some(r)).value < 0 ==> p.CompareTo(Some(r)).value < 0
  {
    RankInjective(p, r);
  }

  /** The slope from `p` to `q` equals the slope from `q` to `p`. */
  lemma SlopeSymmetric(p: Point, q: Point)
    ensures SameSlope(p.SlopeTo(Some(q)).value, q.SlopeTo(Some(p)).value)
  {
    var s, t := p.SlopeTo(Some(q)).value, q.SlopeTo(Some(p)).value;
    if s.Ratio? {
      assert t.dy == -s.dy && t.dx == -s.dx;
      assert s.dy * t.dx == t.dy * s.dx by {
        assert s.dy * -s.dx == -s.dy * s.dx;
      }
    }
  }

  /** While both differences fit in an `int`, the source's slope is the exact one. */
  lemma AsWrittenExactInRange(p: Point, q: Point)
    requires -TWO_31 <= q.x as int - p.x as int < TWO_31
    requires -TWO_31 <= q.y as int - p.y as int < TWO_31
    ensures p.SlopeToAsWritten(Some(q)) == p.SlopeTo(Some(q))
  {
  }

  /**
   * The wrap-around breaks symmetry: from (1, 0) to (2, -2^31) the slope is
   * -2^31, but back from (2, -2^31) to (1, 0) the difference 2^31 wraps to
   * -2^31 and the slope comes out as +2^31.
   */
  lemma AsWrittenNotSymmetric()
    ensures var p, q := Point(1, 0), Point(2, -0x8000_0000);
      p.SlopeToAsWritten(Some(q)) == Ok(Ratio(-TWO_31, 1)) && q.SlopeToAsWritten(Some(p)) == Ok(Ratio(-TWO_31, -1))
      && !SameSlope(p.SlopeToAsWritten(Some(q)).value, q.SlopeToAsWritten(Some(p)).value)
  {
    var p, q := Point(1, 0), Point(2, -0x8000_0000);
    assert Wrap32(q.y as int - p.y as int) as int == -TWO_31;
    assert Wrap32(p.y as int - q.y as int) as int == -TWO_31;
    assert Wrap32(q.x as int - p.x as int) as int == 1;
    assert Wrap32(p.x as int - q.x as int) as int == -1;
  }
}
