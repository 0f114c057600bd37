/** The edge-margin filter of `line_extraction_v1`: a contour is dropped when
    the mean x of its points lies closer to the left or right page edge than
    `filter_width` times the page width. */
module EdgeFilter {
  import opened Seqs
  import opened Polylines

  function SumX(c: seq<Point>): int
  {
    if c == [] then 0 else SumX(c[..|c| - 1]) + c[|c| - 1].x
  }

  /** `np.mean(cnt, axis=0)[0][0]`. */
  function CentroidX(c: seq<Point>): (m: real)
    requires c != []
    ensures m * |c| as real == SumX(c) as real
  {
    SumX(c) as real / |c| as real
  }

  /** The `continue` condition of the margin loop. The mean of an empty contour is
      NaN, for which both comparisons are false. */
  predicate Dropped(c: seq<Point>, fw: real, width: nat)
  {
    c != [] && OutsideMargins(CentroidX(c), fw, width as real)
  }

  predicate OutsideMargins(m: real, fw: real, width: real)
  {
    m < fw * width || m > (1.0 - fw) * width
  }

  /** The filtered list, in input order. */
  function FilterContours(cs: seq<seq<Point>>, fw: real, width: nat): (r: seq<seq<Point>>)
    ensures IsSubseq(r, cs)
    ensures forall i | 0 <= i < |r| :: !Dropped(r[i], fw, width)
    ensures forall i | 0 <= i < |cs| && !Dropped(cs[i], fw, width) :: cs[i] in r
    // each kept contour as often as in the input, each dropped one never
    ensures forall c :: multiset(r)[c] == if Dropped(c, fw, width) then 0 else multiset(cs)[c]
    ensures |r| <= |cs|
  {
    if cs == [] then []
    else
      var rest := FilterContours(cs[1..], fw, width);
      assert cs == [cs[0]] + cs[1..];
      assert forall i | 1 <= i < |cs| :: cs[i] == cs[1..][i - 1];
      if Dropped(cs[0], fw, width) then
        rest
      else
        [cs[0]] + rest
  }

  lemma ScaleLe(a: real, b: real, n: real)
    requires n > 0.0
    ensures a <= b <==> a * n <= b * n
  {
    assert (b - a) * n == b * n - a * n;
    if a <= b {
      assert (b - a) * n >= 0.0;
    } else {
      assert (a - b) * n > 0.0;
    }
  }

  /** The mean `total / n` lies in `[lo, hi]` iff `total` lies in
      `[lo * n, hi * n]`. */
  lemma MeanInInterval(lo: real, hi: real, total: real, n: real)
    requires n > 0.0
    ensures lo <= total / n <= hi <==> lo * n <= total <= hi * n
  {
    var m := total / n;
    assert m * n == total;
    ScaleLe(lo, m, n);
    ScaleLe(m, hi, n);
  }

  /** A non-empty contour is kept iff its mean x lies in
      `[fw * W, (1 - fw) * W]`, that is, stated without division, iff the sum
      of its x values lies in that interval scaled by the number of points. */
  lemma KeptIffScaledSum(c: seq<Point>, fw: real, width: nat)
    requires c != []
    ensures !Dropped(c, fw, width) <==>
      fw * width as real * |c| as real <= SumX(c) as real <= (1.0 - fw) * width as real * |c| as real
  {
    MeanOutsideIffScaled(SumX(c) as real, |c| as real, fw, width as real);
  }

  lemma MeanOutsideIffScaled(total: real, n: real, fw: real, width: real)
    requires n > 0.0
    ensures !OutsideMargins(total / n, fw, width) <==> fw * width * n <= total <= (1.0 - fw) * width * n
  {
    MeanInInterval(fw * width, (1.0 - fw) * width, total, n);
  }

  /** Points inside `[0, W]` have a sum of x values within `[0, W * |c|]`. */
  lemma {:induction false} SumXBounds(c: seq<Point>, width: nat)
    requires forall i | 0 <= i < |c| :: 0 <= c[i].x <= width
    ensures 0 <= SumX(c) <= width * |c|
  {
    if c != [] {
      SumXBounds(c[..|c| - 1], width);
    }
  }

  /** With a zero margin and every point inside the page, nothing is
      dropped. */
  lemma {:induction false} ZeroMarginKeepsAll(cs: seq<seq<Point>>, width: nat)
    requires forall k, i | 0 <= k < |cs| && 0 <= i < |cs[k]| :: 0 <= cs[k][i].x <= width
    ensures FilterContours(cs, 0.0, width) == cs
  {
    if cs != [] {
      InsidePageKept(cs[0], width);
      ZeroMarginKeepsAll(cs[1..], width);
    }
  }

  /** A margin of a tenth of a 100-pixel page drops a contour centred at
      x = 5 and keeps one centred at x = 50. */
  lemma FilterExample(y: int)
    ensures Dropped([Point(4, y), Point(6, y)], 0.1, 100)
    ensures !Dropped([Point(40, y), Point(60, y)], 0.1, 100)
    ensures FilterContours([[Point(4, y), Point(6, y)], [Point(40, y), Point(60, y)]], 0.1, 100)
      == [[Point(40, y), Point(60, y)]]
  {
    SumXPair(Point(4, y), Point(6, y));
    SumXPair(Point(40, y), Point(60, y));
  }

  lemma SumXPair(a: Point, b: Point)
    ensures SumX([a, b]) == a.x + b.x
  {
    assert [a, b][..1] == [a];
    assert [a][..0] == [];
    assert SumX([a]) == SumX([]) + a.x;
    assert SumX([a, b]) == SumX([a]) + b.x;
  }

  lemma IntProductAsReal(a: int, b: int)
    ensures (a * b) as real == a as real * b as real
  {
  }

  /** A contour inside the page survives a zero margin. */
  lemma InsidePageKept(c: seq<Point>, width: nat)
    requires forall i | 0 <= i < |c| :: 0 <= c[i].x <= width
    ensures !Dropped(c, 0.0, width)
  {
    if c != [] {
      SumXBounds(c, width);
      KeptIffScaledSum(c, 0.0, width);
      var w, n := width as real, |c| as real;
      assert 0.0 * w * n == 0.0;
      assert (1.0 - 0.0) * w * n == w * n;
      IntProductAsReal(width, |c|);
    }
  }
}
