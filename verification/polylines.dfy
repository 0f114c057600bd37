/** Polyline assembly: the path of each stored connection
    (`MakeLineMCP.get_connections`) and the final flip from (row, col) pixel
    coordinates to OpenCV's (x, y) points. */
module Polylines {
  import opened Seqs
  import opened Grids
  import opened Connections
  import opened Connectivity

  /** The stride of `path[::subsample]`, the default of `get_connections`. */
  const Stride: nat := 5

  /** `s[::k]`: every `k`-th element, starting with the first. */
  function Subsample<T>(s: seq<T>, k: nat): (r: seq<T>)
    requires k > 0
    ensures r == [] <==> s == []
    decreases |s|
  {
    if s == [] then []
    else if |s| <= k then [s[0]]
    else [s[0]] + Subsample(s[k..], k)
  }

  /** Element `i` of `s[::k]` is element `k * i` of `s`. */
  lemma {:induction false} SubsampleAt<T>(s: seq<T>, k: nat, i: nat)
    requires k > 0 && i < |Subsample(s, k)|
    ensures k * i < |s| && Subsample(s, k)[i] == s[k * i]
    decreases |s|
  {
    if i > 0 {
      var rest := Subsample(s[k..], k);
      SubsampleAt(s[k..], k, i - 1);
      var m := k * (i - 1);
      MulStep(k, i);
      assert Subsample(s, k)[i] == rest[i - 1] == s[k..][m];
    }
  }

  /** `s[::k]` has `ceil(|s| / k)` elements, stated without division. */
  lemma {:induction false} SubsampleBounds<T>(s: seq<T>, k: nat)
    requires k > 0
    ensures var n := |Subsample(s, k)|; k * n - k < |s| <= k * n
    decreases |s|
  {
    if |s| > k {
      SubsampleBounds(s[k..], k);
      var n := |Subsample(s, k)|;
      assert n == |Subsample(s[k..], k)| + 1;
      MulStep(k, n);
    }
  }

  lemma MulStep(k: int, i: int)
    ensures k * (i - 1) + k == k * i
  {
  }

  /** A sequence of at least one element keeps its first element. */
  lemma SubsampleKeepsFirst<T>(s: seq<T>, k: nat)
    requires k > 0 && s != []
    ensures Subsample(s, k) != [] && Subsample(s, k)[0] == s[0]
  {
  }

  /** `s[::k]` is a subsequence of `s`. */
  lemma {:induction false} SubsampleIsSubseq<T>(s: seq<T>, k: nat)
    requires k > 0
    ensures IsSubseq(Subsample(s, k), s)
    decreases |s|
  {
    if s != [] {
      var r := Subsample(s, k);
      if |s| <= k {
        EmptyIsSubseq(s[1..]);
        assert r[1..] == [];
      } else {
        SubsampleIsSubseq(s[k..], k);
        assert r[1..] == Subsample(s[k..], k);
        DropIsSubseq(r[1..], s[1..], k - 1);
        assert s[1..][k - 1..] == s[k..];
      }
    }
  }

  lemma {:induction false} EmptyIsSubseq<T>(s: seq<T>)
    ensures IsSubseq([], s)
  {
  }

  /** A subsequence of a suffix of `s` is a subsequence of `s`. */
  lemma {:induction false} DropIsSubseq<T>(a: seq<T>, s: seq<T>, d: nat)
    requires d <= |s| && IsSubseq(a, s[d..])
    ensures IsSubseq(a, s)
    decreases d
  {
    if d > 0 {
      assert s[1..][d - 1..] == s[d..];
      DropIsSubseq(a, s[1..], d - 1);
      if a != [] {
        assert IsSubseq(a, s[1..]);
      }
    }
  }

  /** At the stride of 5 the length is `ceil(|s| / 5)`. */
  lemma SubsampleLength<T>(s: seq<T>)
    ensures |Subsample(s, Stride)| == (|s| + 4) / 5
  {
    SubsampleBounds(s, Stride);
  }

  /** The 23-point example: indices 0, 5, 10, 15 and 20 survive. */
  lemma SubsampleExample()
    ensures Subsample(Range(23), Stride) == [0, 5, 10, 15, 20]
  {
    var r := Subsample(Range(23), Stride);
    SubsampleLength(Range(23));
    forall i | 0 <= i < 5 ensures r[i] == 5 * i {
      SubsampleAt(Range(23), Stride, i);
    }
  }

  /** `np.concatenate([traceback(pos1), traceback(pos2)[::-1]])`. */
  function AssemblePath(tb1: seq<Pos>, tb2: seq<Pos>): (path: seq<Pos>)
    ensures |path| == |tb1| + |tb2|
    ensures path[..|tb1|] == tb1
    ensures forall i | |tb1| <= i < |path| :: path[i] == tb2[|tb1| + |tb2| - 1 - i]
  {
    tb1 + Reverse(tb2)
  }

  /** Two traceback paths inside `m` whose last pixels are the neighbouring
      meeting pixels assemble into one 8-connected path inside `m`, running
      from the first front's start to the second front's start. */
  lemma AssembleIsPath(m: set<Pos>, tb1: seq<Pos>, tb2: seq<Pos>)
    requires IsPath(m, tb1) && IsPath(m, tb2)
    requires Adjacent(tb1[|tb1| - 1], tb2[|tb2| - 1])
    ensures IsPath(m, AssemblePath(tb1, tb2))
    ensures AssemblePath(tb1, tb2)[0] == tb1[0]
    ensures AssemblePath(tb1, tb2)[|tb1| + |tb2| - 1] == tb2[0]
  {
    var p := AssemblePath(tb1, tb2);
    var r := Reverse(tb2);
    PathReverse(m, tb2);
    assert p == tb1 + r;
    forall i, j | 0 <= i && j == i + 1 < |p|
      ensures Adjacent(p[i], p[j])
    {
      if j < |tb1| {
        assert p[i] == tb1[i] && p[j] == tb1[j];
      } else if i >= |tb1| {
        assert p[i] == r[i - |tb1|] && p[j] == r[j - |tb1|];
      }
    }
    forall i | 0 <= i < |p|
      ensures p[i] in m
    {
      if i >= |tb1| {
        assert p[i] == r[i - |tb1|];
      }
    }
  }

  /** An OpenCV point: `x` is the column, `y` the row. */
  datatype Point = Point(x: int, y: int)

  /** `c[:, None, ::-1]` on one point. */
  function Flip(p: Pos): (q: Point)
    ensures q.x == p.col && q.y == p.row
  {
    Point(p.col, p.row)
  }

  function Unflip(q: Point): (p: Pos)
    ensures p.row == q.y && p.col == q.x
  {
    Pos(q.y, q.x)
  }

  lemma FlipRoundTrip(p: Pos, q: Point)
    ensures Unflip(Flip(p)) == p
    ensures Flip(Unflip(q)) == q
  {
  }

  /** The contour returned for one connection path. */
  function ContourOf(path: seq<Pos>): (c: seq<Point>)
    ensures |c| == (|path| + 4) / 5
    ensures forall i | 0 <= i < |c| :: Stride * i < |path| && Unflip(c[i]) == path[Stride * i]
  {
    var s := Subsample(path, Stride);
    SubsampleLength(path);
    forall i | 0 <= i < |s| ensures Stride * i < |path| && s[i] == path[Stride * i] {
      SubsampleAt(path, Stride, i);
    }
    seq(|s|, i requires 0 <= i < |s| => Flip(s[i]))
  }

  /** `get_connections` followed by the final `[:, None, ::-1]` flip: one contour per
      stored key, in key insertion order. */
  function Contours(b: Book, traceback: Pos -> seq<Pos>): (cs: seq<seq<Point>>)
    requires b.Valid()
    ensures |cs| == |b.order|
    ensures forall i | 0 <= i < |b.order| ::
      var c := b.conns[b.order[i]];
      cs[i] == ContourOf(AssemblePath(traceback(c.pos1), traceback(c.pos2)))
  {
    seq(|b.order|, i requires 0 <= i < |b.order| =>
      var c := b.conns[b.order[i]];
      ContourOf(AssemblePath(traceback(c.pos1), traceback(c.pos2))))
  }

  /** Each contour starts at the start of the first traceback: the first
      point of a path always survives subsampling. */
  lemma ContourStartsAtFirstFront(b: Book, traceback: Pos -> seq<Pos>, i: int)
    requires b.Valid() && 0 <= i < |b.order|
    requires traceback(b.conns[b.order[i]].pos1) != []
    ensures Contours(b, traceback)[i] != []
    ensures Unflip(Contours(b, traceback)[i][0]) == traceback(b.conns[b.order[i]].pos1)[0]
  {
    var c := b.conns[b.order[i]];
    var path := AssemblePath(traceback(c.pos1), traceback(c.pos2));
    assert path[0] == traceback(c.pos1)[0];
  }
}
