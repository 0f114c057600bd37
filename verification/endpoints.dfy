/**
 * Endpoint detection and selection on a skeleton mask: candidates are set
 * pixels with exactly one set 8-neighbour, grouped by 8-connected component;
 * each group contributes its two farthest-apart candidates.
 */
module Endpoints {
  import opened Grids
  import opened Connectivity
  import opened Grouping

  /** One cell of the zero-padded input: 1 when set, 0 when clear or outside. */
  function Bit(g: Grid<bool>, p: Pos): nat
    requires g.Valid()
  {
    if g.Contains(p) && g.At(p) then 1 else 0
  }

  function Shift(p: Pos, dr: int, dc: int): Pos
  {
    Pos(p.row + dr, p.col + dc)
  }

  /** `convolve2d(mask, np.ones((3, 3)), mode='same')` at `p`: the number of
      set cells in the 3x3 window centred on `p`, the centre included. */
  function WindowSum(g: Grid<bool>, p: Pos): nat
    requires g.Valid()
  {
    Bit(g, Shift(p, -1, -1)) + Bit(g, Shift(p, -1, 0)) + Bit(g, Shift(p, -1, 1))
    + Bit(g, Shift(p, 0, -1)) + Bit(g, p) + Bit(g, Shift(p, 0, 1))
    + Bit(g, Shift(p, 1, -1)) + Bit(g, Shift(p, 1, 0)) + Bit(g, Shift(p, 1, 1))
  }

  /** `(window sum == 2) & mask`. */
  predicate IsCandidate(g: Grid<bool>, p: Pos)
    requires g.Valid()
  {
    g.Contains(p) && g.At(p) && WindowSum(g, p) == 2
  }

  /** The set 8-neighbours of `p`. */
  predicate IsNeighbour(g: Grid<bool>, p: Pos, q: Pos)
    requires g.Valid()
  {
    Adjacent(p, q) && g.Contains(q) && g.At(q)
  }

  /** The eight neighbours of `p`, in the window's row-major order. */
  function Ring(p: Pos): (ring: seq<Pos>)
    ensures |ring| == 8
    ensures forall i | 0 <= i < 8 :: Adjacent(p, ring[i])
  {
    [Shift(p, -1, -1), Shift(p, -1, 0), Shift(p, -1, 1), Shift(p, 0, -1),
     Shift(p, 0, 1), Shift(p, 1, -1), Shift(p, 1, 0), Shift(p, 1, 1)]
  }

  lemma RingIsNeighbourhood(p: Pos, q: Pos)
    requires Adjacent(p, q)
    ensures exists i | 0 <= i < 8 :: Ring(p)[i] == q
  {
    var ring := Ring(p);
    var dr, dc := q.row - p.row, q.col - p.col;
    assert q == Shift(p, dr, dc);
    if dr == -1 {
      assert q == ring[0] || q == ring[1] || q == ring[2];
    } else if dr == 0 {
      assert q == ring[3] || q == ring[4];
    } else {
      assert q == ring[5] || q == ring[6] || q == ring[7];
    }
  }

  lemma RingDistinct(p: Pos, i: nat, j: nat)
    requires i < 8 && j < 8 && i != j
    ensures Ring(p)[i] != Ring(p)[j]
  {
  }

  function RingBits(g: Grid<bool>, p: Pos): (b: seq<nat>)
    requires g.Valid()
    ensures |b| == 8 && forall i | 0 <= i < 8 :: b[i] == Bit(g, Ring(p)[i])
  {
    seq(8, i requires 0 <= i < 8 => Bit(g, Ring(p)[i]))
  }

  function Sum8(b: seq<nat>): nat
    requires |b| == 8
  {
    b[0] + b[1] + b[2] + b[3] + b[4] + b[5] + b[6] + b[7]
  }

  lemma WindowSumSplit(g: Grid<bool>, p: Pos)
    requires g.Valid()
    ensures WindowSum(g, p) == Bit(g, p) + Sum8(RingBits(g, p))
  {
  }

  /** Eight bits sum to one exactly when one of them is set. */
  lemma SumIsOne(b: seq<nat>)
    requires |b| == 8 && forall i | 0 <= i < 8 :: b[i] <= 1
    ensures Sum8(b) == 1 <==> exists k | 0 <= k < 8 :: b[k] == 1 && forall i | 0 <= i < 8 && i != k :: b[i] == 0
  {
    if Sum8(b) == 1 {
      var k := if b[0] == 1 then 0 else if b[1] == 1 then 1 else if b[2] == 1 then 2 else if b[3] == 1 then 3
        else if b[4] == 1 then 4 else if b[5] == 1 then 5 else if b[6] == 1 then 6 else 7;
      assert b[k] == 1;
      assert forall i | 0 <= i < 8 && i != k :: b[i] == 0;
    }
  }

  /** A set pixel whose neighbourhood holds exactly one set pixel. */
  ghost predicate OneNeighbour(g: Grid<bool>, p: Pos)
    requires g.Valid()
  {
    exists q | IsNeighbour(g, p, q) :: forall q' | IsNeighbour(g, p, q') :: q' == q
  }

  /** A candidate is a set pixel with exactly one set pixel among its eight
      neighbours, cells outside the grid counting as clear. */
  lemma CandidateIffOneNeighbour(g: Grid<bool>, p: Pos)
    requires g.Valid() && g.Contains(p) && g.At(p)
    ensures IsCandidate(g, p) <==> OneNeighbour(g, p)
  {
    if IsCandidate(g, p) {
      CandidateHasOneNeighbour(g, p);
    }
    if OneNeighbour(g, p) {
      OneNeighbourIsCandidate(g, p);
    }
  }

  lemma CandidateHasOneNeighbour(g: Grid<bool>, p: Pos)
    requires g.Valid() && IsCandidate(g, p)
    ensures OneNeighbour(g, p)
  {
    var ring := Ring(p);
    var b := RingBits(g, p);
    WindowSumSplit(g, p);
    SumIsOne(b);
    var k :| 0 <= k < 8 && b[k] == 1 && forall i | 0 <= i < 8 && i != k :: b[i] == 0;
    forall q' | IsNeighbour(g, p, q')
      ensures q' == ring[k]
    {
      RingIsNeighbourhood(p, q');
      var j :| 0 <= j < 8 && ring[j] == q';
      assert b[j] == 1;
    }
    assert IsNeighbour(g, p, ring[k]);
  }

  lemma OneNeighbourIsCandidate(g: Grid<bool>, p: Pos)
    requires g.Valid() && g.Contains(p) && g.At(p) && OneNeighbour(g, p)
    ensures IsCandidate(g, p)
  {
    var ring := Ring(p);
    var b := RingBits(g, p);
    var q :| IsNeighbour(g, p, q) && forall q' | IsNeighbour(g, p, q') :: q' == q;
    RingIsNeighbourhood(p, q);
    var k :| 0 <= k < 8 && ring[k] == q;
    forall i | 0 <= i < 8 && i != k
      ensures b[i] == 0
    {
      RingDistinct(p, i, k);
      assert !IsNeighbour(g, p, ring[i]);
    }
    assert b[k] == 1;
    SumIsOne(b);
    WindowSumSplit(g, p);
  }

  /** `p` comes before `q` in row-major (C) order. */
  predicate Before(p: Pos, q: Pos)
  {
    p.row < q.row || (p.row == q.row && p.col < q.col)
  }

  predicate RowMajor(s: seq<Pos>)
  {
    forall i, j | 0 <= i < j < |s| :: Before(s[i], s[j])
  }

  /** The set pixels of `b` at or after (r, c) in row-major order. */
  function WhereFrom(b: Grid<bool>, r: nat, c: nat): (s: seq<Pos>)
    requires b.Valid() && r <= b.h && c <= b.w
    ensures forall i | 0 <= i < |s| :: b.Contains(s[i]) && b.At(s[i]) && !Before(s[i], Pos(r, c))
    ensures forall p | b.Contains(p) && b.At(p) && !Before(p, Pos(r, c)) :: p in s
    ensures RowMajor(s)
    decreases b.h - r, b.w - c
  {
    if r == b.h then []
    else if c == b.w then WhereFrom(b, r + 1, 0)
    else (if b.cells[r][c] then [Pos(r, c)] else []) + WhereFrom(b, r, c + 1)
  }

  /** `np.stack(np.where(b)).T`: the set pixels of `b`, each once, in row-major order. */
  function Where(b: Grid<bool>): (s: seq<Pos>)
    requires b.Valid()
    ensures forall p :: p in s <==> b.Contains(p) && b.At(p)
    ensures RowMajor(s)
  {
    WhereFrom(b, 0, 0)
  }

  /** `(convolve2d(mask, np.ones((3, 3)), mode='same') == 2) & mask`. */
  function CandidateMask(g: Grid<bool>): (b: Grid<bool>)
    requires g.Valid()
    ensures b.Valid() && b.SameShape(g)
    ensures forall p | b.Contains(p) :: b.At(p) == IsCandidate(g, p)
  {
    Grid(g.h, g.w, seq(g.h, r => seq(g.w, c => IsCandidate(g, Pos(r, c)))))
  }

  /** The endpoint candidates, each once, in row-major order. */
  function Candidates(g: Grid<bool>): (s: seq<Pos>)
    requires g.Valid()
    ensures forall p :: p in s <==> IsCandidate(g, p)
    ensures RowMajor(s)
  {
    Where(CandidateMask(g))
  }

  /** A row-major listing of a set of pixels is unique. */
  lemma {:induction false} RowMajorUnique(a: seq<Pos>, b: seq<Pos>)
    requires RowMajor(a) && RowMajor(b)
    requires forall p :: p in a <==> p in b
    ensures a == b
    decreases |a|
  {
    assert a != [] ==> a[0] in b;
    assert b != [] ==> b[0] in a;
    if a != [] {
      var j :| 0 <= j < |a| && a[j] == b[0];
      var k :| 0 <= k < |b| && b[k] == a[0];
      assert a[0] == b[0];
      assert a == [a[0]] + a[1..] && b == [b[0]] + b[1..];
      forall p
        ensures p in a[1..] <==> p in b[1..]
      {
        if p in a[1..] {
          var i :| 0 <= i < |a[1..]| && a[1..][i] == p;
          assert Before(a[0], a[i + 1]);
          assert p in b && p != b[0];
        }
        if p in b[1..] {
          var i :| 0 <= i < |b[1..]| && b[1..][i] == p;
          assert Before(b[0], b[i + 1]);
          assert p in a && p != a[0];
        }
      }
      RowMajorUnique(a[1..], b[1..]);
      assert a == [a[0]] + a[1..] && b == [b[0]] + b[1..];
    }
  }

  /** The four directions of a straight one-pixel-wide segment, each read
      from its row-major first pixel. */
  datatype Direction = Right | Down | DownRight | DownLeft

  /** `p` lies on the segment of `n` pixels starting at `p0` in direction `d`. */
  predicate OnSegment(d: Direction, p0: Pos, n: nat, p: Pos)
  {
    match d
    case Right => p.row == p0.row && p0.col <= p.col < p0.col + n
    case Down => p.col == p0.col && p0.row <= p.row < p0.row + n
    case DownRight => p.col - p0.col == p.row - p0.row && p0.row <= p.row < p0.row + n
    case DownLeft => p0.col - p.col == p.row - p0.row && p0.row <= p.row < p0.row + n
  }

  /** The last pixel of that segment. */
  function SegmentEnd(d: Direction, p0: Pos, n: nat): (e: Pos)
    requires n > 0
    ensures OnSegment(d, p0, n, e)
  {
    match d
    case Right => Pos(p0.row, p0.col + n - 1)
    case Down => Pos(p0.row + n - 1, p0.col)
    case DownRight => Pos(p0.row + n - 1, p0.col + n - 1)
    case DownLeft => Pos(p0.row + n - 1, p0.col - n + 1)
  }

  /** A mask holding exactly one straight segment of two or more pixels,
      horizontal, vertical or diagonal, yields exactly its two ends as
      candidates, in row-major order. */
  lemma SegmentEnds(g: Grid<bool>, d: Direction, p0: Pos, n: nat)
    requires g.Valid() && n >= 2 && g.Contains(p0) && g.Contains(SegmentEnd(d, p0, n))
    requires forall p | g.Contains(p) :: g.At(p) <==> OnSegment(d, p0, n, p)
    ensures Candidates(g) == [p0, SegmentEnd(d, p0, n)]
  {
    var e := SegmentEnd(d, p0, n);
    forall p
      ensures IsCandidate(g, p) <==> p == p0 || p == e
    {
      if g.Contains(p) && g.At(p) {
        SegmentPixel(g, d, p0, n, p);
      }
    }
    RowMajorUnique(Candidates(g), [p0, e]);
  }

  /** A pixel of the segment is a candidate iff it is one of its ends. */
  lemma SegmentPixel(g: Grid<bool>, d: Direction, p0: Pos, n: nat, p: Pos)
    requires g.Valid() && n >= 2 && g.Contains(p0) && g.Contains(SegmentEnd(d, p0, n))
    requires forall p | g.Contains(p) :: g.At(p) <==> OnSegment(d, p0, n, p)
    requires g.Contains(p) && OnSegment(d, p0, n, p)
    ensures IsCandidate(g, p) <==> p == p0 || p == SegmentEnd(d, p0, n)
  {
    match d
    case Right =>
    case Down =>
    case DownRight =>
    case DownLeft =>
  }

  /** An isolated set pixel is not a candidate: its window sums to one. */
  lemma IsolatedIsNotCandidate(g: Grid<bool>, p: Pos)
    requires g.Valid() && g.Contains(p) && g.At(p)
    requires forall q | Adjacent(p, q) && g.Contains(q) :: !g.At(q)
    ensures !IsCandidate(g, p)
  {
    WindowSumSplit(g, p);
    forall i | 0 <= i < 8
      ensures RingBits(g, p)[i] == 0
    {
    }
  }

  /** The component label of each pixel of `xs` inside `m`. */
  ghost function ComponentLabels(m: set<Pos>, xs: seq<Pos>): (ks: seq<set<Pos>>)
    ensures |ks| == |xs| && forall i | 0 <= i < |xs| :: ks[i] == ComponentOf(m, xs[i])
  {
    seq(|xs|, i requires 0 <= i < |xs| => ComponentOf(m, xs[i]))
  }

  /** Grouping by component label groups by connectivity: two grouped pixels
      share an entry exactly when they are connected. */
  lemma GroupsAreComponents(m: set<Pos>, xs: seq<Pos>, ks: seq<set<Pos>>, i: nat, j: nat, a: Pos, b: Pos)
    requires |xs| == |ks| && forall t | 0 <= t < |xs| :: xs[t] in m && ks[t] == ComponentOf(m, xs[t])
    requires i < |GroupBy(xs, ks)| && j < |GroupBy(xs, ks)|
    requires a in GroupBy(xs, ks)[i].members && b in GroupBy(xs, ks)[j].members
    ensures i == j <==> SameComponent(m, a, b)
  {
    var gs := GroupBy(xs, ks);
    MemberHasKey(xs, ks, i, a);
    MemberHasKey(xs, ks, j, b);
    var ta :| 0 <= ta < |xs| && xs[ta] == a && ks[ta] == gs[i].key;
    var tb :| 0 <= tb < |xs| && xs[tb] == b && ks[tb] == gs[j].key;
    assert KeysOf(gs)[i] == gs[i].key && KeysOf(gs)[j] == gs[j].key;
    SameLabelIffConnected(m, a, b);
  }

  /** The candidates grouped by 8-connected component of the skeleton, in
      order of each component's first candidate; within a group, row-major
      order. */
  method GroupCandidates(g: Grid<bool>) returns (groups: seq<Group<set<Pos>, Pos>>)
    requires g.Valid()
    ensures groups == GroupBy(Candidates(g), ComponentLabels(Cells(g), Candidates(g)))
    ensures forall i | 0 <= i < |groups| :: |groups[i].members| > 0 && Seqs.Distinct(groups[i].members)
    ensures forall i, a | 0 <= i < |groups| && a in groups[i].members :: IsCandidate(g, a)
    ensures forall p | IsCandidate(g, p) :: exists i | 0 <= i < |groups| :: p in groups[i].members
    ensures forall i, j, a, b | 0 <= i < |groups| && 0 <= j < |groups|
      && a in groups[i].members && b in groups[j].members :: i == j <==> SameComponent(Cells(g), a, b)
  {
    var cands := Candidates(g);
    var labels := LabelAll(Cells(g), cands);
    groups := GroupBy(cands, labels);
    GroupedCandidates(g, groups);
  }

  /** `connected_components[pt[0], pt[1]]` for every candidate, in order. */
  method LabelAll(m: set<Pos>, xs: seq<Pos>) returns (labels: seq<set<Pos>>)
    requires forall t | 0 <= t < |xs| :: xs[t] in m
    ensures labels == ComponentLabels(m, xs)
  {
    labels := [];
    var t := 0;
    while t < |xs|
      invariant 0 <= t <= |xs|
      invariant |labels| == t && forall k | 0 <= k < t :: labels[k] == ComponentOf(m, xs[k])
    {
      var c := Label(m, xs[t]);
      labels := labels + [c];
      t := t + 1;
    }
  }

  /** The facts about the candidate groups, gathered from the lemmas below. */
  lemma GroupedCandidates(g: Grid<bool>, groups: seq<Group<set<Pos>, Pos>>)
    requires g.Valid() && groups == GroupBy(Candidates(g), ComponentLabels(Cells(g), Candidates(g)))
    ensures forall i | 0 <= i < |groups| :: |groups[i].members| > 0 && Seqs.Distinct(groups[i].members)
    ensures forall i, a | 0 <= i < |groups| && a in groups[i].members :: IsCandidate(g, a)
    ensures forall p | IsCandidate(g, p) :: exists i | 0 <= i < |groups| :: p in groups[i].members
    ensures forall i, j, a, b | 0 <= i < |groups| && 0 <= j < |groups|
      && a in groups[i].members && b in groups[j].members :: i == j <==> SameComponent(Cells(g), a, b)
  {
    GroupsHoldCandidates(g);
    GroupsCoverCandidates(g, groups);
    GroupsAreCandidateComponents(g, groups);
  }

  /** Every candidate is in some group. */
  lemma GroupsCoverCandidates(g: Grid<bool>, groups: seq<Group<set<Pos>, Pos>>)
    requires g.Valid() && groups == GroupBy(Candidates(g), ComponentLabels(Cells(g), Candidates(g)))
    ensures forall p | IsCandidate(g, p) :: exists i | 0 <= i < |groups| :: p in groups[i].members
  {
    var cands := Candidates(g);
    var labels := ComponentLabels(Cells(g), cands);
    forall p | IsCandidate(g, p)
      ensures exists i | 0 <= i < |groups| :: p in groups[i].members
    {
      assert p in cands;
      var t :| 0 <= t < |cands| && cands[t] == p;
      var i := GroupOf(cands, labels, t);
    }
  }

  /** Two candidates share a group exactly when they are connected. */
  lemma GroupsAreCandidateComponents(g: Grid<bool>, groups: seq<Group<set<Pos>, Pos>>)
    requires g.Valid() && groups == GroupBy(Candidates(g), ComponentLabels(Cells(g), Candidates(g)))
    ensures forall i, j, a, b | 0 <= i < |groups| && 0 <= j < |groups|
      && a in groups[i].members && b in groups[j].members :: i == j <==> SameComponent(Cells(g), a, b)
  {
    var cands := Candidates(g);
    var m := Cells(g);
    var labels := ComponentLabels(m, cands);
    assert forall t | 0 <= t < |cands| :: cands[t] in m by {
      forall t | 0 <= t < |cands|
        ensures cands[t] in m
      {
        assert cands[t] in cands;
      }
    }
    GroupsSplitByComponent(m, cands, labels);
  }

  /** Each group is a non-empty, repetition-free list of candidates. */
  lemma GroupsHoldCandidates(g: Grid<bool>)
    requires g.Valid()
    ensures var cands := Candidates(g);
      var groups := GroupBy(cands, ComponentLabels(Cells(g), cands));
      && (forall i | 0 <= i < |groups| :: |groups[i].members| > 0 && Seqs.Distinct(groups[i].members))
      && (forall i, a | 0 <= i < |groups| && a in groups[i].members :: IsCandidate(g, a))
  {
    var cands := Candidates(g);
    var labels := ComponentLabels(Cells(g), cands);
    var groups := GroupBy(cands, labels);
    GroupByCovers(cands, labels);
    assert Seqs.Distinct(cands) by {
      forall x, y | 0 <= x < y < |cands|
        ensures cands[x] != cands[y]
      {
        assert Before(cands[x], cands[y]);
      }
    }
    forall i | 0 <= i < |groups|
      ensures Seqs.Distinct(groups[i].members)
    {
      SelectDistinct(cands, labels, groups[i].key);
    }
    forall i, a | 0 <= i < |groups| && a in groups[i].members
      ensures IsCandidate(g, a)
    {
      MemberHasKey(cands, labels, i, a);
    }
  }

  /** Two grouped pixels share a group exactly when they are connected. */
  lemma GroupsSplitByComponent(m: set<Pos>, xs: seq<Pos>, ks: seq<set<Pos>>)
    requires |xs| == |ks| && forall t | 0 <= t < |xs| :: xs[t] in m && ks[t] == ComponentOf(m, xs[t])
    ensures forall i, j, a, b | 0 <= i < |GroupBy(xs, ks)| && 0 <= j < |GroupBy(xs, ks)|
        && a in GroupBy(xs, ks)[i].members && b in GroupBy(xs, ks)[j].members :: i == j <==> SameComponent(m, a, b)
  {
    forall i, j, a, b | 0 <= i < |GroupBy(xs, ks)| && 0 <= j < |GroupBy(xs, ks)|
      && a in GroupBy(xs, ks)[i].members && b in GroupBy(xs, ks)[j].members
      ensures i == j <==> SameComponent(m, a, b)
    {
      GroupsAreComponents(m, xs, ks, i, j, a, b);
    }
  }

  /** Squared Euclidean distance: it orders pairs exactly as the distance does. */
  function SqDist(p: Pos, q: Pos): int
  {
    (p.row - q.row) * (p.row - q.row) + (p.col - q.col) * (p.col - q.col)
  }

  /** Squared distances are non-negative, symmetric, and zero exactly between
      equal pixels. */
  lemma SqDistZero(p: Pos, q: Pos)
    ensures SqDist(p, q) >= 0 && SqDist(p, q) == SqDist(q, p)
    ensures SqDist(p, q) == 0 <==> p == q
  {
    var dr, dc := p.row - q.row, p.col - q.col;
    assert dr * dr >= 0 && dc * dc >= 0;
    assert dr != 0 ==> dr * dr > 0;
    assert dc != 0 ==> dc * dc > 0;
  }

  /** (a, b) comes before (i, j) in row-major order over the distance matrix. */
  predicate PairBefore(a: int, b: int, i: int, j: int)
  {
    a < i || (a == i && b < j)
  }

  /** `np.unravel_index(d.argmax(), d.shape)` on the pairwise distance matrix
      of `pts`: (i, j) holds the largest distance, and every entry before it in
      row-major order is strictly smaller. */
  predicate IsFarthestPair(pts: seq<Pos>, i: int, j: int)
  {
    && 0 <= i < |pts| && 0 <= j < |pts|
    && (forall a, b | 0 <= a < |pts| && 0 <= b < |pts| :: SqDist(pts[a], pts[b]) <= SqDist(pts[i], pts[j]))
    && (forall a, b | 0 <= a < |pts| && 0 <= b < |pts| && PairBefore(a, b, i, j) ::
          SqDist(pts[a], pts[b]) < SqDist(pts[i], pts[j]))
  }

  /** The scan state of `FarthestPair`: every entry before (a, b) is at most
      entry (i, j), and those also before (i, j) are strictly smaller. */
  predicate Scanned(pts: seq<Pos>, a: int, b: int, i: int, j: int)
    requires 0 <= i < |pts| && 0 <= j < |pts|
  {
    && (forall x, y | 0 <= x < |pts| && 0 <= y < |pts| && PairBefore(x, y, a, b) ::
          SqDist(pts[x], pts[y]) <= SqDist(pts[i], pts[j]))
    && (forall x, y | 0 <= x < |pts| && 0 <= y < |pts| && PairBefore(x, y, a, b) && PairBefore(x, y, i, j) ::
          SqDist(pts[x], pts[y]) < SqDist(pts[i], pts[j]))
  }

  lemma ScanStep(pts: seq<Pos>, a: int, b: int, i: int, j: int)
    requires 0 <= a < |pts| && 0 <= b < |pts| && 0 <= i < |pts| && 0 <= j < |pts|
    requires (i == 0 && j == 0) || PairBefore(i, j, a, b)
    requires Scanned(pts, a, b, i, j)
    ensures SqDist(pts[a], pts[b]) > SqDist(pts[i], pts[j]) ==> Scanned(pts, a, b + 1, a, b)
    ensures SqDist(pts[a], pts[b]) <= SqDist(pts[i], pts[j]) ==> Scanned(pts, a, b + 1, i, j)
  {
    var d, best := SqDist(pts[a], pts[b]), SqDist(pts[i], pts[j]);
    // an entry before (a, b + 1) is before (a, b) or is (a, b) itself
    assert forall x, y | PairBefore(x, y, a, b + 1) :: PairBefore(x, y, a, b) || (x == a && y == b);
    if d <= best {
      // an entry before (i, j) is before (a, b): nothing precedes (0, 0)
      assert forall x, y | 0 <= x && 0 <= y && PairBefore(x, y, i, j) :: PairBefore(x, y, a, b);
    }
  }

  lemma ScanRow(pts: seq<Pos>, a: int, i: int, j: int)
    requires 0 <= i < |pts| && 0 <= j < |pts|
    requires Scanned(pts, a, |pts|, i, j)
    ensures Scanned(pts, a + 1, 0, i, j)
  {
  }

  /** The first row-major argmax of the pairwise distance matrix. */
  method FarthestPair(pts: seq<Pos>) returns (i: nat, j: nat)
    requires |pts| > 0
    ensures IsFarthestPair(pts, i, j)
  {
    var n := |pts|;
    i, j := 0, 0;
    var best := SqDist(pts[0], pts[0]);
    var a, b := 0, 0;
    while a < n
      invariant 0 <= a <= n && 0 <= b <= n
      invariant a == n ==> b == 0
      invariant i < n && j < n && best == SqDist(pts[i], pts[j])
      invariant (i == 0 && j == 0) || PairBefore(i, j, a, b)
      invariant Scanned(pts, a, b, i, j)
      decreases n - a, n - b
    {
      if b == n {
        ScanRow(pts, a, i, j);
        a, b := a + 1, 0;
      } else {
        ScanStep(pts, a, b, i, j);
        var d := SqDist(pts[a], pts[b]);
        if d > best {
          i, j, best := a, b, d;
        }
        b := b + 1;
      }
    }
  }

  /** The row-major first argmax is unique. */
  lemma FarthestPairUnique(pts: seq<Pos>, i: int, j: int, i': int, j': int)
    requires IsFarthestPair(pts, i, j) && IsFarthestPair(pts, i', j')
    ensures i == i' && j == j'
  {
    assert SqDist(pts[i], pts[j]) == SqDist(pts[i'], pts[j']);
  }

  /** With at least two distinct points the pair is two different points, the
      earlier one first; a single point is paired with itself. */
  lemma FarthestPairOrdered(pts: seq<Pos>, i: int, j: int)
    requires Seqs.Distinct(pts) && IsFarthestPair(pts, i, j)
    ensures |pts| == 1 ==> i == 0 && j == 0
    ensures |pts| >= 2 ==> i < j
  {
    if |pts| >= 2 {
      SqDistZero(pts[0], pts[1]);
      SqDistZero(pts[i], pts[j]);
      assert SqDist(pts[i], pts[i]) == 0;
      assert SqDist(pts[j], pts[i]) == SqDist(pts[i], pts[j]);
    }
  }

  /** `e0`, `e1` are the two points of the farthest pair of `pts`. */
  predicate EndsOf(pts: seq<Pos>, e0: Pos, e1: Pos)
  {
    exists i, j | 0 <= i < |pts| && 0 <= j < |pts| && IsFarthestPair(pts, i, j) :: e0 == pts[i] && e1 == pts[j]
  }

  /** The endpoint list: for every group, in order, the two points of its
      farthest pair. */
  method SelectEndpoints(groups: seq<seq<Pos>>) returns (ends: seq<Pos>)
    requires forall g | 0 <= g < |groups| :: |groups[g]| > 0
    ensures |ends| == 2 * |groups|
    ensures forall g | 0 <= g < |groups| :: EndsOf(groups[g], ends[2 * g], ends[2 * g + 1])
  {
    ends := [];
    var g := 0;
    while g < |groups|
      invariant 0 <= g <= |groups| && |ends| == 2 * g
      invariant forall h | 0 <= h < g :: EndsOf(groups[h], ends[2 * h], ends[2 * h + 1])
    {
      var i, j := FarthestPair(groups[g]);
      var ends' := ends + [groups[g][i], groups[g][j]];
      assert forall h | 0 <= h < g :: ends'[2 * h] == ends[2 * h] && ends'[2 * h + 1] == ends[2 * h + 1];
      ends := ends';
      g := g + 1;
    }
  }
}
