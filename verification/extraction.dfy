/** The two entry points: `extract_line_polygons`, from a skeleton mask to
    one contour per best connection between endpoints, and
    `line_extraction_v1`, which thresholds the smoothed probability map,
    extracts the contours and drops those near the page edges. */
module Extraction {
  import opened Wrappers
  import opened Grids
  import opened Seqs
  import opened Grouping
  import opened Connectivity
  import opened Hysteresis
  import opened Endpoints
  import opened Connections
  import opened Polylines
  import opened EdgeFilter

  /** Everything `extract_line_polygons` computes: the endpoint list, the
      connection bookkeeping after the search, the contours, and whether the
      consistency warning was printed. */
  datatype Polygons = Polygons(endpoints: seq<Pos>, book: Book, contours: seq<seq<Point>>, warned: bool)

  /** The endpoint candidates of a skeleton, grouped by connected component
      in order of first appearance. */
  ghost function CandidateGroups(skel: Grid<bool>): seq<Group<set<Pos>, Pos>>
    requires skel.Valid()
  {
    GroupBy(Candidates(skel), ComponentLabels(Cells(skel), Candidates(skel)))
  }

  function MembersOf(groups: seq<Group<set<Pos>, Pos>>): (ms: seq<seq<Pos>>)
    ensures |ms| == |groups|
    ensures forall i | 0 <= i < |groups| :: ms[i] == groups[i].members
  {
    seq(|groups|, i requires 0 <= i < |groups| => groups[i].members)
  }

  /** The endpoint list of a skeleton: two endpoints per component holding
      a candidate, its farthest pair, components in order of their first
      candidate. */
  ghost predicate EndpointsChosen(skel: Grid<bool>, ends: seq<Pos>)
    requires skel.Valid()
  {
    var groups := CandidateGroups(skel);
    && |ends| == 2 * |groups|
    && (forall g | 0 <= g < |groups| :: EndsOf(groups[g].members, ends[2 * g], ends[2 * g + 1]))
    && (forall i | 0 <= i < |ends| :: IsCandidate(skel, ends[i]))
    // endpoints of different pairs lie in different components
    && (forall x, y | 0 <= x < |ends| && 0 <= y < |ends| ::
          x / 2 == y / 2 <==> SameComponent(Cells(skel), ends[x], ends[y]))
  }

  /** The connections found from the endpoint list: the best one per key,
      one contour each in key order, and the warning, which fires unless
      every endpoint index is used exactly once. */
  ghost predicate Assembled(search: seq<Pos> -> seq<Offer>, traceback: Pos -> seq<Pos>, e: Polygons)
  {
    && e.book == Replay(search(e.endpoints))
    && e.contours == Contours(e.book, traceback)
    && (e.warned <==> !EachIndexOnce(Indices(e.book.order), |e.endpoints|))
  }

  /** What `extract_line_polygons` returns for a skeleton with at least one
      set pixel and one endpoint candidate. */
  ghost predicate Extracted(skel: Grid<bool>, search: seq<Pos> -> seq<Offer>, traceback: Pos -> seq<Pos>, e: Polygons)
    requires skel.Valid()
  {
    EndpointsChosen(skel, e.endpoints) && Assembled(search, traceback, e)
  }

  /** `extract_line_polygons` on the skeleton `skel`. The minimum-cost-path
      search is the oracle `search`, giving the `create_connection` calls it
      makes for an endpoint list, and `traceback` gives the path from a
      start point to a pixel. */
  method ExtractLinePolygons(skel: Grid<bool>, search: seq<Pos> -> seq<Offer>, traceback: Pos -> seq<Pos>)
    returns (r: Result<Polygons, ExtractionError>)
    requires skel.Valid()
    // an empty mask gives no contours
    ensures Cells(skel) == {} ==> r == Success(Polygons([], EmptyBook, [], false))
    // a non-empty mask without endpoint candidates raises
    ensures r.Failure? <==> Cells(skel) != {} && Candidates(skel) == []
    ensures r.Failure? ==> r.error == NoEndpoints
    ensures r.Success? && Cells(skel) != {} ==> Extracted(skel, search, traceback, r.value)
  {
    var cells := Cells(skel);
    if cells == {} {
      return Success(Polygons([], EmptyBook, [], false));
    }
    var groups := GroupCandidates(skel);
    if |groups| == 0 {
      HeadIn(Candidates(skel));
      return Failure(NoEndpoints);
    }
    var members := MembersOf(groups);
    var ends := SelectEndpoints(members);
    var book := Replay(search(ends));
    var warned := DiagnosticFires(book.order, |ends|);
    var e := Polygons(ends, book, Contours(book, traceback), warned);
    ExtractedFrom(skel, groups, members, ends, search, traceback);
    r := Success(e);
  }

  /** The endpoint list built from the component groups, followed by the
      bookkeeping and the assembly, meets `Extracted`. */
  lemma ExtractedFrom(skel: Grid<bool>, groups: seq<Group<set<Pos>, Pos>>, members: seq<seq<Pos>>,
                      ends: seq<Pos>, search: seq<Pos> -> seq<Offer>, traceback: Pos -> seq<Pos>)
    requires skel.Valid() && groups == CandidateGroups(skel) && members == MembersOf(groups)
    requires forall i, a | 0 <= i < |groups| && a in groups[i].members :: IsCandidate(skel, a)
    requires forall i, j, a, b | 0 <= i < |groups| && 0 <= j < |groups|
      && a in groups[i].members && b in groups[j].members :: i == j <==> SameComponent(Cells(skel), a, b)
    requires |ends| == 2 * |members|
    requires forall g | 0 <= g < |members| :: EndsOf(members[g], ends[2 * g], ends[2 * g + 1])
    ensures
      var book := Replay(search(ends));
      Extracted(skel, search, traceback,
        Polygons(ends, book, Contours(book, traceback), DiagnosticFires(book.order, |ends|)))
  {
    ChosenFrom(skel, groups, members, ends);
    var book := Replay(search(ends));
    DiagnosticIff(book.order, |ends|);
  }

  /** The farthest pairs of the component groups form the endpoint list. */
  lemma ChosenFrom(skel: Grid<bool>, groups: seq<Group<set<Pos>, Pos>>, members: seq<seq<Pos>>, ends: seq<Pos>)
    requires skel.Valid() && groups == CandidateGroups(skel) && members == MembersOf(groups)
    requires forall i, a | 0 <= i < |groups| && a in groups[i].members :: IsCandidate(skel, a)
    requires forall i, j, a, b | 0 <= i < |groups| && 0 <= j < |groups|
      && a in groups[i].members && b in groups[j].members :: i == j <==> SameComponent(Cells(skel), a, b)
    requires |ends| == 2 * |members|
    requires forall g | 0 <= g < |members| :: EndsOf(members[g], ends[2 * g], ends[2 * g + 1])
    ensures EndpointsChosen(skel, ends)
  {
    EndsOfGroups(groups, members, ends);
    EndsAreCandidates(skel, groups, members, ends);
    EndsSeparated(skel, groups, members, ends);
  }

  /** Pair `g` of the endpoint list is the farthest pair of group `g`. */
  lemma EndsOfGroups(groups: seq<Group<set<Pos>, Pos>>, members: seq<seq<Pos>>, ends: seq<Pos>)
    requires members == MembersOf(groups) && |ends| == 2 * |members|
    requires forall g | 0 <= g < |members| :: EndsOf(members[g], ends[2 * g], ends[2 * g + 1])
    ensures |ends| == 2 * |groups|
    ensures forall g | 0 <= g < |groups| :: EndsOf(groups[g].members, ends[2 * g], ends[2 * g + 1])
  {
    forall g | 0 <= g < |groups|
      ensures EndsOf(groups[g].members, ends[2 * g], ends[2 * g + 1])
    {
      assert members[g] == groups[g].members;
    }
  }

  /** Every chosen endpoint is an endpoint candidate of the skeleton. */
  lemma EndsAreCandidates(skel: Grid<bool>, groups: seq<Group<set<Pos>, Pos>>, members: seq<seq<Pos>>, ends: seq<Pos>)
    requires skel.Valid() && members == MembersOf(groups)
    requires forall i, a | 0 <= i < |groups| && a in groups[i].members :: IsCandidate(skel, a)
    requires |ends| == 2 * |members|
    requires forall g | 0 <= g < |members| :: EndsOf(members[g], ends[2 * g], ends[2 * g + 1])
    ensures forall i | 0 <= i < |ends| :: IsCandidate(skel, ends[i])
  {
    forall i | 0 <= i < |ends|
      ensures IsCandidate(skel, ends[i])
    {
      var g := i / 2;
      assert i == 2 * g || i == 2 * g + 1;
      EndpointIsMember(members, ends, g);
      assert ends[i] in groups[g].members;
    }
  }

  /** Two endpoints share a component iff they belong to the same pair. */
  lemma EndsSeparated(skel: Grid<bool>, groups: seq<Group<set<Pos>, Pos>>, members: seq<seq<Pos>>, ends: seq<Pos>)
    requires skel.Valid() && members == MembersOf(groups)
    requires forall i, j, a, b | 0 <= i < |groups| && 0 <= j < |groups|
      && a in groups[i].members && b in groups[j].members :: i == j <==> SameComponent(Cells(skel), a, b)
    requires |ends| == 2 * |members|
    requires forall g | 0 <= g < |members| :: EndsOf(members[g], ends[2 * g], ends[2 * g + 1])
    ensures forall x, y | 0 <= x < |ends| && 0 <= y < |ends| ::
      x / 2 == y / 2 <==> SameComponent(Cells(skel), ends[x], ends[y])
  {
    forall x, y | 0 <= x < |ends| && 0 <= y < |ends|
      ensures x / 2 == y / 2 <==> SameComponent(Cells(skel), ends[x], ends[y])
    {
      var g := EndInGroup(members, ends, x);
      var h := EndInGroup(members, ends, y);
      assert ends[x] in groups[g].members && ends[y] in groups[h].members;
    }
  }

  /** Endpoint `x` belongs to group `x / 2`, the group of its pair. */
  lemma EndInGroup(members: seq<seq<Pos>>, ends: seq<Pos>, x: int) returns (g: int)
    requires |ends| == 2 * |members| && 0 <= x < |ends|
    requires forall g | 0 <= g < |members| :: EndsOf(members[g], ends[2 * g], ends[2 * g + 1])
    ensures g == x / 2 && 0 <= g < |members| && ends[x] in members[g]
  {
    g := x / 2;
    assert x == 2 * g || x == 2 * g + 1;
    EndpointIsMember(members, ends, g);
  }

  /** Both endpoints of pair `g` belong to group `g`. */
  lemma EndpointIsMember(members: seq<seq<Pos>>, ends: seq<Pos>, g: int)
    requires |ends| == 2 * |members| && 0 <= g < |members|
    requires EndsOf(members[g], ends[2 * g], ends[2 * g + 1])
    ensures ends[2 * g] in members[g] && ends[2 * g + 1] in members[g]
  {
  }

  /** The result of `line_extraction_v1`: the kept contours and the
      thresholded mask, together with the unfiltered polygons they come
      from. */
  datatype Lines = Lines(contours: seq<seq<Point>>, mask: Grid<bool>, polygons: Polygons)

  /** `line_extraction_v1` on the already smoothed map `probs`. The
      thinning of the mask is the parameter `skeletonize`. */
  method LineExtraction(
    probs: Grid<real>, low: real, high: real, candidates: Option<Grid<bool>>, filterWidth: real,
    skeletonize: Grid<bool> -> Grid<bool>, search: seq<Pos> -> seq<Offer>, traceback: Pos -> seq<Pos>)
    returns (r: Result<Lines, ExtractionError>)
    requires probs.Valid()
    requires candidates.Some? ==> candidates.value.Valid()
    requires forall g: Grid<bool> | g.Valid() :: skeletonize(g).Valid() && skeletonize(g).SameShape(g)
    // a candidate mask of another shape raises, and nothing else does
    ensures r.Failure? && r.error == ShapeMismatch <==> candidates.Some? && !candidates.value.SameShape(probs)
    ensures r.Failure? ==> r.error == ShapeMismatch || r.error == NoEndpoints
    // otherwise only a non-empty skeleton without endpoint candidates raises
    ensures candidates.None? || candidates.value.SameShape(probs) ==>
      var skel := skeletonize(HysteresisMask(probs, low, high, candidates));
      (r.Failure? <==> Cells(skel) != {} && Candidates(skel) == [])
    ensures r.Success? ==>
      var l := r.value;
      // the mask is the hysteresis output
      && l.mask == HysteresisMask(probs, low, high, candidates)
      && l.mask.Valid() && l.mask.SameShape(probs)
      && (forall p | probs.Contains(p) :: l.mask.At(p) <==> KeptByComponent(probs, low, high, candidates, p))
      // the polygons are those of the skeleton of the mask
      && (Cells(skeletonize(l.mask)) == {} ==> l.polygons == Polygons([], EmptyBook, [], false))
      && (Cells(skeletonize(l.mask)) != {} ==> Extracted(skeletonize(l.mask), search, traceback, l.polygons))
      // the kept contours: in order, exactly those inside the margins, as often as they occur
      && IsSubseq(l.contours, l.polygons.contours)
      && (forall i | 0 <= i < |l.contours| :: !Dropped(l.contours[i], filterWidth, probs.w))
      && (forall i | 0 <= i < |l.polygons.contours| && !Dropped(l.polygons.contours[i], filterWidth, probs.w) ::
            l.polygons.contours[i] in l.contours)
      && (forall c :: multiset(l.contours)[c] ==
            if Dropped(c, filterWidth, probs.w) then 0 else multiset(l.polygons.contours)[c])
  {
    var mask := Threshold(probs, low, high, candidates);
    if mask.Failure? {
      return Failure(mask.error);
    }
    var skel := skeletonize(mask.value);
    var polygons := ExtractLinePolygons(skel, search, traceback);
    if polygons.Failure? {
      return Failure(polygons.error);
    }
    var kept := FilterContours(polygons.value.contours, filterWidth, probs.w);
    r := Success(Lines(kept, mask.value, polygons.value));
  }
}
