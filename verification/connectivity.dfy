/**
 * 8-connected components, stated as reachability along paths of adjacent
 * pixels inside a mask and computed by flooding outwards from seed pixels.
 * This replaces the library labelling calls (scipy `label` with a 3x3
 * structuring element, skimage `label` with `connectivity=2`).
 */
module Connectivity {
  import opened Grids
  import Seqs

  /** A non-empty walk through `m` whose consecutive pixels are 8-adjacent. */
  ghost predicate IsPath(m: set<Pos>, path: seq<Pos>)
  {
    && |path| > 0
    && (forall i | 0 <= i < |path| :: path[i] in m)
    && (forall i, j | 0 <= i && j == i + 1 < |path| :: Adjacent(path[i], path[j]))
  }

  /** `q` can be reached inside `m` from some pixel of `seeds`. */
  ghost predicate Reaches(m: set<Pos>, seeds: set<Pos>, q: Pos)
  {
    exists path :: IsPath(m, path) && path[0] in seeds && path[|path| - 1] == q
  }

  /** `p` and `q` lie in the same 8-connected component of `m`. */
  ghost predicate SameComponent(m: set<Pos>, p: Pos, q: Pos)
  {
    Reaches(m, {p}, q)
  }

  /** No pixel of `m` adjacent to `r` lies outside `r`. */
  predicate Closed(m: set<Pos>, r: set<Pos>)
  {
    forall p, q {:trigger Adjacent(p, q)} | p in r && q in m && Adjacent(p, q) :: q in r
  }

  /** One flooding step: `s` plus every pixel of `m` adjacent to it. */
  function Grow(m: set<Pos>, s: set<Pos>): (r: set<Pos>)
    ensures s <= r
    ensures s <= m ==> r <= m
  {
    s + set q | q in m && exists p | p in s :: Adjacent(p, q)
  }

  lemma GrowReaches(m: set<Pos>, s: set<Pos>)
    requires s <= m
    ensures forall x | x in Grow(m, s) :: Reaches(m, s, x)
  {
    forall x | x in Grow(m, s)
      ensures Reaches(m, s, x)
    {
      if x in s {
        assert IsPath(m, [x]);
      } else {
        var p :| p in s && Adjacent(p, x);
        assert IsPath(m, [p, x]);
      }
    }
  }

  /** Flooding stops exactly when nothing adjacent is left to add. */
  lemma GrowFixpointClosed(m: set<Pos>, s: set<Pos>)
    requires Grow(m, s) == s
    ensures Closed(m, s)
  {
    forall p, q | p in s && q in m && Adjacent(p, q)
      ensures q in s
    {
      assert q in Grow(m, s);
    }
  }

  /** A step that adds something leaves fewer pixels of `m` to add. */
  lemma GrowShrinksRest(m: set<Pos>, s: set<Pos>, s': set<Pos>)
    requires s <= s' <= m && s' != s
    ensures |m - s'| < |m - s|
  {
    var x :| x in s' && x !in s;
    Seqs.SubsetCard((m - s') + {x}, m - s);
  }

  /** Joining a walk from `s` to a pixel of `t` with a walk from there on. */
  lemma ReachesTrans(m: set<Pos>, s: set<Pos>, t: set<Pos>, q: Pos)
    requires forall x | x in t :: Reaches(m, s, x)
    requires Reaches(m, t, q)
    ensures Reaches(m, s, q)
  {
    var p2 :| IsPath(m, p2) && p2[0] in t && p2[|p2| - 1] == q;
    var p1 :| IsPath(m, p1) && p1[0] in s && p1[|p1| - 1] == p2[0];
    var p := p1 + p2[1..];
    assert |p| == |p1| + |p2| - 1;
    forall i | 0 <= i < |p| - 1
      ensures Adjacent(p[i], p[i + 1])
    {
      if i < |p1| - 1 {
        assert p[i] == p1[i] && p[i + 1] == p1[i + 1];
      } else if i == |p1| - 1 {
        assert p[i] == p2[0] && p[i + 1] == p2[1];
      } else {
        assert p[i] == p2[i - |p1| + 1] && p[i + 1] == p2[i - |p1| + 2];
      }
    }
    assert p[|p| - 1] == q;
    assert IsPath(m, p);
  }

  lemma ReachesTransAll(m: set<Pos>, s: set<Pos>, t: set<Pos>, r: set<Pos>)
    requires forall x | x in t :: Reaches(m, s, x)
    requires forall q | q in r :: Reaches(m, t, q)
    ensures forall q | q in r :: Reaches(m, s, q)
  {
    forall q | q in r
      ensures Reaches(m, s, q)
    {
      ReachesTrans(m, s, t, q);
    }
  }

  /** A closed set containing the seeds contains everything they reach. */
  lemma {:induction false} ClosedContainsReached(m: set<Pos>, s: set<Pos>, r: set<Pos>, q: Pos)
    requires s <= r && Closed(m, r)
    requires Reaches(m, s, q)
    ensures q in r
  {
    var path :| IsPath(m, path) && path[0] in s && path[|path| - 1] == q;
    var i := 0;
    while i < |path| - 1
      invariant 0 <= i < |path|
      invariant path[i] in r
    {
      assert Adjacent(path[i], path[i + 1]);
      i := i + 1;
    }
  }

  /** Every pixel of `m` reachable from `s`, computed by growing `s` one ring
      of 8-neighbours at a time until nothing changes: the union of the
      components of `m` that meet `s`. */
  method Flood(m: set<Pos>, s: set<Pos>) returns (r: set<Pos>)
    requires s <= m
    ensures s <= r <= m
    ensures Closed(m, r)
    ensures forall q :: q in r <==> Reaches(m, s, q)
  {
    r := s;
    var next := Grow(m, r);
    GrowReaches(m, s);
    while next != r
      invariant s <= r <= m
      invariant next == Grow(m, r)
      invariant forall q | q in r :: Reaches(m, s, q)
      decreases |m - r|
    {
      GrowShrinksRest(m, r, next);
      GrowReaches(m, r);
      ReachesTransAll(m, s, r, next);
      r := next;
      next := Grow(m, r);
    }
    GrowFixpointClosed(m, r);
    forall q | Reaches(m, s, q)
      ensures q in r
    {
      ClosedContainsReached(m, s, r, q);
    }
  }

  /** A pixel reached from a seed set is reached from one seed of it. */
  lemma ReachesFromOneSeed(m: set<Pos>, s: set<Pos>, q: Pos)
    ensures Reaches(m, s, q) <==> exists p | p in s :: SameComponent(m, p, q)
  {
    if Reaches(m, s, q) {
      var path :| IsPath(m, path) && path[0] in s && path[|path| - 1] == q;
      assert SameComponent(m, path[0], q);
    }
    if exists p | p in s :: SameComponent(m, p, q) {
      var p :| p in s && SameComponent(m, p, q);
      var path :| IsPath(m, path) && path[0] in {p} && path[|path| - 1] == q;
      assert path[0] in s;
    }
  }

  /** A walk inside a smaller mask from a smaller seed set is also a walk
      inside the larger mask from the larger seed set. */
  lemma ReachesMonotone(m: set<Pos>, m': set<Pos>, s: set<Pos>, s': set<Pos>, q: Pos)
    requires m <= m' && s <= s'
    requires Reaches(m, s, q)
    ensures Reaches(m', s', q)
  {
    var path :| IsPath(m, path) && path[0] in s && path[|path| - 1] == q;
    assert IsPath(m', path);
  }

  /** 8-adjacency is symmetric, so every walk can be walked backwards. */
  lemma PathReverse(m: set<Pos>, path: seq<Pos>)
    requires IsPath(m, path)
    ensures IsPath(m, Seqs.Reverse(path))
  {
    var back := Seqs.Reverse(path);
    forall i | 0 <= i < |back|
      ensures back[i] in m
    {
      assert back[i] == path[|path| - 1 - i];
    }
    forall i, j | 0 <= i && j == i + 1 < |back|
      ensures Adjacent(back[i], back[j])
    {
      assert back[i] == path[|path| - 1 - i] && back[j] == path[|path| - 2 - i];
      assert Adjacent(path[|path| - 2 - i], path[|path| - 1 - i]);
    }
  }

  lemma SameComponentSymmetric(m: set<Pos>, p: Pos, q: Pos)
    requires SameComponent(m, p, q)
    ensures SameComponent(m, q, p)
  {
    var path :| IsPath(m, path) && path[0] in {p} && path[|path| - 1] == q;
    var back := Seqs.Reverse(path);
    PathReverse(m, path);
    assert back[0] == q && back[|back| - 1] == p;
  }

  /** The 8-connected component of `p` inside `m`. */
  ghost function ComponentOf(m: set<Pos>, p: Pos): set<Pos>
  {
    set q | q in m && SameComponent(m, p, q)
  }

  /** The label of `p`'s component: the component itself, as a pixel set. Two
      pixels get equal labels exactly when they are connected (see
      `SameLabelIffConnected`), which is all a labelling promises. */
  method Label(m: set<Pos>, p: Pos) returns (c: set<Pos>)
    requires p in m
    ensures p in c && c <= m
    ensures c == ComponentOf(m, p)
  {
    c := Flood(m, {p});
    assert IsPath(m, [p]);
    forall q
      ensures q in c <==> q in ComponentOf(m, p)
    {
    }
  }

  /** Everything connected to `q` is connected to `p` when `q` is. */
  lemma ComponentWithin(m: set<Pos>, p: Pos, q: Pos)
    requires SameComponent(m, p, q)
    ensures ComponentOf(m, q) <= ComponentOf(m, p)
  {
    forall x | x in ComponentOf(m, q)
      ensures x in ComponentOf(m, p)
    {
      ReachesTrans(m, {p}, {q}, x);
    }
  }

  /** Two pixels of `m` get the same label iff they are connected. */
  lemma SameLabelIffConnected(m: set<Pos>, p: Pos, q: Pos)
    requires p in m && q in m
    ensures ComponentOf(m, p) == ComponentOf(m, q) <==> SameComponent(m, p, q)
  {
    if SameComponent(m, p, q) {
      SameComponentSymmetric(m, p, q);
      ComponentWithin(m, p, q);
      ComponentWithin(m, q, p);
    } else {
      assert IsPath(m, [q]);
      assert q in ComponentOf(m, q) && q !in ComponentOf(m, p);
    }
  }
}
