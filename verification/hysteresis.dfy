/**
 * Hysteresis thresholding of a (smoothed) line-probability map: a pixel is
 * kept when it is above the low threshold and its 8-connected component of
 * such pixels contains a pixel above the high threshold.
 */
module Hysteresis {
  import opened Wrappers
  import opened Grids
  import opened Connectivity

  /** Membership in `low_mask`: strictly above the low threshold and, when a
      candidate mask is given, a candidate. */
  predicate InLow(probs: Grid<real>, low: real, candidates: Option<Grid<bool>>, p: Pos)
    requires probs.Valid() && probs.Contains(p)
    requires candidates.Some? ==> candidates.value.Valid() && candidates.value.SameShape(probs)
  {
    probs.At(p) > low && (candidates.Some? ==> candidates.value.At(p))
  }

  function LowMask(probs: Grid<real>, low: real, candidates: Option<Grid<bool>>): (m: set<Pos>)
    requires probs.Valid()
    requires candidates.Some? ==> candidates.value.Valid() && candidates.value.SameShape(probs)
    ensures forall p :: p in m <==> probs.Contains(p) && InLow(probs, low, candidates, p)
  {
    set r, c | 0 <= r < probs.h && 0 <= c < probs.w && InLow(probs, low, candidates, Pos(r, c)) :: Pos(r, c)
  }

  /** The pixels of the low mask that are strictly above the high threshold. */
  function Seeds(probs: Grid<real>, low: real, high: real, candidates: Option<Grid<bool>>): (s: set<Pos>)
    requires probs.Valid()
    requires candidates.Some? ==> candidates.value.Valid() && candidates.value.SameShape(probs)
    ensures s <= LowMask(probs, low, candidates)
  {
    set p | p in LowMask(probs, low, candidates) && probs.At(p) > high
  }

  /** Whether the labelling step keeps `p`: it is in the low mask and its
      8-connected component of the low mask holds a seed (`good_labels`). */
  ghost predicate KeptByComponent(probs: Grid<real>, low: real, high: real, candidates: Option<Grid<bool>>, p: Pos)
    requires probs.Valid() && probs.Contains(p)
    requires candidates.Some? ==> candidates.value.Valid() && candidates.value.SameShape(probs)
  {
    && InLow(probs, low, candidates, p)
    && exists q | q in Seeds(probs, low, high, candidates) :: SameComponent(LowMask(probs, low, candidates), q, p)
  }

  /** The mask `hysteresis_thresholding` should return: set exactly at the
      pixels whose low-mask component holds a seed. */
  ghost function HysteresisMask(probs: Grid<real>, low: real, high: real, candidates: Option<Grid<bool>>)
    : (m: Grid<bool>)
    requires probs.Valid()
    requires candidates.Some? ==> candidates.value.Valid() && candidates.value.SameShape(probs)
    ensures m.Valid() && m.SameShape(probs)
    ensures forall p | probs.Contains(p) :: m.At(p) == KeptByComponent(probs, low, high, candidates, p)
  {
    Grid(probs.h, probs.w, seq(probs.h, r requires 0 <= r < probs.h =>
      seq(probs.w, c requires 0 <= c < probs.w => KeptByComponent(probs, low, high, candidates, Pos(r, c)))))
  }

  /** `hysteresis_thresholding`: the union of the components of the low mask
      that hold a seed, as a mask of the map's shape. */
  method Threshold(probs: Grid<real>, low: real, high: real, candidates: Option<Grid<bool>>)
    returns (r: Result<Grid<bool>, ExtractionError>)
    requires probs.Valid()
    requires candidates.Some? ==> candidates.value.Valid()
    ensures r.Failure? <==> candidates.Some? && !candidates.value.SameShape(probs)
    ensures r.Failure? ==> r.error == ShapeMismatch
    ensures r.Success? ==> r.value.Valid() && r.value.SameShape(probs)
    ensures r.Success? ==> r.value == HysteresisMask(probs, low, high, candidates)
    // exactly the pixels whose low-mask component reaches above the high threshold
    ensures r.Success? ==> forall p | probs.Contains(p) ::
      r.value.At(p) <==> KeptByComponent(probs, low, high, candidates, p)
    // the output lies inside the low mask
    ensures r.Success? ==> forall p | probs.Contains(p) && r.value.At(p) ::
      InLow(probs, low, candidates, p)
    // every pixel of the low mask above the high threshold is kept
    ensures r.Success? ==> forall p | probs.Contains(p) && InLow(probs, low, candidates, p) && probs.At(p) > high ::
      r.value.At(p)
    // components are kept whole: a kept pixel keeps its low-mask neighbours
    ensures r.Success? ==> forall p, q | r.value.Contains(p) && r.value.Contains(q) && Adjacent(p, q)
      && r.value.At(p) && q in LowMask(probs, low, candidates) :: r.value.At(q)
  {
    if candidates.Some? && !candidates.value.SameShape(probs) {
      return Failure(ShapeMismatch);
    }
    var m := LowMask(probs, low, candidates);
    var seeds := Seeds(probs, low, high, candidates);
    var kept := Flood(m, seeds);
    var mask := FromCells(kept, probs.h, probs.w);
    MaskOfClosedSet(m, kept, mask);
    forall p | probs.Contains(p)
      ensures mask.At(p) <==> KeptByComponent(probs, low, high, candidates, p)
    {
      ReachesFromOneSeed(m, seeds, p);
    }
    forall p | probs.Contains(p) && InLow(probs, low, candidates, p) && probs.At(p) > high
      ensures mask.At(p)
    {
      SeedIsKept(probs, low, high, candidates, p);
    }
    MasksEqual(mask, HysteresisMask(probs, low, high, candidates));
    r := Success(mask);
  }

  /** The mask of a set closed under adjacency inside `m` keeps, with every
      set pixel, its neighbours in `m`. */
  lemma MaskOfClosedSet(m: set<Pos>, kept: set<Pos>, mask: Grid<bool>)
    requires kept <= m && Closed(m, kept)
    requires mask.Valid() && forall p | mask.Contains(p) :: mask.At(p) <==> p in kept
    ensures forall p | mask.Contains(p) && mask.At(p) :: p in m
    ensures forall p, q | mask.Contains(p) && mask.Contains(q) && Adjacent(p, q) && mask.At(p) && q in m ::
      mask.At(q)
  {
  }

  /** A seed is in its own component. */
  lemma SeedIsKept(probs: Grid<real>, low: real, high: real, candidates: Option<Grid<bool>>, p: Pos)
    requires probs.Valid() && probs.Contains(p)
    requires candidates.Some? ==> candidates.value.Valid() && candidates.value.SameShape(probs)
    requires InLow(probs, low, candidates, p) && probs.At(p) > high
    ensures KeptByComponent(probs, low, high, candidates, p)
  {
    assert IsPath(LowMask(probs, low, candidates), [p]);
    assert SameComponent(LowMask(probs, low, candidates), p, p);
  }

  /** Components are kept or dropped whole: the kept set is closed under
      8-adjacency inside the low mask. */
  lemma KeptComponentsWhole(probs: Grid<real>, low: real, high: real, candidates: Option<Grid<bool>>, p: Pos, q: Pos)
    requires probs.Valid() && probs.Contains(p) && probs.Contains(q)
    requires candidates.Some? ==> candidates.value.Valid() && candidates.value.SameShape(probs)
    requires KeptByComponent(probs, low, high, candidates, p)
    requires Adjacent(p, q) && InLow(probs, low, candidates, q)
    ensures KeptByComponent(probs, low, high, candidates, q)
  {
    var m := LowMask(probs, low, candidates);
    var seeds := Seeds(probs, low, high, candidates);
    var s :| s in seeds && SameComponent(m, s, p);
    assert IsPath(m, [p, q]);
    ReachesTrans(m, {s}, {p}, q);
  }

  /** Without a pixel above the high threshold in the low mask nothing is kept. */
  lemma NoSeedKeepsNothing(probs: Grid<real>, low: real, high: real, candidates: Option<Grid<bool>>, p: Pos)
    requires probs.Valid() && probs.Contains(p)
    requires candidates.Some? ==> candidates.value.Valid() && candidates.value.SameShape(probs)
    requires forall q | probs.Contains(q) && InLow(probs, low, candidates, q) :: probs.At(q) <= high
    ensures !KeptByComponent(probs, low, high, candidates, p)
  {
    assert Seeds(probs, low, high, candidates) == {};
  }

  /** Raising either threshold never adds a pixel to the output. */
  lemma KeptMonotone(probs: Grid<real>, low: real, high: real, low': real, high': real,
                     candidates: Option<Grid<bool>>, p: Pos)
    requires probs.Valid() && probs.Contains(p)
    requires candidates.Some? ==> candidates.value.Valid() && candidates.value.SameShape(probs)
    requires low <= low' && high <= high'
    requires KeptByComponent(probs, low', high', candidates, p)
    ensures KeptByComponent(probs, low, high, candidates, p)
  {
    var m := LowMask(probs, low, candidates);
    var m' := LowMask(probs, low', candidates);
    var s :| s in Seeds(probs, low', high', candidates) && SameComponent(m', s, p);
    ReachesMonotone(m', m, {s}, {s}, p);
    assert s in Seeds(probs, low, high, candidates);
  }
}
