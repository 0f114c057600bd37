/**
 * The data model shared by every stage: pixel positions, rectangular
 * 2-D arrays, 8-adjacency and the conversion between boolean masks and
 * sets of set pixels.
 */
module Grids {

  /** A pixel coordinate as numpy indexes a 2-D array: (row, column). */
  datatype Pos = Pos(row: int, col: int)

  /** A 2-D array of `h` rows of `w` cells each (a numpy array of shape (h, w)). */
  datatype Grid<T> = Grid(h: nat, w: nat, cells: seq<seq<T>>)
  {
    /** Every row has exactly `w` cells: numpy arrays are rectangular. */
    predicate Valid()
    {
      |cells| == h && forall r | 0 <= r < h :: |cells[r]| == w
    }

    predicate Contains(p: Pos)
    {
      0 <= p.row < h && 0 <= p.col < w
    }

    function At(p: Pos): T
      requires Valid() && Contains(p)
    {
      cells[p.row][p.col]
    }

    predicate SameShape<U>(other: Grid<U>)
    {
      h == other.h && w == other.w
    }
  }

  /** 8-connectivity (structuring element `np.ones((3, 3))`, or `connectivity=2`):
      two distinct pixels whose rows and columns each differ by at most one. */
  predicate Adjacent(p: Pos, q: Pos)
  {
    p != q && -1 <= p.row - q.row <= 1 && -1 <= p.col - q.col <= 1
  }

  /** The set pixels of a boolean mask. */
  function Cells(g: Grid<bool>): (s: set<Pos>)
    requires g.Valid()
    ensures forall p :: p in s <==> g.Contains(p) && g.At(p)
  {
    set r, c | 0 <= r < g.h && 0 <= c < g.w && g.cells[r][c] :: Pos(r, c)
  }

  /** The h-by-w boolean mask whose set pixels are those of `s`. */
  function FromCells(s: set<Pos>, h: nat, w: nat): (g: Grid<bool>)
    ensures g.Valid() && g.h == h && g.w == w
    ensures forall p | g.Contains(p) :: g.At(p) <==> p in s
  {
    Grid(h, w, seq(h, r => seq(w, c => Pos(r, c) in s)))
  }

  /** Two masks of the same shape that agree at every pixel are equal. */
  lemma MasksEqual(a: Grid<bool>, b: Grid<bool>)
    requires a.Valid() && b.Valid() && a.SameShape(b)
    requires forall p | a.Contains(p) :: a.At(p) == b.At(p)
    ensures a == b
  {
    forall r | 0 <= r < a.h
      ensures a.cells[r] == b.cells[r]
    {
      forall c | 0 <= c < a.w
        ensures a.cells[r][c] == b.cells[r][c]
      {
        assert a.At(Pos(r, c)) == b.At(Pos(r, c));
      }
    }
  }
}
