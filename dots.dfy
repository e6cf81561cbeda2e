/** Board coordinates, the 3x3 neighbourhood of a cell, and the grid of cell glyphs. */
module Dots {
  /** A cell; `x` is the row index and `y` the column index (`field[x][y]`). Equality is structural. */
  datatype Dot = Dot(x: int, y: int)

  /** The glyphs a cell of the field can hold. */
  const EMPTY: char := 'O'
  const SHIP: char := '\U{25A0}'
  const HIT: char := 'X'
  const MISS: char := '.'

  predicate IsGlyph(c: char) {
    c == EMPTY || c == SHIP || c == HIT || c == MISS
  }

  /** The negation of `Board.out`: the dot lies on a `size` x `size` board. */
  predicate InBounds(d: Dot, size: int) {
    0 <= d.x < size && 0 <= d.y < size
  }

  /** `a` lies in the 3x3 square centred on `b` (touching orthogonally or diagonally, or equal). */
  predicate Adjacent(a: Dot, b: Dot) {
    -1 <= a.x - b.x <= 1 && -1 <= a.y - b.y <= 1
  }

  /** The offsets `near` that `contour` visits, in its order. */
  const NEAR: seq<(int, int)> :=
    [(-1, -1), (-1, 0), (-1, 1), (0, -1), (0, 0), (0, 1), (1, -1), (1, 0), (1, 1)]

  /** The cells `contour` visits around one dot, in order. */
  function Ring(d: Dot): seq<Dot> {
    seq(|NEAR|, n requires 0 <= n < |NEAR| => Dot(d.x + NEAR[n].0, d.y + NEAR[n].1))
  }

  /** The ring around `d` is exactly the 3x3 neighbourhood of `d`. */
  lemma RingIsNeighbourhood(c: Dot, d: Dot)
    ensures c in Ring(d) <==> Adjacent(c, d)
  {
    if Adjacent(c, d) {
      var n := 3 * (c.x - d.x + 1) + (c.y - d.y + 1);
      assert Ring(d)[n] == c;
    }
    if c in Ring(d) {
      var n :| 0 <= n < |NEAR| && Ring(d)[n] == c;
      assert n == 0 || n == 1 || n == 2 || n == 3 || n == 4 || n == 5 || n == 6 || n == 7 || n == 8;
    }
  }

  predicate NoDup<T(==)>(s: seq<T>) {
    forall i, j :: 0 <= i < j < |s| ==> s[i] != s[j]
  }

  lemma NoDupAppend<T>(a: seq<T>, b: seq<T>)
    requires NoDup(a) && NoDup(b) && forall i :: 0 <= i < |b| ==> b[i] !in a
    ensures NoDup(a + b)
  {
    forall i, j | 0 <= i < j < |a + b| ensures (a + b)[i] != (a + b)[j] {
      if i < |a| && j >= |a| {
        assert (a + b)[j] == b[j - |a|];
      }
    }
  }

  /** A `size` x `size` list of rows. */
  predicate IsGrid(g: seq<seq<char>>, size: nat) {
    |g| == size && forall i :: 0 <= i < size ==> |g[i]| == size
  }

  /** `out` is the index test of the grid: a cell is on the board exactly when the grid has a
      cell at its row and column. */
  lemma InBoundsIndexes(g: seq<seq<char>>, size: nat, d: Dot)
    requires IsGrid(g, size)
    ensures InBounds(d, size) <==> 0 <= d.x < |g| && 0 <= d.y < |g[d.x]|
  {
  }

  /** A fresh grid: every cell empty. */
  function Blank(size: nat): (g: seq<seq<char>>)
    ensures IsGrid(g, size)
    ensures forall i, j :: 0 <= i < size && 0 <= j < size ==> g[i][j] == EMPTY
  {
    seq(size, _ => seq(size, _ => EMPTY))
  }

  /** The grid with cell `d` set to `ch`; no other cell changes. */
  function SetCell(g: seq<seq<char>>, d: Dot, ch: char): (r: seq<seq<char>>)
    requires 0 <= d.x < |g| && 0 <= d.y < |g[d.x]|
    ensures |r| == |g| && forall i :: 0 <= i < |g| ==> |r[i]| == |g[i]|
    ensures forall i, j :: 0 <= i < |g| && 0 <= j < |g[i]| ==>
              r[i][j] == if i == d.x && j == d.y then ch else g[i][j]
  {
    g[d.x := g[d.x][d.y := ch]]
  }
}
