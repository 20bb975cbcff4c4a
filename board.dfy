/**
 * The 16×16 occupancy grid of the puzzle, as a value: the `markers` table of
 * bin/main.js seen as a sequence of rows.  Row 0 is the top edge, row N-1 the
 * bottom edge, column 0 the left edge.
 */
module Board {

  /** Side length of the square grid (`gridSize`). */
  const N: int := 16

  datatype Option<T> = None | Some(value: T)

  type Grid = seq<seq<bool>>

  /** `g` has N rows of N cells each. */
  predicate IsGrid(g: Grid) {
    |g| == N && forall r :: 0 <= r < N ==> |g[r]| == N
  }

  predicate InGrid(r: int, c: int) {
    0 <= r < N && 0 <= c < N
  }

  function Min(a: int, b: int): int { if a <= b then a else b }

  function Max(a: int, b: int): int { if a <= b then b else a }

  /** Two grids that agree on every cell are the same grid. */
  lemma {:induction false} GridExt(g: Grid, h: Grid)
    requires IsGrid(g) && IsGrid(h)
    requires forall r, c :: InGrid(r, c) ==> g[r][c] == h[r][c]
    ensures g == h
  {
    forall r | 0 <= r < N
      ensures g[r] == h[r]
    {
      assert forall c :: 0 <= c < N ==> g[r][c] == h[r][c];
    }
  }

  /** The board with no marker at all (the state `clearAllMarkers` leaves). */
  function Empty(): (g: Grid)
    ensures IsGrid(g)
    ensures forall r, c :: InGrid(r, c) ==> !g[r][c]
  {
    seq(N, _ => seq(N, _ => false))
  }

  /** The one cell `g` has after writing `v` at (r, c); every other cell keeps its value. */
  function Set(g: Grid, r: int, c: int, v: bool): (h: Grid)
    requires IsGrid(g) && InGrid(r, c)
    ensures IsGrid(h)
    ensures forall i, j :: InGrid(i, j) ==> h[i][j] == if i == r && j == c then v else g[i][j]
  {
    g[r := g[r][c := v]]
  }

  /** The canonical start board: a single marker in the bottom-left corner (N-1, 0). */
  function Start(): (g: Grid)
    ensures IsGrid(g)
    ensures forall r, c :: InGrid(r, c) ==> (g[r][c] <==> r == N - 1 && c == 0)
  {
    Set(Empty(), N - 1, 0, true)
  }

  /** A single setup-mode click: flip the occupancy of (r, c). */
  function Toggle(g: Grid, r: int, c: int): (h: Grid)
    requires IsGrid(g) && InGrid(r, c)
    ensures IsGrid(h)
    ensures forall i, j :: InGrid(i, j) ==> (h[i][j] != g[i][j] <==> i == r && j == c)
  {
    Set(g, r, c, !g[r][c])
  }

  /** (i, j) lies in the inclusive rectangle spanned by the corners (r1, c1) and (r2, c2). */
  predicate InRect(i: int, j: int, r1: int, c1: int, r2: int, c2: int) {
    Min(r1, r2) <= i <= Max(r1, r2) && Min(c1, c2) <= j <= Max(c1, c2)
  }

  /**
   * The shift-click rectangle toggle: every cell of the inclusive rectangle
   * spanned by the two corners is flipped, every other cell is kept.
   */
  function ToggleRect(g: Grid, r1: int, c1: int, r2: int, c2: int): (h: Grid)
    requires IsGrid(g)
    ensures IsGrid(h)
    ensures forall i, j :: InGrid(i, j) ==> (h[i][j] != g[i][j] <==> InRect(i, j, r1, c1, r2, c2))
  {
    seq(N, i requires 0 <= i < N =>
      seq(N, j requires 0 <= j < N =>
        if InRect(i, j, r1, c1, r2, c2) then !g[i][j] else g[i][j]))
  }

  /** The rectangle toggle does not depend on which two opposite corners name the rectangle. */
  lemma {:induction false} ToggleRectCornerOrder(g: Grid, r1: int, c1: int, r2: int, c2: int)
    requires IsGrid(g)
    ensures ToggleRect(g, r1, c1, r2, c2) == ToggleRect(g, r2, c2, r1, c1)
    ensures ToggleRect(g, r1, c1, r2, c2) == ToggleRect(g, r1, c2, r2, c1)
  {
    GridExt(ToggleRect(g, r1, c1, r2, c2), ToggleRect(g, r2, c2, r1, c1));
    GridExt(ToggleRect(g, r1, c1, r2, c2), ToggleRect(g, r1, c2, r2, c1));
  }

  /** Toggling the same rectangle twice restores the board. */
  lemma {:induction false} ToggleRectTwice(g: Grid, r1: int, c1: int, r2: int, c2: int)
    requires IsGrid(g)
    ensures ToggleRect(ToggleRect(g, r1, c1, r2, c2), r1, c1, r2, c2) == g
  {
    GridExt(ToggleRect(ToggleRect(g, r1, c1, r2, c2), r1, c1, r2, c2), g);
  }

  /** A rectangle whose two corners are the same cell is a single toggle. */
  lemma {:induction false} ToggleRectSingleCell(g: Grid, r: int, c: int)
    requires IsGrid(g) && InGrid(r, c)
    ensures ToggleRect(g, r, c, r, c) == Toggle(g, r, c)
  {
    GridExt(ToggleRect(g, r, c, r, c), Toggle(g, r, c));
  }

  // ---------------------------------------------------------------- counting

  function Bit(b: bool): nat { if b then 1 else 0 }

  /** Number of markers among the first n cells of a row. */
  function RowCount(row: seq<bool>, n: nat): (k: nat)
    requires n <= |row|
    ensures k <= n
  {
    if n == 0 then 0 else RowCount(row, n - 1) + Bit(row[n - 1])
  }

  /** Number of markers in the first n rows of a grid. */
  function RowsCount(g: Grid, n: nat): (k: nat)
    requires IsGrid(g) && n <= N
    ensures k <= n * N
  {
    if n == 0 then 0 else RowsCount(g, n - 1) + RowCount(g[n - 1], N)
  }

  /** Number of markers on the board. */
  function Count(g: Grid): (k: nat)
    requires IsGrid(g)
    ensures k <= N * N
  {
    RowsCount(g, N)
  }

  lemma {:induction false} RowCountSet(row: seq<bool>, n: nat, c: int, v: bool)
    requires n <= |row| && 0 <= c < |row|
    ensures RowCount(row[c := v], n) == RowCount(row, n) + (if c < n then Bit(v) - Bit(row[c]) else 0)
  {
    if n > 0 {
      RowCountSet(row, n - 1, c, v);
    }
  }

  lemma {:induction false} RowsCountSet(g: Grid, n: nat, r: int, c: int, v: bool)
    requires IsGrid(g) && n <= N && InGrid(r, c)
    ensures RowsCount(Set(g, r, c, v), n) == RowsCount(g, n) + (if r < n then Bit(v) - Bit(g[r][c]) else 0)
  {
    if n > 0 {
      RowsCountSet(g, n - 1, r, c, v);
      if n - 1 == r {
        RowCountSet(g[r], N, c, v);
      } else {
        assert Set(g, r, c, v)[n - 1] == g[n - 1];
      }
    }
  }

  /** Writing one cell changes the marker count by the difference of the new and the old cell. */
  lemma CountSet(g: Grid, r: int, c: int, v: bool)
    requires IsGrid(g) && InGrid(r, c)
    ensures Count(Set(g, r, c, v)) == Count(g) + Bit(v) - Bit(g[r][c])
  {
    RowsCountSet(g, N, r, c, v);
  }

  lemma {:induction false} RowCountNone(row: seq<bool>, n: nat)
    requires n <= |row|
    requires forall c :: 0 <= c < n ==> !row[c]
    ensures RowCount(row, n) == 0
  {
    if n > 0 {
      RowCountNone(row, n - 1);
    }
  }

  lemma {:induction false} RowsCountEmpty(n: nat)
    requires n <= N
    ensures RowsCount(Empty(), n) == 0
  {
    if n > 0 {
      RowsCountEmpty(n - 1);
      RowCountNone(Empty()[n - 1], N);
    }
  }

  /** The empty board holds no marker; the start board holds exactly one. */
  lemma CountEmptyAndStart()
    ensures Count(Empty()) == 0
    ensures Count(Start()) == 1
  {
    RowsCountEmpty(N);
    CountSet(Empty(), N - 1, 0, true);
  }
}
