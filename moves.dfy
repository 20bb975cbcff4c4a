/**
 * The two legal moves of the puzzle as functions on board values:
 * split (`handleLeftClick`) and join (`handleRightClick`) in bin/main.js.
 */
module Moves {
  import opened Board

  /**
   * A split at (r, c) is legal when (r, c) holds a marker and both the cell
   * above it and the cell to its right exist and are empty.
   */
  predicate CanSplit(g: Grid, r: int, c: int)
    requires IsGrid(g) && InGrid(r, c)
  {
    g[r][c] && (r > 0 && !g[r - 1][c]) && (c < N - 1 && !g[r][c + 1])
  }

  /**
   * A join at (r, c) is legal when (r, c) is empty and both the cell above it
   * and the cell to its right exist and hold a marker.
   */
  predicate CanJoin(g: Grid, r: int, c: int)
    requires IsGrid(g) && InGrid(r, c)
  {
    !g[r][c] && (r > 0 && g[r - 1][c]) && (c < N - 1 && g[r][c + 1])
  }

  /**
   * Split at (r, c): the marker moves to both the cell above and the cell to
   * the right; an illegal split leaves the board untouched.
   */
  function Split(g: Grid, r: int, c: int): (h: Grid)
    requires IsGrid(g) && InGrid(r, c)
    ensures IsGrid(h)
    ensures CanSplit(g, r, c) ==> forall i, j :: InGrid(i, j) ==>
      h[i][j] == if i == r && j == c then false
                 else if (i == r - 1 && j == c) || (i == r && j == c + 1) then true
                 else g[i][j]
    ensures !CanSplit(g, r, c) ==> h == g
  {
    if CanSplit(g, r, c) then
      Set(Set(Set(g, r, c, false), r - 1, c, true), r, c + 1, true)
    else
      g
  }

  /**
   * Join at (r, c): the markers above and to the right merge into (r, c); an
   * illegal join leaves the board untouched.
   */
  function Join(g: Grid, r: int, c: int): (h: Grid)
    requires IsGrid(g) && InGrid(r, c)
    ensures IsGrid(h)
    ensures CanJoin(g, r, c) ==> forall i, j :: InGrid(i, j) ==>
      h[i][j] == if i == r && j == c then true
                 else if (i == r - 1 && j == c) || (i == r && j == c + 1) then false
                 else g[i][j]
    ensures !CanJoin(g, r, c) ==> h == g
  {
    if CanJoin(g, r, c) then
      Set(Set(Set(g, r - 1, c, false), r, c + 1, false), r, c, true)
    else
      g
  }

  /** A successful split adds exactly one marker. */
  lemma SplitCount(g: Grid, r: int, c: int)
    requires IsGrid(g) && InGrid(r, c) && CanSplit(g, r, c)
    ensures Count(Split(g, r, c)) == Count(g) + 1
  {
    var g1 := Set(g, r, c, false);
    var g2 := Set(g1, r - 1, c, true);
    CountSet(g, r, c, false);
    CountSet(g1, r - 1, c, true);
    CountSet(g2, r, c + 1, true);
  }

  /** A successful join removes exactly one marker. */
  lemma JoinCount(g: Grid, r: int, c: int)
    requires IsGrid(g) && InGrid(r, c) && CanJoin(g, r, c)
    ensures Count(Join(g, r, c)) == Count(g) - 1
  {
    var g1 := Set(g, r - 1, c, false);
    var g2 := Set(g1, r, c + 1, false);
    CountSet(g, r - 1, c, false);
    CountSet(g1, r, c + 1, false);
    CountSet(g2, r, c, true);
  }

  /** A split makes the join at the same cell legal, and that join restores the board exactly. */
  lemma SplitThenJoin(g: Grid, r: int, c: int)
    requires IsGrid(g) && InGrid(r, c) && CanSplit(g, r, c)
    ensures CanJoin(Split(g, r, c), r, c)
    ensures Join(Split(g, r, c), r, c) == g
  {
    GridExt(Join(Split(g, r, c), r, c), g);
  }

  /** A join makes the split at the same cell legal, and that split restores the board exactly. */
  lemma JoinThenSplit(g: Grid, r: int, c: int)
    requires IsGrid(g) && InGrid(r, c) && CanJoin(g, r, c)
    ensures CanSplit(Join(g, r, c), r, c)
    ensures Split(Join(g, r, c), r, c) == g
  {
    GridExt(Split(Join(g, r, c), r, c), g);
  }

  /** The move a play-mode click at (r, c) is: split an occupied cell, join an empty one. */
  predicate PlayLegal(g: Grid, r: int, c: int)
    requires IsGrid(g) && InGrid(r, c)
  {
    if g[r][c] then CanSplit(g, r, c) else CanJoin(g, r, c)
  }

  /**
   * A play-mode click at (r, c): a legal move flips the clicked cell (the
   * split empties it, the join fills it); an illegal one leaves the board as it was.
   */
  function Play(g: Grid, r: int, c: int): (h: Grid)
    requires IsGrid(g) && InGrid(r, c)
    ensures IsGrid(h)
    ensures PlayLegal(g, r, c) ==> h[r][c] != g[r][c]
    ensures !PlayLegal(g, r, c) ==> h == g
  {
    if g[r][c] then Split(g, r, c) else Join(g, r, c)
  }

  /**
   * A play-mode click changes the board exactly when its move is legal, and
   * then changes the marker count by one.
   */
  lemma PlayEffect(g: Grid, r: int, c: int)
    requires IsGrid(g) && InGrid(r, c)
    ensures Play(g, r, c) != g <==> PlayLegal(g, r, c)
    ensures PlayLegal(g, r, c) ==> Count(Play(g, r, c)) == Count(g) + (if g[r][c] then 1 else -1)
  {
    if PlayLegal(g, r, c) {
      assert Play(g, r, c)[r][c] != g[r][c];
      if g[r][c] { SplitCount(g, r, c); } else { JoinCount(g, r, c); }
    }
  }

  /** The opening move: a split of the start marker gives markers at (14, 0) and (15, 1), and a join at (15, 0) undoes it. */
  lemma OpeningMove()
    ensures CanSplit(Start(), N - 1, 0)
    ensures forall i, j :: InGrid(i, j) ==>
      (Split(Start(), N - 1, 0)[i][j] <==> (i == N - 2 && j == 0) || (i == N - 1 && j == 1))
    ensures Join(Split(Start(), N - 1, 0), N - 1, 0) == Start()
  {
    SplitThenJoin(Start(), N - 1, 0);
  }
}
