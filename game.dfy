/**
 * The session state of bin/main.js: the `markers` array, the module-level
 * variables `setupMode`, `highScore` and `lastClickedRow`/`lastClickedCol`,
 * and what the page shows (level, score, highlighted cells), with the event
 * handlers as methods that update them in place.
 */
module Game {
  import opened Board
  import opened Moves
  import opened Scoring

  /** `updateLevel`'s high-score rule: a score above the best so far replaces it. */
  function Raise(best: real, score: real): (r: real)
    ensures best <= r && score <= r
    ensures r == best || r == score
    ensures score <= best ==> r == best
  {
    if score > best then score else best
  }

  class Game {
    /** The occupancy grid; `markers[r, c]` is the cell at row r, column c. */
    const markers: array2<bool>
    var setupMode: bool
    /** The last cell clicked in setup mode (both `lastClicked*` variables), None for null. */
    var lastClicked: Option<(int, int)>
    var highScore: real
    /** What the level, score and highlight displays show. */
    var level: int
    var score: real
    var highlighted: set<(int, int)>

    /**
     * The grid is N×N, the last click names an in-grid cell, and in play mode
     * there is no last click.
     */
    ghost predicate Valid()
      reads this`setupMode, this`lastClicked
    {
      Shaped() &&
      (lastClicked.Some? ==> InGrid(lastClicked.value.0, lastClicked.value.1)) &&
      (!setupMode ==> lastClicked == None)
    }

    /** The array has the grid's dimensions. */
    ghost predicate Shaped() {
      markers.Length0 == N && markers.Length1 == N
    }

    /** The board as a value. */
    ghost function Cells(): (g: Grid)
      requires Shaped()
      reads markers
      ensures IsGrid(g)
      ensures forall r, c :: InGrid(r, c) ==> g[r][c] == markers[r, c]
    {
      seq(N, r requires 0 <= r < N reads markers =>
        seq(N, c requires 0 <= c < N reads markers => markers[r, c]))
    }

    /** The displays agree with the board. */
    ghost predicate Displayed()
      requires Shaped()
      reads this`level, this`score, this`highlighted, markers
    {
      level == Level(Cells()) && score == Score(Cells(), level) && highlighted == DiagonalCells(level)
    }

    /** Page load: an all-empty grid, play mode, then `initializeMarkers`. */
    constructor (storedHighScore: real)
      ensures Valid() && Displayed()
      ensures fresh(markers)
      ensures Cells() == Start() && level == 0 && score == 0.0 && highlighted == {(N - 1, 0)}
      ensures !setupMode && lastClicked == None
      ensures highScore == Raise(storedHighScore, 0.0)
    {
      markers := new bool[N, N]((_, _) => false);
      setupMode := false;
      lastClicked := None;
      highScore := storedHighScore;
      level, score, highlighted := 0, 0.0, {};
      new;
      InitializeMarkers();
    }

    /** `addMarker`: occupy one cell. */
    method AddMarker(row: int, col: int)
      requires Shaped() && InGrid(row, col)
      modifies markers
      ensures markers[row, col]
      ensures forall i, j :: InGrid(i, j) && (i != row || j != col) ==> markers[i, j] == old(markers[i, j])
      ensures Cells() == Set(old(Cells()), row, col, true)
    {
      ghost var before := Cells();
      if !markers[row, col] {
        markers[row, col] := true;
      }
      GridExt(Cells(), Set(before, row, col, true));
    }

    /** `removeMarker`: empty one cell. */
    method RemoveMarker(row: int, col: int)
      requires Shaped() && InGrid(row, col)
      modifies markers
      ensures !markers[row, col]
      ensures forall i, j :: InGrid(i, j) && (i != row || j != col) ==> markers[i, j] == old(markers[i, j])
      ensures Cells() == Set(old(Cells()), row, col, false)
    {
      ghost var before := Cells();
      if markers[row, col] {
        markers[row, col] := false;
      }
      GridExt(Cells(), Set(before, row, col, false));
    }

    /** `clearAllMarkers`: empty every cell. */
    method ClearAllMarkers()
      requires Shaped()
      modifies markers
      ensures Cells() == Empty()
    {
      var row := 0;
      while row < N
        invariant 0 <= row <= N
        invariant forall i, j :: InGrid(i, j) && i < row ==> !markers[i, j]
      {
        var col := 0;
        while col < N
          invariant 0 <= col <= N
          invariant forall i, j :: InGrid(i, j) && (i < row || (i == row && j < col)) ==> !markers[i, j]
        {
          if markers[row, col] {
            RemoveMarker(row, col);
          }
          col := col + 1;
        }
        row := row + 1;
      }
      GridExt(Cells(), Empty());
    }

    /** `initializeMarkers`: back to the single corner marker, then `updateLevel`. */
    method InitializeMarkers()
      requires Valid()
      modifies this, markers
      ensures Valid() && Displayed()
      ensures Cells() == Start() && level == 0 && score == 0.0 && highlighted == {(N - 1, 0)}
      ensures highScore == Raise(old(highScore), 0.0)
      ensures setupMode == old(setupMode) && lastClicked == old(lastClicked)
    {
      ClearAllMarkers();
      AddMarker(N - 1, 0);
      StartLevel();
      UpdateLevel();
    }

    /**
     * The scan of `updateLevel`: the least distance of a marker from the
     * bottom-left corner, or 0 when there is none.
     */
    method ScanLevel() returns (l: int)
      requires Shaped()
      ensures l == Level(Cells())
    {
      ghost var g := Cells();
      var minDistance: Option<int> := None;  // None stands for Infinity
      var hasMarkers := false;
      var row := 0;
      while row < N
        invariant 0 <= row <= N
        invariant minDistance == MinRows(g, row)
        invariant hasMarkers == minDistance.Some?
      {
        var col := 0;
        while col < N
          invariant 0 <= col <= N
          invariant minDistance == MinOf(MinRows(g, row), MinCols(g, row, col))
          invariant hasMarkers == minDistance.Some?
        {
          if markers[row, col] {
            hasMarkers := true;
            var manhattanDistance := (15 - row) + col;
            minDistance := MinOf(minDistance, Some(manhattanDistance));
          }
          col := col + 1;
        }
        row := row + 1;
      }
      l := if hasMarkers then minDistance.value else 0;
    }

    /** `calculateScore`: the level plus the empty fraction of the level's diagonal. */
    method CalculateScore(lvl: int) returns (s: real)
      requires Shaped() && 0 <= lvl <= MaxLevel
      ensures s == Score(Cells(), lvl)
    {
      if lvl == 0 {
        return 0.0;
      }
      ghost var g := Cells();
      var totalSquaresInDiagonal := 0;
      var markersInDiagonal := 0;
      var row := 0;
      while row < N
        invariant 0 <= row <= N
        invariant totalSquaresInDiagonal == DiagonalSize(lvl, row)
        invariant markersInDiagonal == DiagonalMarkers(g, lvl, row)
      {
        var col := lvl - (15 - row);
        if 0 <= col && col < N {
          totalSquaresInDiagonal := totalSquaresInDiagonal + 1;
          if markers[row, col] {
            markersInDiagonal := markersInDiagonal + 1;
          }
        }
        row := row + 1;
      }
      DiagonalNonEmpty(lvl);
      var emptyFraction := (totalSquaresInDiagonal - markersInDiagonal) as real / totalSquaresInDiagonal as real;
      s := lvl as real + emptyFraction;
    }

    /** `highlightDiagonal`: the corner at level 0, else the diagonal's in-grid cells. */
    method HighlightDiagonal(lvl: int)
      modifies this`highlighted
      ensures highlighted == DiagonalCells(lvl)
    {
      highlighted := {};
      if lvl == 0 {
        highlighted := {(15, 0)};
        return;
      }
      var row := 0;
      while row < N
        invariant 0 <= row <= N
        invariant highlighted == DiagonalPrefix(lvl, row)
      {
        DiagonalPrefixStep(lvl, row);
        var col := lvl - (15 - row);
        if 0 <= col && col < N {
          highlighted := highlighted + {(row, col)};
        }
        row := row + 1;
      }
    }

    /**
     * `updateLevel`: recompute level, score and highlight from the board, and
     * raise the high score when the new score beats it.
     */
    method UpdateLevel()
      requires Valid()
      modifies this
      ensures Valid() && Displayed()
      ensures highScore == Raise(old(highScore), score)
      ensures setupMode == old(setupMode) && lastClicked == old(lastClicked)
    {
      var l := ScanLevel();
      var s := CalculateScore(l);
      if s > highScore {
        highScore := s;
      }
      level, score := l, s;
      HighlightDiagonal(l);
    }

    /** `handleLeftClick`: split at (row, col) when legal, then `updateLevel`. */
    method HandleLeftClick(row: int, col: int)
      requires Valid() && Displayed() && InGrid(row, col)
      modifies this, markers
      ensures Valid() && Displayed()
      ensures Cells() == Split(old(Cells()), row, col)
      ensures highScore == if CanSplit(old(Cells()), row, col) then Raise(old(highScore), score) else old(highScore)
      ensures setupMode == old(setupMode) && lastClicked == old(lastClicked)
    {
      if markers[row, col] {
        var canMoveUp := row > 0 && !markers[row - 1, col];
        var canMoveRight := col < N - 1 && !markers[row, col + 1];
        if canMoveUp && canMoveRight {
          RemoveMarker(row, col);
          AddMarker(row - 1, col);
          AddMarker(row, col + 1);
          UpdateLevel();
        }
      }
    }

    /** `handleRightClick`: join at (row, col) when legal, then `updateLevel`. */
    method HandleRightClick(row: int, col: int)
      requires Valid() && Displayed() && InGrid(row, col)
      modifies this, markers
      ensures Valid() && Displayed()
      ensures Cells() == Join(old(Cells()), row, col)
      ensures highScore == if CanJoin(old(Cells()), row, col) then Raise(old(highScore), score) else old(highScore)
      ensures setupMode == old(setupMode) && lastClicked == old(lastClicked)
    {
      if !markers[row, col] {
        var hasMarkerAbove := row > 0 && markers[row - 1, col];
        var hasMarkerRight := col < N - 1 && markers[row, col + 1];
        if hasMarkerAbove && hasMarkerRight {
          RemoveMarker(row - 1, col);
          RemoveMarker(row, col + 1);
          AddMarker(row, col);
          UpdateLevel();
        }
      }
    }

    /** The shift-click loop: flip every cell of the inclusive rectangle spanned by the two corners. */
    method ToggleRectangle(r1: int, c1: int, r2: int, c2: int)
      requires Shaped() && InGrid(r1, c1) && InGrid(r2, c2)
      modifies markers
      ensures Cells() == ToggleRect(old(Cells()), r1, c1, r2, c2)
    {
      ghost var g0 := Cells();
      var startRow := Min(r1, r2);
      var endRow := Max(r1, r2);
      var startCol := Min(c1, c2);
      var endCol := Max(c1, c2);
      var r := startRow;
      while r <= endRow
        invariant startRow <= r <= endRow + 1
        invariant forall i, j :: InGrid(i, j) ==>
          markers[i, j] == if startRow <= i < r && startCol <= j <= endCol then !g0[i][j] else g0[i][j]
      {
        var c := startCol;
        while c <= endCol
          invariant startCol <= c <= endCol + 1
          invariant forall i, j :: InGrid(i, j) ==>
            markers[i, j] == if (startRow <= i < r && startCol <= j <= endCol) || (i == r && startCol <= j < c)
                             then !g0[i][j] else g0[i][j]
        {
          if markers[r, c] {
            RemoveMarker(r, c);
          } else {
            AddMarker(r, c);
          }
          c := c + 1;
        }
        r := r + 1;
      }
      GridExt(Cells(), ToggleRect(g0, r1, c1, r2, c2));
    }

    /**
     * A left click (or tap) on cell (row, col).  In setup mode: a shift-click
     * after an earlier click toggles the rectangle between the two cells, any
     * other click toggles the one cell; the click is then remembered.  In play
     * mode: split an occupied cell, join an empty one, and forget the last
     * click.
     */
    method Click(row: int, col: int, shiftKey: bool)
      requires Valid() && Displayed() && InGrid(row, col)
      modifies this, markers
      ensures Valid() && Displayed()
      ensures setupMode == old(setupMode)
      ensures old(setupMode) ==>
        Cells() == (if shiftKey && old(lastClicked).Some?
                    then ToggleRect(old(Cells()), old(lastClicked).value.0, old(lastClicked).value.1, row, col)
                    else Toggle(old(Cells()), row, col)) &&
        lastClicked == Some((row, col)) &&
        highScore == Raise(old(highScore), score)
      ensures !old(setupMode) ==>
        Cells() == Play(old(Cells()), row, col) &&
        lastClicked == None &&
        highScore == if PlayLegal(old(Cells()), row, col) then Raise(old(highScore), score) else old(highScore)
      ensures highScore >= old(highScore)
    {
      if setupMode {
        if shiftKey && lastClicked.Some? {
          var (lastRow, lastCol) := lastClicked.value;
          ToggleRectangle(lastRow, lastCol, row, col);
          UpdateLevel();
        } else {
          if markers[row, col] {
            RemoveMarker(row, col);
          } else {
            AddMarker(row, col);
          }
          UpdateLevel();
        }
        lastClicked := Some((row, col));
      } else {
        if markers[row, col] {
          HandleLeftClick(row, col);
        } else {
          HandleRightClick(row, col);
        }
        lastClicked := None;
      }
    }

    /** A right click on (row, col): a join in play mode, nothing in setup mode. */
    method ContextMenu(row: int, col: int)
      requires Valid() && Displayed() && InGrid(row, col)
      modifies this, markers
      ensures Valid() && Displayed()
      ensures setupMode == old(setupMode) && lastClicked == old(lastClicked)
      ensures Cells() == if old(setupMode) then old(Cells()) else Join(old(Cells()), row, col)
      ensures highScore == if !old(setupMode) && CanJoin(old(Cells()), row, col) then Raise(old(highScore), score) else old(highScore)
    {
      if !setupMode {
        HandleRightClick(row, col);
      }
    }

    /**
     * The Setup/Play button: switch mode.  Entering setup mode changes nothing
     * else; leaving it sets the high score to 0 and forgets the last click.
     */
    method SetupButton()
      requires Valid() && Displayed()
      modifies this
      ensures Valid() && Displayed()
      ensures setupMode == !old(setupMode)
      ensures Cells() == old(Cells())
      ensures level == old(level) && score == old(score) && highlighted == old(highlighted)
      ensures setupMode ==> highScore == old(highScore) && lastClicked == old(lastClicked)
      ensures !setupMode ==> highScore == 0.0 && lastClicked == None
    {
      setupMode := !setupMode;
      if !setupMode {
        highScore := 0.0;
        lastClicked := None;
      }
    }

    /**
     * The Reset button, with `confirmed` the answer of the confirmation
     * dialog: when confirmed, back to the start board and to play mode; the
     * high score is only raised by the recomputed score, never cleared.
     */
    method Reset(confirmed: bool)
      requires Valid() && Displayed()
      modifies this, markers
      ensures Valid() && Displayed()
      ensures !confirmed ==>
        Cells() == old(Cells()) && setupMode == old(setupMode) && lastClicked == old(lastClicked) &&
        highScore == old(highScore)
      ensures confirmed ==>
        Cells() == Start() && level == 0 && score == 0.0 && highlighted == {(N - 1, 0)} &&
        !setupMode && lastClicked == None && highScore == Raise(old(highScore), 0.0)
    {
      if confirmed {
        InitializeMarkers();
        if setupMode {
          setupMode := false;
          lastClicked := None;
        }
      }
    }
  }
}
