/**
 * Level, score and the highlighted diagonal of bin/main.js (`updateLevel`,
 * `calculateScore`, `highlightDiagonal`) as functions on board values.
 */
module Scoring {
  import opened Board
  import opened Moves

  /** The largest level any cell can have: the top-right corner's distance. */
  const MaxLevel: int := 2 * (N - 1)

  /**
   * Distance of (r, c) from the bottom-left corner along the two move
   * directions (up and right); the source writes N - 1 as the literal 15.
   */
  function Dist(r: int, c: int): int { (N - 1 - r) + c }

  // ------------------------------------------------------------------ level

  /** Minimum of two distances where None stands for infinity. */
  function MinOf(a: Option<int>, b: Option<int>): (m: Option<int>)
    ensures m.None? <==> a.None? && b.None?
    ensures m.Some? ==> (m == a || m == b)
    ensures m.Some? && a.Some? ==> m.value <= a.value
    ensures m.Some? && b.Some? ==> m.value <= b.value
  {
    match a
    case None => b
    case Some(x) =>
      match b
      case None => a
      case Some(y) => Some(Min(x, y))
  }

  /** The distance a cell contributes to the minimum: its own if occupied, infinity if not. */
  function CellDist(g: Grid, r: int, c: int): Option<int>
    requires IsGrid(g) && InGrid(r, c)
  {
    if g[r][c] then Some(Dist(r, c)) else None
  }

  /** Minimum distance over the occupied cells among the first n cells of row r. */
  function MinCols(g: Grid, r: int, n: nat): (m: Option<int>)
    requires IsGrid(g) && 0 <= r < N && n <= N
    ensures m.Some? ==> 0 <= m.value <= MaxLevel
  {
    if n == 0 then None else MinOf(MinCols(g, r, n - 1), CellDist(g, r, n - 1))
  }

  /** Minimum distance over the occupied cells of the first n rows. */
  function MinRows(g: Grid, n: nat): (m: Option<int>)
    requires IsGrid(g) && n <= N
    ensures m.Some? ==> 0 <= m.value <= MaxLevel
  {
    if n == 0 then None else MinOf(MinRows(g, n - 1), MinCols(g, n - 1, N))
  }

  /** The level: the least distance of any marker, or 0 on an empty board. */
  function Level(g: Grid): (l: int)
    requires IsGrid(g)
    ensures 0 <= l <= MaxLevel
  {
    match MinRows(g, N)
    case None => 0
    case Some(d) => d
  }

  ghost predicate HasMarker(g: Grid)
    requires IsGrid(g)
  {
    exists r, c :: InGrid(r, c) && g[r][c]
  }

  lemma {:induction false} MinColsIsMinimum(g: Grid, r: int, n: nat)
    requires IsGrid(g) && 0 <= r < N && n <= N
    ensures MinCols(g, r, n).None? <==> forall c :: 0 <= c < n ==> !g[r][c]
    ensures MinCols(g, r, n).Some? ==>
      exists c :: 0 <= c < n && g[r][c] && Dist(r, c) == MinCols(g, r, n).value
    ensures MinCols(g, r, n).Some? ==>
      forall c :: 0 <= c < n && g[r][c] ==> MinCols(g, r, n).value <= Dist(r, c)
  {
    if n > 0 {
      MinColsIsMinimum(g, r, n - 1);
    }
  }

  lemma {:induction false} MinRowsIsMinimum(g: Grid, n: nat)
    requires IsGrid(g) && n <= N
    ensures MinRows(g, n).None? <==> forall r, c :: 0 <= r < n && 0 <= c < N ==> !g[r][c]
    ensures MinRows(g, n).Some? ==>
      exists r, c :: 0 <= r < n && 0 <= c < N && g[r][c] && Dist(r, c) == MinRows(g, n).value
    ensures MinRows(g, n).Some? ==>
      forall r, c :: 0 <= r < n && 0 <= c < N && g[r][c] ==> MinRows(g, n).value <= Dist(r, c)
  {
    if n > 0 {
      MinRowsIsMinimum(g, n - 1);
      MinColsIsMinimum(g, n - 1, N);
      var m := MinRows(g, n);
      if m.Some? {
        if m == MinCols(g, n - 1, N) {
          var c :| 0 <= c < N && g[n - 1][c] && Dist(n - 1, c) == m.value;
          assert 0 <= n - 1 < n && g[n - 1][c];
        }
      }
    }
  }

  /**
   * The level is the least distance of an occupied cell: some marker lies at
   * exactly that distance and none lies closer; with no marker it is 0.
   */
  lemma LevelIsMinimum(g: Grid)
    requires IsGrid(g)
    ensures !HasMarker(g) ==> Level(g) == 0
    ensures HasMarker(g) ==> exists r, c :: InGrid(r, c) && g[r][c] && Dist(r, c) == Level(g)
    ensures forall r, c :: InGrid(r, c) && g[r][c] ==> Level(g) <= Dist(r, c)
  {
    MinRowsIsMinimum(g, N);
  }

  /** The start board is at level 0. */
  lemma StartLevel()
    ensures Level(Start()) == 0
  {
    LevelIsMinimum(Start());
    assert Start()[N - 1][0];
  }

  // --------------------------------------------------------------- diagonal

  /** The column at which the diagonal of `level` crosses row r (possibly off the grid). */
  function DiagCol(level: int, r: int): int { level - (N - 1 - r) }

  predicate OnDiagonal(level: int, r: int) { 0 <= DiagCol(level, r) < N }

  /** Number of in-grid cells of the diagonal of `level` among the first n rows. */
  function DiagonalSize(level: int, n: nat): (k: nat)
    requires n <= N
    ensures k <= n
  {
    if n == 0 then 0 else DiagonalSize(level, n - 1) + Bit(OnDiagonal(level, n - 1))
  }

  /** Number of markers on the diagonal of `level` among the first n rows. */
  function DiagonalMarkers(g: Grid, level: int, n: nat): (k: nat)
    requires IsGrid(g) && n <= N
    ensures k <= DiagonalSize(level, n)
  {
    if n == 0 then 0
    else DiagonalMarkers(g, level, n - 1) + Bit(OnDiagonal(level, n - 1) && g[n - 1][DiagCol(level, n - 1)])
  }

  lemma {:induction false} DiagonalSizeWitness(level: int, n: nat, r: int)
    requires n <= N && 0 <= r < n && OnDiagonal(level, r)
    ensures DiagonalSize(level, n) >= 1
  {
    if r < n - 1 {
      DiagonalSizeWitness(level, n - 1, r);
    }
  }

  lemma {:induction false} DiagonalSizeNone(level: int, n: nat)
    requires n <= N && forall r :: 0 <= r < n ==> !OnDiagonal(level, r)
    ensures DiagonalSize(level, n) == 0
  {
    if n > 0 {
      DiagonalSizeNone(level, n - 1);
    }
  }

  /**
   * The diagonal of `level` has an in-grid cell exactly when 0 <= level <= 30,
   * so the divisor of the score is never 0 for a level the scan can return.
   */
  lemma DiagonalNonEmpty(level: int)
    ensures DiagonalSize(level, N) >= 1 <==> 0 <= level <= MaxLevel
  {
    if 0 <= level <= MaxLevel {
      var r := if level <= N - 1 then N - 1 - level else 0;
      DiagonalSizeWitness(level, N, r);
    } else {
      DiagonalSizeNone(level, N);
    }
  }

  lemma {:induction false} DiagonalMarkersWitness(g: Grid, level: int, n: nat, r: int)
    requires IsGrid(g) && n <= N && 0 <= r < n && OnDiagonal(level, r) && g[r][DiagCol(level, r)]
    ensures DiagonalMarkers(g, level, n) >= 1
  {
    if r < n - 1 {
      DiagonalMarkersWitness(g, level, n - 1, r);
    }
  }

  // ------------------------------------------------------------------ score

  /**
   * The score at `level`: 0 at level 0, otherwise the level plus the fraction
   * of the level's diagonal that is empty.
   */
  function Score(g: Grid, level: int): (s: real)
    requires IsGrid(g) && 0 <= level <= MaxLevel
    ensures level == 0 ==> s == 0.0
    ensures level > 0 ==> level as real <= s <= level as real + 1.0
    ensures level > 0 ==> (s < level as real + 1.0 <==> DiagonalMarkers(g, level, N) >= 1)
  {
    if level == 0 then 0.0
    else
      DiagonalNonEmpty(level);
      var total := DiagonalSize(level, N);
      var markers := DiagonalMarkers(g, level, N);
      FractionBounds(total - markers, total);
      level as real + (total - markers) as real / total as real
  }

  /**
   * At the board's own level the score is 0 for level 0 and otherwise lies in
   * [level, level + 1): at least one marker sits on that diagonal, so the
   * empty fraction is below 1.  Its integer part is the level.
   */
  lemma ScoreBounds(g: Grid)
    requires IsGrid(g)
    ensures Level(g) == 0 ==> Score(g, Level(g)) == 0.0
    ensures Level(g) > 0 ==> Level(g) as real <= Score(g, Level(g)) < Level(g) as real + 1.0
    ensures Score(g, Level(g)).Floor == Level(g)
  {
    var l := Level(g);
    if l > 0 {
      LevelIsMinimum(g);
      var r, c :| InGrid(r, c) && g[r][c] && Dist(r, c) == l;
      assert DiagCol(l, r) == c;
      DiagonalMarkersWitness(g, l, N, r);
      DiagonalNonEmpty(l);
      var total := DiagonalSize(l, N);
      var markers := DiagonalMarkers(g, l, N);
      assert 1 <= markers <= total;
      FractionBounds(total - markers, total);
    }
  }

  /** The empty fraction e / t of a diagonal with e of its t cells empty lies in [0, 1], and below 1 exactly when e < t. */
  lemma FractionBounds(e: int, t: int)
    requires 0 <= e <= t && 0 < t
    ensures 0.0 <= e as real / t as real <= 1.0
    ensures e as real / t as real < 1.0 <==> e < t
  {
  }

  // -------------------------------------------------------------- highlight

  /** The in-grid cells of the diagonal of `level` whose row is below n, one per row. */
  function DiagonalPrefix(level: int, n: int): set<(int, int)>
  {
    set r | 0 <= r < n && OnDiagonal(level, r) :: (r, DiagCol(level, r))
  }

  /**
   * The cells `highlightDiagonal` marks: the corner alone at level 0, the
   * in-grid cells of the diagonal otherwise.
   */
  function DiagonalCells(level: int): (cells: set<(int, int)>)
    ensures level == 0 ==> cells == {(N - 1, 0)}
    ensures forall p :: p in cells ==> InGrid(p.0, p.1) && Dist(p.0, p.1) == level
  {
    if level == 0 then {(N - 1, 0)} else DiagonalPrefix(level, N)
  }

  /** The highlighted cells are exactly the in-grid cells at distance `level` (the corner at level 0). */
  lemma DiagonalCellsExact(level: int)
    ensures level == 0 ==> DiagonalCells(level) == {(N - 1, 0)}
    ensures level != 0 ==> forall r, c ::
      (r, c) in DiagonalCells(level) <==> InGrid(r, c) && Dist(r, c) == level
  {
    if level != 0 {
      forall r, c
        ensures (r, c) in DiagonalCells(level) <==> InGrid(r, c) && Dist(r, c) == level
      {
        if InGrid(r, c) && Dist(r, c) == level {
          assert DiagCol(level, r) == c;
        }
      }
    }
  }

  /** One more row adds its diagonal cell, if that cell is in the grid. */
  lemma DiagonalPrefixStep(level: int, n: int)
    requires 0 <= n
    ensures DiagonalPrefix(level, n + 1) ==
      DiagonalPrefix(level, n) + (if OnDiagonal(level, n) then {(n, DiagCol(level, n))} else {})
    ensures (n, DiagCol(level, n)) !in DiagonalPrefix(level, n)
  {
  }

  lemma {:induction false} DiagonalPrefixSize(level: int, n: nat)
    requires n <= N
    ensures |DiagonalPrefix(level, n)| == DiagonalSize(level, n)
  {
    if n > 0 {
      DiagonalPrefixSize(level, n - 1);
      DiagonalPrefixStep(level, n - 1);
    }
  }

  /** The occupied in-grid cells of the diagonal of `level` whose row is below n. */
  function OccupiedPrefix(g: Grid, level: int, n: int): set<(int, int)>
    requires IsGrid(g) && n <= N
  {
    set r | 0 <= r < n && OnDiagonal(level, r) && g[r][DiagCol(level, r)] :: (r, DiagCol(level, r))
  }

  lemma {:induction false} OccupiedPrefixSize(g: Grid, level: int, n: nat)
    requires IsGrid(g) && n <= N
    ensures |OccupiedPrefix(g, level, n)| == DiagonalMarkers(g, level, n)
  {
    if n > 0 {
      OccupiedPrefixSize(g, level, n - 1);
      var prev := OccupiedPrefix(g, level, n - 1);
      var p := (n - 1, DiagCol(level, n - 1));
      assert p !in prev;
      if OnDiagonal(level, n - 1) && g[n - 1][DiagCol(level, n - 1)] {
        assert OccupiedPrefix(g, level, n) == prev + {p};
      } else {
        assert OccupiedPrefix(g, level, n) == prev;
      }
    }
  }

  /**
   * Away from level 0 the highlighted cells are the cells the score counts:
   * as many as the diagonal's in-grid cells, and the occupied ones among them
   * as many as the diagonal's markers.
   */
  lemma DiagonalCellsCounted(g: Grid, level: int)
    requires IsGrid(g) && level != 0
    ensures |DiagonalCells(level)| == DiagonalSize(level, N)
    ensures DiagonalMarkers(g, level, N) ==
      |set p | p in DiagonalCells(level) && InGrid(p.0, p.1) && g[p.0][p.1]|
  {
    DiagonalPrefixSize(level, N);
    OccupiedPrefixSize(g, level, N);
    var occupied := set p | p in DiagonalCells(level) && InGrid(p.0, p.1) && g[p.0][p.1];
    assert occupied == OccupiedPrefix(g, level, N);
  }

  /** At level 0 the general diagonal formula already yields only the corner cell. */
  lemma CornerIsGeneralDiagonal()
    ensures DiagonalPrefix(0, N) == DiagonalCells(0)
  {
    forall p | p in DiagonalPrefix(0, N)
      ensures p == (N - 1, 0)
    {
    }
    assert OnDiagonal(0, N - 1);
  }

  /** The board {(14, 0), (15, 1)} is at level 1 and both cells of diagonal 1 are full, so its score is 1. */
  lemma TwoMarkerScore(g: Grid)
    requires IsGrid(g)
    requires forall i, j :: InGrid(i, j) ==> (g[i][j] <==> (i == N - 2 && j == 0) || (i == N - 1 && j == 1))
    ensures Level(g) == 1
    ensures Score(g, 1) == 1.0
  {
    LevelIsMinimum(g);
    assert g[N - 2][0];
    assert DiagonalSize(1, N - 2) == 0 by { DiagonalSizeNone(1, N - 2); }
    assert DiagonalMarkers(g, 1, N - 2) == 0;
    assert g[N - 1][1];
    assert DiagonalSize(1, N) == 2 && DiagonalMarkers(g, 1, N) == 2;
  }

  /**
   * The opening: splitting the start marker gives level 1 with both cells of
   * diagonal 1 full, so score 1; joining back gives level 0 and score 0.
   */
  lemma OpeningScore()
    ensures Level(Split(Start(), N - 1, 0)) == 1
    ensures Score(Split(Start(), N - 1, 0), 1) == 1.0
    ensures Level(Join(Split(Start(), N - 1, 0), N - 1, 0)) == 0
    ensures Score(Join(Split(Start(), N - 1, 0), N - 1, 0), 0) == 0.0
  {
    OpeningMove();
    TwoMarkerScore(Split(Start(), N - 1, 0));
    StartLevel();
  }
}
