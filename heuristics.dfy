/**
 * The A* app's heuristics (a-star/script.js): Manhattan distance, misplaced
 * tiles, and their "combined" sum, picked by name. Each is a sum over the
 * cells of the grid in row-major order, the order the source's double loops
 * visit them; the methods are those loops and are proved equal to the sums.
 *
 * What the sums are worth: both are 0 exactly on the solved board, misplaced
 * never exceeds Manhattan, one move changes Manhattan by exactly one, so
 * Manhattan (and hence misplaced) never overestimates the moves still needed,
 * while the combined heuristic can.
 */
module Heuristics {
  import opened Puzzle

  /** The two cell measures the source sums. */
  datatype Measure = Manhattan | Misplaced

  /** JavaScript's `%`: the remainder takes the sign of the dividend. */
  function JsRem(a: int, n: int): (r: int)
    requires n > 0
    ensures a >= 0 ==> r == a % n
    ensures -n < r < n
  {
    if a >= 0 then a % n else -((-a) % n)
  }

  /**
   * `Math.floor((value - 1) / size)` and `(value - 1) % size`: the cell where
   * tile `v` belongs. Dafny's `/` by a positive divisor is floor division.
   */
  function TargetRow(n: nat, v: int): int
    requires n > 0
  {
    (v - 1) / n
  }

  function TargetCol(n: nat, v: int): int
    requires n > 0
  {
    JsRem(v - 1, n)
  }

  /** What cell (i, j) holding `v` adds to the sum; the blank adds nothing. */
  function CellCost(m: Measure, n: nat, v: int, i: int, j: int): nat
    requires n > 0
  {
    if v == 0 then 0
    else match m
      case Manhattan => Abs(i - TargetRow(n, v)) + Abs(j - TargetCol(n, v))
      case Misplaced => if v != i * n + j + 1 then 1 else 0
  }

  /** The sum over the first `j` cells of row `i`. */
  function RowCost(m: Measure, n: nat, row: seq<int>, i: int, j: nat): nat
    requires n > 0 && j <= |row|
  {
    if j == 0 then 0 else RowCost(m, n, row, i, j - 1) + CellCost(m, n, row[j - 1], i, j - 1)
  }

  /** The sum over the first `i` rows. */
  function GridCost(m: Measure, n: nat, g: Grid, i: nat): nat
    requires n > 0 && Shaped(n, g) && i <= n
  {
    if i == 0 then 0 else GridCost(m, n, g, i - 1) + RowCost(m, n, g[i - 1], i - 1, n)
  }

  /** `manhattanDistance(puzzle)` / `misplacedTiles(puzzle)` over the whole grid. */
  function Cost(m: Measure, n: nat, g: Grid): nat
    requires n > 0 && Shaped(n, g)
  {
    GridCost(m, n, g, n)
  }

  // ---------------------------------------------------------------------------
  // The loops of the source

  /** `manhattanDistance`: the double loop over the grid. */
  method ManhattanDistance(n: nat, g: Grid) returns (distance: int)
    requires n > 0 && Shaped(n, g)
    ensures distance == Cost(Manhattan, n, g)
  {
    distance := 0;
    for i := 0 to n
      invariant distance == GridCost(Manhattan, n, g, i)
    {
      for j := 0 to n
        invariant distance == GridCost(Manhattan, n, g, i) + RowCost(Manhattan, n, g[i], i, j)
      {
        var value := g[i][j];
        if value != 0 {
          var targetRow := (value - 1) / n;
          var targetCol := JsRem(value - 1, n);
          distance := distance + Abs(i - targetRow) + Abs(j - targetCol);
        }
      }
    }
  }

  /** `misplacedTiles`: counts the tiles that are not at `i * size + j + 1`. */
  method MisplacedTiles(n: nat, g: Grid) returns (misplaced: int)
    requires n > 0 && Shaped(n, g)
    ensures misplaced == Cost(Misplaced, n, g)
  {
    misplaced := 0;
    for i := 0 to n
      invariant misplaced == GridCost(Misplaced, n, g, i)
    {
      for j := 0 to n
        invariant misplaced == GridCost(Misplaced, n, g, i) + RowCost(Misplaced, n, g[i], i, j)
      {
        var value := g[i][j];
        if value != 0 {
          var expectedValue := i * n + j + 1;
          if value != expectedValue {
            misplaced := misplaced + 1;
          }
        }
      }
    }
  }

  /** `combinedHeuristic`: Manhattan plus twice the misplaced count. */
  function Combined(n: nat, g: Grid): nat
    requires n > 0 && Shaped(n, g)
  {
    Cost(Manhattan, n, g) + 2 * Cost(Misplaced, n, g)
  }

  method CombinedHeuristic(n: nat, g: Grid) returns (h: int)
    requires n > 0 && Shaped(n, g)
    ensures h == Combined(n, g)
    ensures h >= Cost(Manhattan, n, g) && h >= 2 * Cost(Misplaced, n, g)
  {
    var manhattan := ManhattanDistance(n, g);
    var misplaced := MisplacedTiles(n, g);
    h := manhattan + misplaced * 2;
  }

  /** `calculateHeuristic`: the dispatch on the selected name; unknown names fall back to Manhattan. */
  function Heuristic(name: string, n: nat, g: Grid): nat
    requires n > 0 && Shaped(n, g) && name != "euclidean"
  {
    if name == "misplaced" then Cost(Misplaced, n, g)
    else if name == "combined" then Combined(n, g)
    else Cost(Manhattan, n, g)
  }

  method CalculateHeuristic(name: string, n: nat, g: Grid) returns (h: int)
    requires n > 0 && Shaped(n, g) && name != "euclidean"
    ensures h == Heuristic(name, n, g)
  {
    if name == "manhattan" {
      h := ManhattanDistance(n, g);
    } else if name == "misplaced" {
      h := MisplacedTiles(n, g);
    } else if name == "combined" {
      h := CombinedHeuristic(n, g);
    } else {
      h := ManhattanDistance(n, g);
    }
  }

  // ---------------------------------------------------------------------------
  // Cell facts

  /** Tile `v` of a board of size n sits on cell number v - 1, counted row by row. */
  lemma TargetOfCell(n: nat, v: int, i: int, j: int)
    requires n > 0 && v >= 1 && 0 <= i && 0 <= j < n
    ensures (TargetRow(n, v) == i && TargetCol(n, v) == j) <==> v == i * n + j + 1
  {
    var a := v - 1;
    assert a == (a / n) * n + a % n;
    assert 0 <= a / n by {
      if a / n < 0 {
        MulMono(a / n, -1, n);
      }
    }
    CellNumberUnique(n, a / n, a % n, i, j);
  }

  /** A misplaced tile is at least one step from its cell. */
  lemma CellMisplacedLeManhattan(n: nat, v: int, i: int, j: int)
    requires n > 0 && 0 <= i && 0 <= j < n
    ensures CellCost(Misplaced, n, v, i, j) <= CellCost(Manhattan, n, v, i, j)
  {
    if v != 0 && v != i * n + j + 1 {
      if v >= 1 {
        TargetOfCell(n, v, i, j);
      } else {
        var a := v - 1;
        assert a == (a / n) * n + a % n;
        if a / n >= 0 {
          MulMono(0, a / n, n);
        }
      }
    }
  }

  /** For tiles in range, Manhattan and misplaced agree on whether a cell is in place. */
  lemma CellZeroAgree(n: nat, v: int, i: int, j: int)
    requires n > 0 && v >= 0 && 0 <= i && 0 <= j < n
    ensures CellCost(Manhattan, n, v, i, j) == 0 <==> CellCost(Misplaced, n, v, i, j) == 0
  {
    if v >= 1 {
      TargetOfCell(n, v, i, j);
    }
  }

  // ---------------------------------------------------------------------------
  // Sum facts

  lemma {:induction false} RowCostMono(n: nat, row: seq<int>, i: int, j: nat)
    requires n > 0 && 0 <= i && j <= |row| <= n
    ensures RowCost(Misplaced, n, row, i, j) <= RowCost(Manhattan, n, row, i, j)
  {
    if j > 0 {
      RowCostMono(n, row, i, j - 1);
      CellMisplacedLeManhattan(n, row[j - 1], i, j - 1);
    }
  }

  lemma {:induction false} GridCostMono(n: nat, g: Grid, i: nat)
    requires n > 0 && Shaped(n, g) && i <= n
    ensures GridCost(Misplaced, n, g, i) <= GridCost(Manhattan, n, g, i)
  {
    if i > 0 {
      GridCostMono(n, g, i - 1);
      RowCostMono(n, g[i - 1], i - 1, n);
    }
  }

  /** Misplaced tiles never exceed the Manhattan distance. */
  lemma MisplacedLeManhattan(n: nat, g: Grid)
    requires n > 0 && Shaped(n, g)
    ensures Cost(Misplaced, n, g) <= Cost(Manhattan, n, g)
  {
    GridCostMono(n, g, n);
  }

  lemma {:induction false} RowCostZero(m: Measure, n: nat, row: seq<int>, i: int, j: nat)
    requires n > 0 && j <= |row|
    ensures RowCost(m, n, row, i, j) == 0 <==> forall c :: 0 <= c < j ==> CellCost(m, n, row[c], i, c) == 0
  {
    if j > 0 {
      RowCostZero(m, n, row, i, j - 1);
    }
  }

  lemma {:induction false} GridCostZero(m: Measure, n: nat, g: Grid, i: nat)
    requires n > 0 && Shaped(n, g) && i <= n
    ensures GridCost(m, n, g, i) == 0 <==>
      forall r, c :: 0 <= r < i && 0 <= c < n ==> CellCost(m, n, g[r][c], r, c) == 0
  {
    if i > 0 {
      GridCostZero(m, n, g, i - 1);
      RowCostZero(m, n, g[i - 1], i - 1, n);
    }
  }

  /** Every cell holds its own number or the blank. */
  predicate InPlace(n: nat, g: Grid)
    requires Shaped(n, g)
  {
    forall r, c :: 0 <= r < n && 0 <= c < n ==> g[r][c] == 0 || g[r][c] == r * n + c + 1
  }

  /** On a board that is a permutation, "no tile out of place" is "solved". */
  lemma InPlaceIffSolved(n: nat, g: Grid, e: Pos)
    requires n > 0 && Coherent(n, g, e)
    ensures InPlace(n, g) <==> Solved(n, g)
  {
    if InPlace(n, g) {
      var last := n - 1;
      CellNumber(n, last, last);
      assert g[last][last] == 0;
      forall i, j | 0 <= i < n && 0 <= j < n
        ensures g[i][j] == Expected(n, i, j)
      {
        CellNumber(n, i, j);
      }
    }
  }

  /** Both measures vanish exactly on the solved board. */
  lemma CostZeroIffSolved(m: Measure, n: nat, g: Grid, e: Pos)
    requires n > 0 && Coherent(n, g, e)
    ensures Cost(m, n, g) == 0 <==> Solved(n, g)
  {
    GridCostZero(m, n, g, n);
    InPlaceIffSolved(n, g, e);
    forall r, c | 0 <= r < n && 0 <= c < n
      ensures CellCost(m, n, g[r][c], r, c) == 0 <==> (g[r][c] == 0 || g[r][c] == r * n + c + 1)
    {
      CellZeroAgree(n, g[r][c], r, c);
    }
  }

  /** The selected heuristic is 0 exactly on the solved board. */
  lemma HeuristicZeroIffSolved(name: string, n: nat, g: Grid, e: Pos)
    requires n > 0 && Coherent(n, g, e) && name != "euclidean"
    ensures Heuristic(name, n, g) == 0 <==> Solved(n, g)
  {
    CostZeroIffSolved(Manhattan, n, g, e);
    CostZeroIffSolved(Misplaced, n, g, e);
  }

  // ---------------------------------------------------------------------------
  // How a move changes the sums

  lemma {:induction false} RowCostSet(m: Measure, n: nat, row: seq<int>, i: int, j: nat, c: nat, v: int)
    requires n > 0 && j <= |row| && c < |row|
    ensures RowCost(m, n, row[c := v], i, j) ==
      RowCost(m, n, row, i, j) + (if c < j then CellCost(m, n, v, i, c) - CellCost(m, n, row[c], i, c) else 0)
  {
    if j > 0 {
      RowCostSet(m, n, row, i, j - 1, c, v);
    }
  }

  lemma {:induction false} GridCostSet(m: Measure, n: nat, g: Grid, i: nat, p: Pos, v: int)
    requires n > 0 && Shaped(n, g) && i <= n && InBounds(n, p)
    ensures GridCost(m, n, Set(n, g, p, v), i) ==
      GridCost(m, n, g, i) + (if p.row < i then CellCost(m, n, v, p.row, p.col) - CellCost(m, n, g[p.row][p.col], p.row, p.col) else 0)
  {
    if i > 0 {
      GridCostSet(m, n, g, i - 1, p, v);
      if p.row == i - 1 {
        RowCostSet(m, n, g[i - 1], i - 1, n, p.col, v);
      } else {
        assert Set(n, g, p, v)[i - 1] == g[i - 1];
      }
    }
  }

  /** A legal move only changes the cost of the tile that moved: it leaves `t` for `e`. */
  lemma SlideCost(m: Measure, n: nat, g: Grid, e: Pos, t: Pos)
    requires n > 0 && Coherent(n, g, e) && InBounds(n, t) && IsValidMove(e, t.row, t.col)
    ensures Cost(m, n, Slide(n, g, e, t)) ==
      Cost(m, n, g) + CellCost(m, n, g[t.row][t.col], e.row, e.col) - CellCost(m, n, g[t.row][t.col], t.row, t.col)
  {
    var v := g[t.row][t.col];
    var g1 := Set(n, g, e, v);
    GridCostSet(m, n, g, n, e, v);
    GridCostSet(m, n, g1, n, t, 0);
    assert g1[t.row][t.col] == v;
  }

  /** One move changes the Manhattan distance by exactly one. */
  lemma ManhattanSlide(n: nat, g: Grid, e: Pos, t: Pos)
    requires n > 0 && Coherent(n, g, e) && InBounds(n, t) && IsValidMove(e, t.row, t.col)
    ensures Abs(Cost(Manhattan, n, Slide(n, g, e, t)) - Cost(Manhattan, n, g)) == 1
  {
    SlideCost(Manhattan, n, g, e, t);
    assert g[t.row][t.col] != 0;
  }

  /**
   * Manhattan distance is admissible: whenever a move list takes a board to the
   * goal, it has at least as many moves as the board's Manhattan distance.
   */
  lemma {:induction false} ManhattanAdmissible(n: nat, g: Grid, e: Pos, moves: seq<Move>)
    requires n > 0 && Coherent(n, g, e)
    requires Replay(n, g, e, moves).Some? && Solved(n, Replay(n, g, e, moves).value.0)
    ensures Cost(Manhattan, n, g) <= |moves|
    decreases |moves|
  {
    if moves == [] {
      CostZeroIffSolved(Manhattan, n, g, e);
    } else {
      var t := moves[0].to;
      SlideCoherent(n, g, e, t);
      ManhattanAdmissible(n, Slide(n, g, e, t), t, moves[1..]);
      ManhattanSlide(n, g, e, t);
    }
  }

  /** So is the misplaced-tile count, which never exceeds it. */
  lemma MisplacedAdmissible(n: nat, g: Grid, e: Pos, moves: seq<Move>)
    requires n > 0 && Coherent(n, g, e)
    requires Replay(n, g, e, moves).Some? && Solved(n, Replay(n, g, e, moves).value.0)
    ensures Cost(Misplaced, n, g) <= |moves|
  {
    ManhattanAdmissible(n, g, e, moves);
    MisplacedLeManhattan(n, g);
  }

  /**
   * The combined heuristic is not admissible: with only the last two tiles of the
   * bottom row swapped with the blank, one move solves the board, but the
   * heuristic says 3.
   */
  lemma CombinedOverestimates()
    ensures var g: Grid := [[1, 2, 3], [4, 5, 6], [7, 0, 8]];
      Replay(3, g, Pos(2, 1), [Move(Pos(2, 1), Pos(2, 2), 0)]) == Some((SolvedGrid(3), Pos(2, 2))) &&
      Combined(3, g) == 3
  {
    var g: Grid := [[1, 2, 3], [4, 5, 6], [7, 0, 8]];
    var s := SolvedGrid(3);
    assert s[0] == [1, 2, 3] && s[1] == [4, 5, 6] && s[2] == [7, 8, 0] by {
      assert forall i, j :: 0 <= i < 3 && 0 <= j < 3 ==> s[i][j] == GoalValue(3, i, j);
    }
    assert s == [[1, 2, 3], [4, 5, 6], [7, 8, 0]];
    SlideExample(g);
    assert Replay(3, s, Pos(2, 2), []) == Some((s, Pos(2, 2)));
    CostExample(Manhattan, g);
    CostExample(Misplaced, g);
  }

  lemma CostExample(m: Measure, g: Grid)
    requires g == [[1, 2, 3], [4, 5, 6], [7, 0, 8]]
    ensures Cost(m, 3, g) == 1
  {
    forall i, j | 0 <= i < 2 && 0 <= j < 3
      ensures CellCost(m, 3, g[i][j], i, j) == 0
    {
      TargetOfCell(3, g[i][j], i, j);
    }
    assert CellCost(m, 3, 7, 2, 0) == 0 by { TargetOfCell(3, 7, 2, 0); }
    assert CellCost(m, 3, 8, 2, 2) == 1 by {
      assert TargetRow(3, 8) == 2 && TargetCol(3, 8) == 1;
    }
    assert RowCost(m, 3, g[0], 0, 3) == 0;
    assert RowCost(m, 3, g[1], 1, 3) == 0;
    assert RowCost(m, 3, g[2], 2, 3) == 1;
    assert GridCost(m, 3, g, 1) == 0;
    assert GridCost(m, 3, g, 2) == 0;
  }

  lemma SlideExample(g: Grid)
    requires g == [[1, 2, 3], [4, 5, 6], [7, 0, 8]]
    ensures Slide(3, g, Pos(2, 1), Pos(2, 2)) == [[1, 2, 3], [4, 5, 6], [7, 8, 0]]
  {
    assert g[2][1 := 8] == [7, 8, 8];
    assert g[2 := [7, 8, 8]] == [[1, 2, 3], [4, 5, 6], [7, 8, 8]];
    var g1 := Set(3, g, Pos(2, 1), 8);
    assert g1 == [[1, 2, 3], [4, 5, 6], [7, 8, 8]];
    assert g1[2][2 := 0] == [7, 8, 0];
    assert g1[2 := [7, 8, 0]] == [[1, 2, 3], [4, 5, 6], [7, 8, 0]];
  }
}
