/**
 * The sliding-tile board shared by the two browser apps (a-star/script.js and
 * rl/script.js carry the same board code almost line for line): the goal grid,
 * legal blank moves, applying a move, the solved test, the state key, and the
 * replay of a recorded move list.
 *
 * A grid is a list of rows; 0 is the blank. A grid of size n is "coherent" with
 * a blank position e when it is n x n, holds pairwise distinct values in
 * 0 .. n*n-1 (so, having n*n cells, each of them exactly once) and has its 0
 * at e. Every operation that changes a grid keeps it coherent.
 */
module Puzzle {

  datatype Option<T> = None | Some(value: T)

  /** A cell coordinate (`{ row, col }`). */
  datatype Pos = Pos(row: int, col: int)

  /** A recorded move: the blank went from `from` to `to`; `tile` is the value recorded with it. */
  datatype Move = Move(from: Pos, to: Pos, tile: int)

  type Grid = seq<seq<int>>

  /** A draw of `Math.random()`: a real in [0, 1). */
  type Unit = r: real | 0.0 <= r < 1.0

  function Abs(x: int): nat { if x < 0 then -x else x }

  predicate Shaped(n: nat, g: Grid) {
    |g| == n && forall i :: 0 <= i < n ==> |g[i]| == n
  }

  predicate InBounds(n: nat, p: Pos) {
    0 <= p.row < n && 0 <= p.col < n
  }

  /** `isValidMove`: the target is orthogonally adjacent to the blank; bounds are not looked at. */
  predicate IsValidMove(e: Pos, row: int, col: int) {
    var rowDiff := Abs(row - e.row);
    var colDiff := Abs(col - e.col);
    (rowDiff == 1 && colDiff == 0) || (rowDiff == 0 && colDiff == 1)
  }

  predicate Distinct(g: Grid) {
    forall r1, c1, r2, c2 ::
      0 <= r1 < |g| && 0 <= c1 < |g[r1]| && 0 <= r2 < |g| && 0 <= c2 < |g[r2]| && (r1 != r2 || c1 != c2)
      ==> g[r1][c1] != g[r2][c2]
  }

  predicate InRange(n: nat, g: Grid) {
    forall r, c :: 0 <= r < |g| && 0 <= c < |g[r]| ==> 0 <= g[r][c] < n * n
  }

  /** The blank of `g` sits at `e`. */
  predicate BlankAt(n: nat, g: Grid, e: Pos) {
    Shaped(n, g) && InBounds(n, e) && g[e.row][e.col] == 0
  }

  /** The board invariant: a permutation of 0 .. n*n-1 whose blank is at `e`. */
  predicate Coherent(n: nat, g: Grid, e: Pos) {
    BlankAt(n, g, e) && Distinct(g) && InRange(n, g)
  }

  // ---------------------------------------------------------------------------
  // The goal grid and the solved test

  /** The value `generateSolvedPuzzle` writes at (i, j). */
  function GoalValue(n: nat, i: int, j: int): int {
    var value := i * n + j + 1;
    var maxTileNumber := n * n - 1;
    if value <= maxTileNumber then value else 0
  }

  function SolvedGrid(n: nat): (g: Grid)
    ensures Shaped(n, g)
  {
    seq(n, i => seq(n, j => GoalValue(n, i, j)))
  }

  /** The value `isSolved` expects at (i, j). */
  function Expected(n: nat, i: int, j: int): int {
    if i == n - 1 && j == n - 1 then 0 else i * n + j + 1
  }

  predicate Solved(n: nat, g: Grid) {
    Shaped(n, g) && forall i, j :: 0 <= i < n && 0 <= j < n ==> g[i][j] == Expected(n, i, j)
  }

  lemma MulMono(a: int, b: int, n: int)
    requires a <= b && 0 <= n
    ensures a * n <= b * n
  {
    assert b * n - a * n == (b - a) * n;
  }

  /** Row-major cell numbers run from 0 to n*n-1 and only the last cell gets n*n-1. */
  lemma CellNumber(n: nat, i: int, j: int)
    requires 0 <= i < n && 0 <= j < n
    ensures 0 <= i * n + j <= n * n - 1
    ensures i * n + j == n * n - 1 <==> (i == n - 1 && j == n - 1)
  {
    MulMono(i, n - 1, n);
    assert (n - 1) * n == n * n - n;
    if i < n - 1 {
      MulMono(i, n - 2, n);
      assert (n - 2) * n == n * n - 2 * n;
    }
  }

  lemma RowsApart(n: nat, i1: int, j1: int, i2: int, j2: int)
    requires 0 <= i1 < i2 && 0 <= j1 < n && 0 <= j2
    ensures i1 * n + j1 < i2 * n + j2
  {
    MulMono(i1 + 1, i2, n);
    assert (i1 + 1) * n == i1 * n + n;
  }

  /** Row-major cell numbers are unique. */
  lemma CellNumberUnique(n: nat, i1: int, j1: int, i2: int, j2: int)
    requires 0 <= j1 < n && 0 <= j2 < n && 0 <= i1 && 0 <= i2
    ensures i1 * n + j1 == i2 * n + j2 <==> i1 == i2 && j1 == j2
  {
    if i1 < i2 {
      RowsApart(n, i1, j1, i2, j2);
    } else if i2 < i1 {
      RowsApart(n, i2, j2, i1, j1);
    }
  }

  lemma GoalValueIsExpected(n: nat, i: int, j: int)
    requires 0 <= i < n && 0 <= j < n
    ensures GoalValue(n, i, j) == Expected(n, i, j)
    ensures 0 <= GoalValue(n, i, j) < n * n
  {
    CellNumber(n, i, j);
  }

  /** `isSolved` holds exactly of the grid `generateSolvedPuzzle` builds. */
  lemma SolvedIffGoal(n: nat, g: Grid)
    requires Shaped(n, g)
    ensures Solved(n, g) <==> g == SolvedGrid(n)
  {
    forall i, j | 0 <= i < n && 0 <= j < n
      ensures SolvedGrid(n)[i][j] == Expected(n, i, j)
    {
      GoalValueIsExpected(n, i, j);
    }
    if Solved(n, g) {
      assert forall i :: 0 <= i < n ==> g[i] == SolvedGrid(n)[i];
    }
  }

  /** The goal grid is a coherent board with its blank in the last cell, and it is solved. */
  lemma SolvedGridCoherent(n: nat)
    requires n >= 1
    ensures Coherent(n, SolvedGrid(n), Pos(n - 1, n - 1))
    ensures Solved(n, SolvedGrid(n))
  {
    var g := SolvedGrid(n);
    SolvedIffGoal(n, g);
    GoalValueIsExpected(n, n - 1, n - 1);
    forall r, c | 0 <= r < n && 0 <= c < n
      ensures 0 <= g[r][c] < n * n
    {
      GoalValueIsExpected(n, r, c);
    }
    forall r1, c1, r2, c2 | 0 <= r1 < n && 0 <= c1 < n && 0 <= r2 < n && 0 <= c2 < n && (r1 != r2 || c1 != c2)
      ensures g[r1][c1] != g[r2][c2]
    {
      GoalValueIsExpected(n, r1, c1);
      GoalValueIsExpected(n, r2, c2);
      CellNumber(n, r1, c1);
      CellNumber(n, r2, c2);
      CellNumberUnique(n, r1, c1, r2, c2);
    }
  }

  /** `isSolved`: the nested loop with early exits of the source. */
  method IsSolved(n: nat, g: Grid) returns (solved: bool)
    requires Shaped(n, g)
    ensures solved <==> Solved(n, g)
    ensures solved <==> g == SolvedGrid(n)
  {
    SolvedIffGoal(n, g);
    for i := 0 to n
      invariant forall i', j :: 0 <= i' < i && 0 <= j < n ==> g[i'][j] == Expected(n, i', j)
    {
      for j := 0 to n
        invariant forall i', j' :: 0 <= i' < i && 0 <= j' < n ==> g[i'][j'] == Expected(n, i', j')
        invariant forall j' :: 0 <= j' < j ==> g[i][j'] == Expected(n, i, j')
      {
        var expectedValue := i * n + j + 1;
        var actualValue := g[i][j];
        if i == n - 1 && j == n - 1 {
          if actualValue != 0 { return false; }
        } else {
          if actualValue != expectedValue { return false; }
        }
      }
    }
    return true;
  }

  // ---------------------------------------------------------------------------
  // Move generation

  /** The four blank steps in the order the source tries them: up, down, left, right. */
  const Directions: seq<Pos> := [Pos(-1, 0), Pos(1, 0), Pos(0, -1), Pos(0, 1)]

  function Step(e: Pos, d: Pos): Pos { Pos(e.row + d.row, e.col + d.col) }

  function Keep(n: nat, t: Pos): seq<Pos> {
    if InBounds(n, t) then [t] else []
  }

  /** The in-bounds targets among the steps `ds` from `e`, in the order of `ds`. */
  function Targets(n: nat, e: Pos, ds: seq<Pos>): seq<Pos> {
    if ds == [] then [] else Targets(n, e, ds[..|ds| - 1]) + Keep(n, Step(e, ds[|ds| - 1]))
  }

  function ValidMoves(n: nat, e: Pos): seq<Pos> {
    Targets(n, e, Directions)
  }

  lemma TargetsSnoc(n: nat, e: Pos, ds: seq<Pos>, k: nat)
    requires k < |ds|
    ensures Targets(n, e, ds[..k + 1]) == Targets(n, e, ds[..k]) + Keep(n, Step(e, ds[k]))
  {
    assert ds[..k + 1][..k] == ds[..k];
  }

  /** The valid moves are the in-bounds ones of up, down, left, right, in that order. */
  lemma ValidMovesOrder(n: nat, e: Pos)
    ensures ValidMoves(n, e) ==
      Keep(n, Pos(e.row - 1, e.col)) + Keep(n, Pos(e.row + 1, e.col)) +
      Keep(n, Pos(e.row, e.col - 1)) + Keep(n, Pos(e.row, e.col + 1))
  {
    var ds := Directions;
    var up, down, left, right := Pos(e.row - 1, e.col), Pos(e.row + 1, e.col), Pos(e.row, e.col - 1), Pos(e.row, e.col + 1);
    assert Targets(n, e, ds[..1]) == Keep(n, up) by {
      assert ds[..0] == [];
      TargetsSnoc(n, e, ds, 0);
      assert Step(e, ds[0]) == up;
    }
    assert Targets(n, e, ds[..2]) == Keep(n, up) + Keep(n, down) by {
      TargetsSnoc(n, e, ds, 1);
      assert Step(e, ds[1]) == down;
    }
    assert Targets(n, e, ds[..3]) == Keep(n, up) + Keep(n, down) + Keep(n, left) by {
      TargetsSnoc(n, e, ds, 2);
      assert Step(e, ds[2]) == left;
    }
    assert Targets(n, e, ds[..4]) == Keep(n, up) + Keep(n, down) + Keep(n, left) + Keep(n, right) by {
      TargetsSnoc(n, e, ds, 3);
      assert Step(e, ds[3]) == right;
    }
    assert ds[..4] == ds;
  }

  /**
   * Every valid move is an in-bounds cell adjacent to the blank (so it passes
   * `isValidMove`); there are at most four; and every in-bounds adjacent cell is
   * one of them.
   */
  lemma ValidMovesExact(n: nat, e: Pos)
    ensures |ValidMoves(n, e)| <= 4
    ensures forall t :: t in ValidMoves(n, e) ==> InBounds(n, t) && IsValidMove(e, t.row, t.col)
    ensures forall t :: InBounds(n, t) && IsValidMove(e, t.row, t.col) ==> t in ValidMoves(n, e)
  {
    ValidMovesOrder(n, e);
    var up, down, left, right := Pos(e.row - 1, e.col), Pos(e.row + 1, e.col), Pos(e.row, e.col - 1), Pos(e.row, e.col + 1);
    var vm := ValidMoves(n, e);
    forall t | t in vm
      ensures InBounds(n, t) && IsValidMove(e, t.row, t.col)
    {
      assert t in Keep(n, up) || t in Keep(n, down) || t in Keep(n, left) || t in Keep(n, right);
    }
    forall t | InBounds(n, t) && IsValidMove(e, t.row, t.col)
      ensures t in vm
    {
      assert t == up || t == down || t == left || t == right;
    }
  }

  /** On a board of size 2 or more the blank always has a move. */
  lemma ValidMovesNonEmpty(n: nat, e: Pos)
    requires n >= 2 && InBounds(n, e)
    ensures |ValidMoves(n, e)| >= 2
  {
    ValidMovesOrder(n, e);
  }

  /** On a 1x1 board the blank has no move. */
  lemma ValidMovesNone(n: nat, e: Pos)
    requires n < 2 && InBounds(n, e)
    ensures ValidMoves(n, e) == []
  {
    ValidMovesOrder(n, e);
  }

  /** `getValidMoves`: the loop over the four directions. */
  method GetValidMoves(n: nat, e: Pos) returns (moves: seq<Pos>)
    ensures moves == ValidMoves(n, e)
  {
    moves := [];
    for k := 0 to |Directions|
      invariant moves == Targets(n, e, Directions[..k])
    {
      var dir := Directions[k];
      var newRow := e.row + dir.row;
      var newCol := e.col + dir.col;
      TargetsSnoc(n, e, Directions, k);
      assert Keep(n, Step(e, dir)) == if newRow >= 0 && newRow < n && newCol >= 0 && newCol < n then [Pos(newRow, newCol)] else [];
      if newRow >= 0 && newRow < n && newCol >= 0 && newCol < n {
        moves := moves + [Pos(newRow, newCol)];
      }
    }
    assert Directions[..|Directions|] == Directions;
  }

  // ---------------------------------------------------------------------------
  // Applying a move

  function Set(n: nat, g: Grid, p: Pos, v: int): (r: Grid)
    requires Shaped(n, g) && InBounds(n, p)
    ensures Shaped(n, r)
  {
    g[p.row := g[p.row][p.col := v]]
  }

  /**
   * The swap `makeMove` performs: the tile at `t` moves into the blank cell `e`,
   * and `t` becomes the blank.
   */
  function Slide(n: nat, g: Grid, e: Pos, t: Pos): (r: Grid)
    requires Shaped(n, g) && InBounds(n, e) && InBounds(n, t)
    ensures Shaped(n, r)
  {
    Set(n, Set(n, g, e, g[t.row][t.col]), t, 0)
  }

  /** Cell by cell: `t` holds 0, `e` holds the old tile of `t`, every other cell is as before. */
  lemma SlideCells(n: nat, g: Grid, e: Pos, t: Pos)
    requires Shaped(n, g) && InBounds(n, e) && InBounds(n, t) && e != t
    ensures forall r, c :: 0 <= r < n && 0 <= c < n ==>
      Slide(n, g, e, t)[r][c] ==
        if Pos(r, c) == t then 0 else if Pos(r, c) == e then g[t.row][t.col] else g[r][c]
  {
  }

  /** A legal move keeps the board coherent, with the blank at the target. */
  lemma SlideCoherent(n: nat, g: Grid, e: Pos, t: Pos)
    requires Coherent(n, g, e) && InBounds(n, t) && IsValidMove(e, t.row, t.col)
    ensures Coherent(n, Slide(n, g, e, t), t)
  {
    var r := Slide(n, g, e, t);
    SlideCells(n, g, e, t);
    forall r1, c1, r2, c2 |
      0 <= r1 < n && 0 <= c1 < n && 0 <= r2 < n && 0 <= c2 < n && (r1 != r2 || c1 != c2)
      ensures r[r1][c1] != r[r2][c2]
    {
      // Each cell of r holds the old value of one cell of g, and distinct cells of r
      // draw on distinct cells of g.
      var s1 := if Pos(r1, c1) == t then e else if Pos(r1, c1) == e then t else Pos(r1, c1);
      var s2 := if Pos(r2, c2) == t then e else if Pos(r2, c2) == e then t else Pos(r2, c2);
      assert r[r1][c1] == g[s1.row][s1.col];
      assert r[r2][c2] == g[s2.row][s2.col];
    }
  }

  /** Moving the blank back to where it came from restores the grid. */
  lemma SlideBack(n: nat, g: Grid, e: Pos, t: Pos)
    requires BlankAt(n, g, e) && InBounds(n, t)
    ensures Slide(n, Slide(n, g, e, t), t, e) == g
  {
    var h := Slide(n, Slide(n, g, e, t), t, e);
    if e != t {
      SlideCells(n, g, e, t);
      SlideCells(n, Slide(n, g, e, t), t, e);
      forall r | 0 <= r < n ensures h[r] == g[r] {
        assert forall c :: 0 <= c < n ==> h[r][c] == g[r][c];
      }
    } else {
      forall r | 0 <= r < n ensures h[r] == g[r] {
        assert forall c :: 0 <= c < n ==> h[r][c] == g[r][c];
      }
    }
  }

  /** The blank position of a coherent board is determined by the grid. */
  lemma BlankUnique(n: nat, g: Grid, e1: Pos, e2: Pos)
    requires Coherent(n, g, e1) && BlankAt(n, g, e2)
    ensures e1 == e2
  {
  }

  // ---------------------------------------------------------------------------
  // State keys

  /** `getStateKey`: the grid flattened row by row (the source joins it with commas). */
  function Flatten(g: Grid): seq<int> {
    if g == [] then [] else g[0] + Flatten(g[1..])
  }

  lemma {:induction false} FlattenInjectiveRows(w: nat, g1: Grid, g2: Grid)
    requires |g1| == |g2|
    requires forall i :: 0 <= i < |g1| ==> |g1[i]| == w && |g2[i]| == w
    requires Flatten(g1) == Flatten(g2)
    ensures g1 == g2
  {
    if g1 != [] {
      assert Flatten(g1)[..w] == g1[0];
      assert Flatten(g2)[..w] == g2[0];
      assert Flatten(g1)[w..] == Flatten(g1[1..]);
      assert Flatten(g2)[w..] == Flatten(g2[1..]);
      FlattenInjectiveRows(w, g1[1..], g2[1..]);
      assert g1 == [g1[0]] + g1[1..];
      assert g2 == [g2[0]] + g2[1..];
    }
  }

  /** Two boards of the same size are equal exactly when their keys are. */
  lemma KeyInjective(n: nat, g1: Grid, g2: Grid)
    requires Shaped(n, g1) && Shaped(n, g2)
    ensures Flatten(g1) == Flatten(g2) <==> g1 == g2
  {
    if Flatten(g1) == Flatten(g2) {
      FlattenInjectiveRows(n, g1, g2);
    }
  }

  // ---------------------------------------------------------------------------
  // Replaying a move list

  /**
   * Replays the targets of `moves` from blank `e` on `g`, as `validateSolution`
   * and the solution animations do; None at the first target that is not adjacent
   * to the blank (or lies off the board).
   */
  function Replay(n: nat, g: Grid, e: Pos, moves: seq<Move>): (r: Option<(Grid, Pos)>)
    requires Shaped(n, g) && InBounds(n, e)
    ensures r.Some? ==> Shaped(n, r.value.0) && InBounds(n, r.value.1)
    decreases |moves|
  {
    if moves == [] then Some((g, e))
    else
      var t := moves[0].to;
      if InBounds(n, t) && IsValidMove(e, t.row, t.col) then Replay(n, Slide(n, g, e, t), t, moves[1..])
      else None
  }

  /** Replaying `moves + [m]` is replaying `moves`, then `m`. */
  lemma {:induction false} ReplaySnoc(n: nat, g: Grid, e: Pos, moves: seq<Move>, m: Move)
    requires Shaped(n, g) && InBounds(n, e)
    decreases |moves|
    ensures Replay(n, g, e, moves + [m]) ==
      match Replay(n, g, e, moves)
      case None => None
      case Some(s) =>
        if InBounds(n, m.to) && IsValidMove(s.1, m.to.row, m.to.col) then Some((Slide(n, s.0, s.1, m.to), m.to)) else None
  {
    if moves == [] {
      assert [m][1..] == [];
    } else {
      var t := moves[0].to;
      assert (moves + [m])[1..] == moves[1..] + [m];
      if InBounds(n, t) && IsValidMove(e, t.row, t.col) {
        ReplaySnoc(n, Slide(n, g, e, t), t, moves[1..], m);
      }
    }
  }

  /** One more legal move extends a successful replay. */
  lemma ReplayStep(n: nat, g: Grid, e: Pos, moves: seq<Move>, g1: Grid, e1: Pos, m: Move)
    requires Shaped(n, g) && InBounds(n, e)
    requires Replay(n, g, e, moves) == Some((g1, e1))
    requires InBounds(n, m.to) && IsValidMove(e1, m.to.row, m.to.col)
    ensures Replay(n, g, e, moves + [m]) == Some((Slide(n, g1, e1, m.to), m.to))
  {
    ReplaySnoc(n, g, e, moves, m);
  }

  /** A successful replay of a coherent board ends on a coherent board. */
  lemma {:induction false} ReplayCoherent(n: nat, g: Grid, e: Pos, moves: seq<Move>)
    requires Coherent(n, g, e)
    ensures Replay(n, g, e, moves).Some? ==> Coherent(n, Replay(n, g, e, moves).value.0, Replay(n, g, e, moves).value.1)
    decreases |moves|
  {
    if moves != [] {
      var t := moves[0].to;
      if InBounds(n, t) && IsValidMove(e, t.row, t.col) {
        SlideCoherent(n, g, e, t);
        ReplayCoherent(n, Slide(n, g, e, t), t, moves[1..]);
      }
    }
  }

  /** The moves that walk the blank back along the path `moves` took it from `e`. */
  function Undo(e: Pos, moves: seq<Move>): (r: seq<Move>)
    ensures |r| == |moves|
    decreases |moves|
  {
    if moves == [] then [] else Undo(moves[0].to, moves[1..]) + [Move(moves[0].to, e, moves[0].tile)]
  }

  /**
   * Every board reached by replaying moves can be brought back to its start:
   * a shuffled board is always solvable by undoing the shuffle.
   */
  lemma {:induction false} UndoReplay(n: nat, g: Grid, e: Pos, moves: seq<Move>)
    requires BlankAt(n, g, e)
    requires Replay(n, g, e, moves).Some?
    ensures Replay(n, Replay(n, g, e, moves).value.0, Replay(n, g, e, moves).value.1, Undo(e, moves)) == Some((g, e))
    decreases |moves|
  {
    if moves != [] {
      var t := moves[0].to;
      var g1 := Slide(n, g, e, t);
      var end := Replay(n, g, e, moves).value;
      assert end == Replay(n, g1, t, moves[1..]).value;
      UndoReplay(n, g1, t, moves[1..]);
      ReplaySnoc(n, end.0, end.1, Undo(t, moves[1..]), Move(t, e, moves[0].tile));
      SlideBack(n, g, e, t);
    }
  }

  /** A board shuffled from the goal is solved by undoing the shuffle. */
  lemma ShuffleSolvable(n: nat, trail: seq<Move>)
    requires n >= 1 && Replay(n, SolvedGrid(n), Pos(n - 1, n - 1), trail).Some?
    ensures var r := Replay(n, SolvedGrid(n), Pos(n - 1, n - 1), trail).value;
      Replay(n, r.0, r.1, Undo(Pos(n - 1, n - 1), trail)) == Some((SolvedGrid(n), Pos(n - 1, n - 1)))
  {
    SolvedGridCoherent(n);
    UndoReplay(n, SolvedGrid(n), Pos(n - 1, n - 1), trail);
  }

  /** `Math.floor(Math.random() * len)` is an index below `len`. */
  function RandomIndex(u: Unit, len: nat): (k: nat)
    requires len > 0
    ensures k < len
  {
    assert 0.0 <= u * (len as real) < len as real;
    (u * (len as real)).Floor
  }

  // ---------------------------------------------------------------------------
  // The board state of an app

  /**
   * The board part of both app classes (`size`, `puzzle`, `emptyPos`,
   * `moveCount`) and the methods of theirs that change it.
   */
  class Board {
    var size: nat
    var puzzle: Grid
    var emptyPos: Pos
    var moveCount: nat

    ghost predicate Valid()
      reads this`size, this`puzzle, this`emptyPos
    {
      size >= 1 && Coherent(size, puzzle, emptyPos)
    }

    /** What both app constructors do to the board: size 3, then `generateSolvedPuzzle`. */
    constructor ()
      ensures Valid() && size == 3 && moveCount == 0
      ensures puzzle == SolvedGrid(3) && emptyPos == Pos(2, 2)
    {
      size := 3;
      puzzle := [];
      emptyPos := Pos(0, 0);
      moveCount := 0;
      new;
      GenerateSolvedPuzzle();
    }

    /** `generateSolvedPuzzle`: rebuilds the goal grid row by row and puts the blank in the last cell. */
    method GenerateSolvedPuzzle()
      requires size >= 1
      modifies this
      ensures Valid() && size == old(size) && moveCount == old(moveCount)
      ensures puzzle == SolvedGrid(size) && emptyPos == Pos(size - 1, size - 1)
      ensures Solved(size, puzzle)
    {
      var n := size;
      var rows: Grid := [];
      for i := 0 to n
        invariant rows == SolvedGrid(n)[..i]
      {
        var row: seq<int> := [];
        for j := 0 to n
          invariant row == SolvedGrid(n)[i][..j]
        {
          var value := i * n + j + 1;
          var maxTileNumber := n * n - 1;
          assert SolvedGrid(n)[i][..j + 1] == SolvedGrid(n)[i][..j] + [GoalValue(n, i, j)];
          row := row + [if value <= maxTileNumber then value else 0];
        }
        assert row == SolvedGrid(n)[i] by { assert SolvedGrid(n)[i][..n] == SolvedGrid(n)[i]; }
        assert SolvedGrid(n)[..i + 1] == SolvedGrid(n)[..i] + [SolvedGrid(n)[i]];
        rows := rows + [row];
      }
      puzzle := rows;
      emptyPos := Pos(n - 1, n - 1);
      SolvedGridCoherent(n);
    }

    /** `this.puzzle = grid.map(row => [...row]); this.emptyPos = { ...pos }`: loads a copy of a stored board. */
    method Load(grid: Grid, pos: Pos)
      requires size >= 1 && Coherent(size, grid, pos)
      modifies this
      ensures Valid() && puzzle == grid && emptyPos == pos
      ensures size == old(size) && moveCount == old(moveCount)
    {
      puzzle := grid;
      emptyPos := pos;
    }

    /**
     * `makeMove`: when the target is adjacent to the blank, the tile there slides
     * into the blank cell and the target becomes the blank; otherwise nothing
     * changes and the answer is false.
     */
    method MakeMove(row: int, col: int, updateCount: bool) returns (moved: bool)
      requires Valid() && InBounds(size, Pos(row, col))
      modifies this
      ensures Valid() && size == old(size)
      ensures moved == IsValidMove(old(emptyPos), row, col)
      ensures moved ==> puzzle == Slide(size, old(puzzle), old(emptyPos), Pos(row, col)) && emptyPos == Pos(row, col)
      ensures !moved ==> puzzle == old(puzzle) && emptyPos == old(emptyPos)
      ensures moveCount == if moved && updateCount then old(moveCount) + 1 else old(moveCount)
    {
      if IsValidMove(emptyPos, row, col) {
        SlideCoherent(size, puzzle, emptyPos, Pos(row, col));
        puzzle := puzzle[emptyPos.row := puzzle[emptyPos.row][emptyPos.col := puzzle[row][col]]];
        puzzle := puzzle[row := puzzle[row][col := 0]];
        emptyPos := Pos(row, col);
        if updateCount {
          moveCount := moveCount + 1;
        }
        return true;
      }
      return false;
    }

    /**
     * `shufflePuzzle`: `moves` times, a valid move picked by `random` (the source's
     * `Math.random()` draws, one per step) is made. The board only changes through
     * legal moves: the ghost `trail` replays from the old board to the new one.
     */
    method ShufflePuzzle(moves: nat, random: nat -> Unit) returns (ghost trail: seq<Move>)
      requires Valid()
      modifies this
      ensures Valid() && size == old(size) && moveCount == old(moveCount)
      ensures Replay(size, old(puzzle), old(emptyPos), trail) == Some((puzzle, emptyPos))
      ensures size >= 2 ==> |trail| == moves
    {
      trail := [];
      for i := 0 to moves
        invariant Valid() && size == old(size) && moveCount == old(moveCount)
        invariant Replay(size, old(puzzle), old(emptyPos), trail) == Some((puzzle, emptyPos))
        invariant size >= 2 ==> |trail| == i
      {
        var validMoves := GetValidMoves(size, emptyPos);
        if size >= 2 {
          ValidMovesNonEmpty(size, emptyPos);
        }
        if |validMoves| > 0 {
          var randomMove := validMoves[RandomIndex(random(i), |validMoves|)];
          ValidMovesExact(size, emptyPos);
          assert InBounds(size, randomMove) && IsValidMove(emptyPos, randomMove.row, randomMove.col);
          ghost var step := Move(emptyPos, randomMove, puzzle[randomMove.row][randomMove.col]);
          ReplayStep(size, old(puzzle), old(emptyPos), trail, puzzle, emptyPos, step);
          var _ := MakeMove(randomMove.row, randomMove.col, false);
          trail := trail + [step];
        }
      }
    }
  }
}
