/**
 * The legacy Python puzzle classes (EightPuzzle.py and NPuzzle.py). The two
 * files are the same class over a different hard-coded goal and blank value;
 * this module holds that shared class, and the modules EightPuzzle and
 * NPuzzle supply the constants.
 *
 * A puzzle is a list of rows of ints whose blank is the value N*N. The class
 * attributes N and tiles are shared by every instance and rewritten by each
 * constructor call; the instance methods read them. The pure methods are
 * modelled as functions of `Attrs`, a snapshot of the class attributes, and
 * the grid; a raised Python exception is a `PyResult.Err`.
 */
module PyPuzzle {
  type Grid = seq<seq<int>>

  /** The exceptions the class can raise. */
  datatype PyError = AssertionError(message: string) | IndexError | ValueError | TypeError | NameError

  datatype PyResult<T> = Ok(value: T) | Err(error: PyError)

  const FewRowsMessage := "Puzzle has fewer than 2 rows"
  const MissingTilesMessage := "Puzzle has missing or duplicate tiles"
  const TooFarMessage := "Trying to swap two tiles that are too far apart"

  /** The class attributes the methods read: `goal`, `blank`, `N` and `tiles`. */
  datatype Attrs = Attrs(goal: Grid, blank: int, n: nat, tiles: seq<int>)

  /** `abs`: the Python side's own copy of `Puzzle.Abs`, so that this module stands alone. */
  function Abs(x: int): nat {
    if x < 0 then -x else x
  }

  /** `[x + 1 for x in range(n * n)][:n * n - 1]`: the tiles 1 .. n*n-1. */
  function TileList(n: nat): (r: seq<int>)
    ensures |r| == if n == 0 then 0 else n * n - 1
    ensures forall i :: 0 <= i < |r| ==> r[i] == i + 1
  {
    seq(if n == 0 then 0 else n * n - 1, i => i + 1)
  }

  /** Python's resolution of the index `i` into a list of length `len`: a negative index counts from the end. */
  function PyIndex(len: nat, i: int): (r: PyResult<nat>)
    ensures r.Ok? <==> -(len as int) <= i < len
    ensures r.Ok? ==> r.value < len && r.value == (if i < 0 then i + len else i)
  {
    if 0 <= i < len then Ok(i) else if -(len as int) <= i < 0 then Ok(i + len) else Err(IndexError)
  }

  /** `list.index`: the position of the first occurrence. */
  function FirstIndex(s: seq<int>, x: int): (k: nat)
    requires x in s
    ensures k < |s| && s[k] == x && x !in s[..k]
  {
    if s[0] == x then 0
    else
      assert s == [s[0]] + s[1..];
      FirstIndex(s[1..], x) + 1
  }

  // ---------------------------------------------------------------------------
  // find_row / find_col

  /**
   * The loop of `find_row` from row `r` on: the first row below n that holds
   * `tile`, 1-based; 0 (Python's False) when none does; indexing a row past
   * the end of the grid raises IndexError.
   */
  function RowFrom(p: Grid, n: nat, tile: int, r: nat): (res: PyResult<nat>)
    requires r <= n
    ensures n <= |p| ==> res.Ok?
    ensures res.Ok? ==> res.value <= n && res.value <= |p|
    decreases n - r
  {
    if r == n then Ok(0)
    else if r >= |p| then Err(IndexError)
    else if tile in p[r] then Ok(r + 1)
    else RowFrom(p, n, tile, r + 1)
  }

  /**
   * The loop only raises IndexError; a positive answer is the first row from
   * r on that holds the tile; False means that no row from r up to n does.
   */
  lemma {:induction false} RowFromMeaning(p: Grid, n: nat, tile: int, r: nat)
    requires r <= n
    ensures RowFrom(p, n, tile, r).Err? ==> RowFrom(p, n, tile, r).error == IndexError && |p| < n
    ensures RowFrom(p, n, tile, r).Ok? && RowFrom(p, n, tile, r).value > 0 ==>
      var row := RowFrom(p, n, tile, r).value;
      r < row <= n && row <= |p| && tile in p[row - 1] && forall i :: r <= i < row - 1 ==> tile !in p[i]
    ensures RowFrom(p, n, tile, r) == Ok(0) <==>
      (r < n ==> n <= |p|) && forall i :: r <= i < n ==> tile !in p[i]
    decreases n - r
  {
    if r < n && r < |p| && tile !in p[r] {
      RowFromMeaning(p, n, tile, r + 1);
    }
  }

  /** `find_row(puzzle, tile)` with the class attribute N = n. */
  function RowOf(p: Grid, n: nat, tile: int): PyResult<nat> {
    RowFrom(p, n, tile, 0)
  }

  /**
   * `find_row` as the loop it is: a row that holds the tile ends it with that
   * row's 1-based number; the result is the first such row.
   */
  method FindRow(p: Grid, n: nat, tile: int) returns (r: PyResult<nat>)
    ensures r == RowOf(p, n, tile)
  {
    var res := 0;
    var i := 0;
    while i < n
      invariant 0 <= i <= n
      invariant RowOf(p, n, tile) == RowFrom(p, n, tile, i)
    {
      if i >= |p| {
        return Err(IndexError);
      }
      if tile in p[i] {
        res := i + 1;
        break;
      }
      i := i + 1;
    }
    // `res > N` never holds, so the diagnostic print never happens.
    return Ok(res);
  }

  /**
   * `find_col`: the 1-based column of `tile` in the row `find_row` reports.
   * When the tile is in none of the first n rows that row is `False - 1`,
   * i.e. the last row of the grid.
   */
  function ColOf(p: Grid, n: nat, tile: int): PyResult<nat> {
    match RowOf(p, n, tile)
    case Err(e) => Err(e)
    case Ok(row) =>
      match PyIndex(|p|, row - 1)
      case Err(e) => Err(e)
      case Ok(i) => if tile in p[i] then Ok(FirstIndex(p[i], tile) + 1) else Err(ValueError)
  }

  /**
   * `find_col` of a tile `find_row` found: the 1-based column of its first
   * occurrence in that row; `find_row`'s IndexError passes through.
   */
  lemma ColOfFound(p: Grid, n: nat, tile: int)
    ensures RowOf(p, n, tile).Err? ==> ColOf(p, n, tile) == RowOf(p, n, tile)
    ensures RowOf(p, n, tile).Ok? && RowOf(p, n, tile).value > 0 ==>
      var row := p[RowOf(p, n, tile).value - 1];
      var c := ColOf(p, n, tile);
      c.Ok? && 1 <= c.value <= |row| && row[c.value - 1] == tile && tile !in row[..c.value - 1]
  {
    RowFromMeaning(p, n, tile, 0);
  }

  /**
   * `find_col` of a tile in none of the first n rows looks in the last row of
   * the grid (`puzzle[False - 1]`): it raises ValueError unless the tile is
   * there, which can only be when the grid has more than n rows.
   */
  lemma ColOfAbsent(p: Grid, n: nat, tile: int)
    requires RowOf(p, n, tile) == Ok(0)
    ensures ColOf(p, n, tile).Ok? <==> |p| > 0 && tile in p[|p| - 1]
    ensures ColOf(p, n, tile).Err? ==> ColOf(p, n, tile).error == (if |p| == 0 then IndexError else ValueError)
    ensures ColOf(p, n, tile).Ok? ==> n < |p| && p[|p| - 1][ColOf(p, n, tile).value - 1] == tile
  {
    RowFromMeaning(p, n, tile, 0);
  }

  // ---------------------------------------------------------------------------
  // Distances and the heuristic

  /** `tile_distance`: the Manhattan distance of `tile` between the goal and the puzzle. */
  function TileDistance(k: Attrs, p: Grid, tile: int): PyResult<nat> {
    match RowOf(k.goal, k.n, tile)
    case Err(e) => Err(e)
    case Ok(r1) =>
      match RowOf(p, k.n, tile)
      case Err(e) => Err(e)
      case Ok(r2) =>
        match ColOf(k.goal, k.n, tile)
        case Err(e) => Err(e)
        case Ok(c1) =>
          match ColOf(p, k.n, tile)
          case Err(e) => Err(e)
          case Ok(c2) => Ok(Abs(r1 - r2) + Abs(c1 - c2))
  }

  /** `distance_between`: the Manhattan distance between two tiles of the puzzle. */
  function DistanceBetween(k: Attrs, p: Grid, t1: int, t2: int): PyResult<nat> {
    match RowOf(p, k.n, t1)
    case Err(e) => Err(e)
    case Ok(r1) =>
      match RowOf(p, k.n, t2)
      case Err(e) => Err(e)
      case Ok(r2) =>
        match ColOf(p, k.n, t1)
        case Err(e) => Err(e)
        case Ok(c1) =>
          match ColOf(p, k.n, t2)
          case Err(e) => Err(e)
          case Ok(c2) => Ok(Abs(r1 - r2) + Abs(c1 - c2))
  }

  /** `sum(map(tile_distance, ts))`: the first exception of the map, or the total. */
  function SumDistances(k: Attrs, p: Grid, ts: seq<int>): PyResult<nat> {
    if ts == [] then Ok(0)
    else
      match TileDistance(k, p, ts[0])
      case Err(e) => Err(e)
      case Ok(d) =>
        match SumDistances(k, p, ts[1..])
        case Err(e) => Err(e)
        case Ok(s) => Ok(d + s)
  }

  /** The sum raises exactly when some tile distance does, and is 0 exactly when every distance is. */
  lemma {:induction false} SumDistancesMeaning(k: Attrs, p: Grid, ts: seq<int>)
    ensures SumDistances(k, p, ts).Ok? <==> forall i :: 0 <= i < |ts| ==> TileDistance(k, p, ts[i]).Ok?
    ensures SumDistances(k, p, ts).Ok? ==>
      (SumDistances(k, p, ts).value == 0 <==> forall i :: 0 <= i < |ts| ==> TileDistance(k, p, ts[i]) == Ok(0))
  {
    if ts != [] {
      SumDistancesMeaning(k, p, ts[1..]);
      assert forall i :: 1 <= i < |ts| ==> ts[i] == ts[1..][i - 1];
    }
  }

  /** `heuristic`: the total Manhattan distance of the tiles 1 .. N*N-1. */
  function Heuristic(k: Attrs, p: Grid): PyResult<nat> {
    SumDistances(k, p, k.tiles)
  }

  /** `goal_test`: the heuristic is 0. */
  function GoalTest(k: Attrs, p: Grid): (r: PyResult<bool>)
    ensures r.Ok? <==> Heuristic(k, p).Ok?
    ensures r == Ok(true) <==> Heuristic(k, p) == Ok(0)
  {
    match Heuristic(k, p)
    case Err(e) => Err(e)
    case Ok(h) => Ok(h == 0)
  }

  // ---------------------------------------------------------------------------
  // movables

  predicate Increasing(s: seq<int>) {
    forall i, j :: 0 <= i < j < |s| ==> s[i] < s[j]
  }

  lemma IncreasingSnoc(m: seq<int>, x: int)
    requires Increasing(m) && forall t :: t in m ==> t < x
    ensures Increasing(m + [x])
  {
    forall i, j | 0 <= i < j < |m| + 1 ensures (m + [x])[i] < (m + [x])[j] {
      assert (m + [x])[i] == m[i];
      if j == |m| {
        assert m[i] in m;
      }
    }
  }

  /**
   * What the `movables` loop has collected after the tiles `ts`: the tiles at
   * distance 1 from the blank, in the order of `ts`, or the first exception.
   */
  function MovablesOf(k: Attrs, p: Grid, ts: seq<int>): PyResult<seq<int>> {
    if ts == [] then Ok([])
    else
      match MovablesOf(k, p, ts[..|ts| - 1])
      case Err(e) => Err(e)
      case Ok(m) =>
        match DistanceBetween(k, p, ts[|ts| - 1], k.blank)
        case Err(e) => Err(e)
        case Ok(d) => Ok(if d == 1 then m + [ts[|ts| - 1]] else m)
  }

  /** The collected list raises exactly when the distance of some tile of `ts` raises. */
  lemma {:induction false} MovablesOkIff(k: Attrs, p: Grid, ts: seq<int>)
    ensures MovablesOf(k, p, ts).Ok? <==> forall i :: 0 <= i < |ts| ==> DistanceBetween(k, p, ts[i], k.blank).Ok?
  {
    if ts != [] {
      var init := ts[..|ts| - 1];
      assert ts == init + [ts[|ts| - 1]];
      MovablesOkIff(k, p, init);
    }
  }

  /** Otherwise it holds exactly the tiles of `ts` at distance 1 from the blank. */
  lemma {:induction false} MovablesMembers(k: Attrs, p: Grid, ts: seq<int>)
    ensures MovablesOf(k, p, ts).Ok? ==>
      forall t :: t in MovablesOf(k, p, ts).value <==> t in ts && DistanceBetween(k, p, t, k.blank) == Ok(1)
  {
    if ts != [] {
      var init := ts[..|ts| - 1];
      assert ts == init + [ts[|ts| - 1]];
      MovablesMembers(k, p, init);
    }
  }

  /** In the order of `ts`: increasing when `ts` is. */
  lemma {:induction false} MovablesIncreasing(k: Attrs, p: Grid, ts: seq<int>)
    ensures MovablesOf(k, p, ts).Ok? && Increasing(ts) ==> Increasing(MovablesOf(k, p, ts).value)
  {
    if ts != [] && MovablesOf(k, p, ts).Ok? && Increasing(ts) {
      var init := ts[..|ts| - 1];
      var last := ts[|ts| - 1];
      assert ts == init + [last];
      assert Increasing(init);
      MovablesIncreasing(k, p, init);
      MovablesMembers(k, p, init);
      var m := MovablesOf(k, p, init).value;
      forall t | t in m ensures t < last {
        var i :| 0 <= i < |init| && init[i] == t;
        assert ts[i] == t;
      }
      IncreasingSnoc(m, last);
    }
  }

  lemma MovablesSnoc(k: Attrs, p: Grid, ts: seq<int>, t: int)
    ensures MovablesOf(k, p, ts + [t]) ==
      match MovablesOf(k, p, ts)
      case Err(e) => Err(e)
      case Ok(m) =>
        match DistanceBetween(k, p, t, k.blank)
        case Err(e) => Err(e)
        case Ok(d) => Ok(if d == 1 then m + [t] else m)
  {
    assert (ts + [t])[..|ts|] == ts;
  }

  /** An exception raised for some tile ends the loop: the later tiles do not change the outcome. */
  lemma {:induction false} MovablesErrorSticks(k: Attrs, p: Grid, ts: seq<int>, i: nat)
    requires i <= |ts| && MovablesOf(k, p, ts[..i]).Err?
    ensures MovablesOf(k, p, ts) == MovablesOf(k, p, ts[..i])
    decreases |ts| - i
  {
    if i < |ts| {
      assert ts[..i + 1] == ts[..i] + [ts[i]];
      MovablesSnoc(k, p, ts[..i], ts[i]);
      MovablesErrorSticks(k, p, ts, i + 1);
    } else {
      assert ts[..i] == ts;
    }
  }

  /** `movables`: the loop over the class's tiles, appending each tile at distance 1 from the blank. */
  method Movables(k: Attrs, p: Grid) returns (r: PyResult<seq<int>>)
    ensures r == MovablesOf(k, p, k.tiles)
  {
    var movable: seq<int> := [];
    var i := 0;
    while i < |k.tiles|
      invariant 0 <= i <= |k.tiles|
      invariant MovablesOf(k, p, k.tiles[..i]) == Ok(movable)
    {
      var t := k.tiles[i];
      assert k.tiles[..i + 1] == k.tiles[..i] + [t];
      MovablesSnoc(k, p, k.tiles[..i], t);
      var d := DistanceBetween(k, p, t, k.blank);
      if d.Err? {
        MovablesErrorSticks(k, p, k.tiles, i + 1);
        return Err(d.error);
      }
      if d.value == 1 {
        movable := movable + [t];
      }
      i := i + 1;
    }
    assert k.tiles[..i] == k.tiles;
    return Ok(movable);
  }

  // ---------------------------------------------------------------------------
  // swapTiles, possiblePuzzles

  /** All rows have the length of the first: the shape numpy turns into a 2-d array. */
  predicate Rectangular(p: Grid) {
    forall i :: 0 <= i < |p| ==> |p[i]| == |p[0]|
  }

  /**
   * `getTileIndex`: the (row, col) of the first occurrence of `tile` in
   * row-major order, as `np.where` lists it; taking `[0]` of an empty answer
   * raises IndexError. A ragged grid becomes a 1-d array of row objects, in
   * which no element equals an int, so it raises IndexError as well.
   */
  function TileIndex(p: Grid, tile: int): (r: PyResult<(nat, nat)>)
    ensures r.Err? ==> r.error == IndexError
    ensures r.Ok? <==> Rectangular(p) && exists i :: 0 <= i < |p| && tile in p[i]
    ensures r.Ok? ==>
      var (i, j) := r.value;
      i < |p| && j < |p[i]| && p[i][j] == tile &&
      (forall i' :: 0 <= i' < i ==> tile !in p[i']) && tile !in p[i][..j]
  {
    if !Rectangular(p) then Err(IndexError)
    else
      RowFromMeaning(p, |p|, tile, 0);
      var row := RowOf(p, |p|, tile).value;
      if row == 0 then Err(IndexError)
      else Ok((row - 1, FirstIndex(p[row - 1], tile)))
  }

  /** The grid with `v` written at (i, j). */
  function SetCell(p: Grid, i: nat, j: nat, v: int): (q: Grid)
    requires i < |p| && j < |p[i]|
    ensures |q| == |p| && forall r :: 0 <= r < |p| ==> |q[r]| == |p[r]|
    ensures forall r, c :: 0 <= r < |p| && 0 <= c < |p[r]| ==> q[r][c] == if r == i && c == j then v else p[r][c]
  {
    p[i := p[i][j := v]]
  }

  /**
   * `swapTiles`: asserts the tiles are at distance 1, then returns a new grid
   * in which the two have changed places; the puzzle itself is not changed.
   */
  function SwapTiles(k: Attrs, p: Grid, t1: int, t2: int): PyResult<Grid> {
    match DistanceBetween(k, p, t1, t2)
    case Err(e) => Err(e)
    case Ok(d) =>
      if d != 1 then Err(AssertionError(TooFarMessage))
      else
        match TileIndex(p, t1)
        case Err(e) => Err(e)
        case Ok(x1) =>
          match TileIndex(p, t2)
          case Err(e) => Err(e)
          case Ok(x2) =>
            Ok(SetCell(SetCell(p, x1.0, x1.1, t2), x2.0, x2.1, t1))
  }

  /**
   * The swap fails with the distance's exception or the assertion unless the
   * tiles are at distance 1; otherwise the two tiles' cells have changed
   * values and every other cell is as it was.
   */
  lemma SwapTilesMeaning(k: Attrs, p: Grid, t1: int, t2: int)
    ensures DistanceBetween(k, p, t1, t2).Err? ==> SwapTiles(k, p, t1, t2) == Err(DistanceBetween(k, p, t1, t2).error)
    ensures DistanceBetween(k, p, t1, t2).Ok? && DistanceBetween(k, p, t1, t2).value != 1 ==>
      SwapTiles(k, p, t1, t2) == Err(AssertionError(TooFarMessage))
    ensures SwapTiles(k, p, t1, t2).Ok? <==> DistanceBetween(k, p, t1, t2) == Ok(1) && TileIndex(p, t1).Ok? && TileIndex(p, t2).Ok?
    ensures SwapTiles(k, p, t1, t2).Ok? ==>
      var q := SwapTiles(k, p, t1, t2).value;
      var (i1, j1) := TileIndex(p, t1).value;
      var (i2, j2) := TileIndex(p, t2).value;
      |q| == |p| && (forall i :: 0 <= i < |p| ==> |q[i]| == |p[i]|) &&
      q[i1][j1] == t2 && q[i2][j2] == t1 &&
      forall i, j :: 0 <= i < |p| && 0 <= j < |p[i]| && (i, j) != (i1, j1) && (i, j) != (i2, j2) ==> q[i][j] == p[i][j]
  {
  }

  /** A swap keeps the number of rows. */
  lemma SwapTilesRows(k: Attrs, p: Grid, t1: int, t2: int)
    ensures SwapTiles(k, p, t1, t2).Ok? ==> |SwapTiles(k, p, t1, t2).value| == |p|
  {
  }

  /** `possiblePuzzles`: the swap of each of the given movable tiles with the blank, in order. */
  function PossiblePuzzles(k: Attrs, p: Grid, ms: seq<int>): PyResult<seq<Grid>> {
    if ms == [] then Ok([])
    else
      match PossiblePuzzles(k, p, ms[..|ms| - 1])
      case Err(e) => Err(e)
      case Ok(qs) =>
        match SwapTiles(k, p, ms[|ms| - 1], k.blank)
        case Err(e) => Err(e)
        case Ok(q) => Ok(qs + [q])
  }

  /** The list raises exactly when some swap does; otherwise its i-th puzzle is the swap of the i-th tile. */
  lemma {:induction false} PossiblePuzzlesMeaning(k: Attrs, p: Grid, ms: seq<int>)
    ensures PossiblePuzzles(k, p, ms).Ok? <==> forall i :: 0 <= i < |ms| ==> SwapTiles(k, p, ms[i], k.blank).Ok?
    ensures PossiblePuzzles(k, p, ms).Ok? ==>
      var qs := PossiblePuzzles(k, p, ms).value;
      |qs| == |ms| && forall i :: 0 <= i < |ms| ==> SwapTiles(k, p, ms[i], k.blank) == Ok(qs[i])
    ensures PossiblePuzzles(k, p, ms).Ok? ==>
      var qs := PossiblePuzzles(k, p, ms).value;
      forall i :: 0 <= i < |qs| ==> |qs[i]| == |p|
  {
    if ms != [] {
      var init := ms[..|ms| - 1];
      assert ms == init + [ms[|ms| - 1]];
      PossiblePuzzlesMeaning(k, p, init);
      SwapTilesRows(k, p, ms[|ms| - 1], k.blank);
    }
  }

  // ---------------------------------------------------------------------------
  // validatePuzzle

  /** `indArray[c - 1]` on an array of n*n slots: the slot `c` marks, or IndexError. */
  function Slot(n: nat, c: int): PyResult<nat> {
    PyIndex(n * n, c - 1)
  }

  predicate RowInRange(n: nat, row: seq<int>) {
    forall j :: 0 <= j < |row| ==> Slot(n, row[j]).Ok?
  }

  /** Every cell of the first n rows marks a slot, so the marking loop raises nothing. */
  predicate MarksInRange(n: nat, p: Grid) {
    n <= |p| && forall r :: 0 <= r < n ==> RowInRange(n, p[r])
  }

  /** The slots the cells of `row` mark. */
  function RowSlots(n: nat, row: seq<int>): set<nat>
    requires RowInRange(n, row)
  {
    if row == [] then {} else RowSlots(n, row[..|row| - 1]) + {Slot(n, row[|row| - 1]).value}
  }

  /** The slots the cells of the first k rows mark. */
  function MarkedSlots(n: nat, p: Grid, k: nat): set<nat>
    requires k <= |p| && forall r :: 0 <= r < k ==> RowInRange(n, p[r])
  {
    if k == 0 then {} else MarkedSlots(n, p, k - 1) + RowSlots(n, p[k - 1])
  }

  /**
   * What `validatePuzzle` does with the class attribute N = n: fewer than two
   * rows fail the first assertion; a cell whose slot is outside the array
   * raises IndexError; the puzzle is returned unchanged when every slot is
   * marked, and the last assertion fails otherwise. The squareness check
   * never fails (see ValidatePuzzle).
   */
  function Validation(n: nat, p: Grid): PyResult<Grid> {
    if |p| <= 1 then Err(AssertionError(FewRowsMessage))
    else if !MarksInRange(n, p) then Err(IndexError)
    else if forall s :: 0 <= s < n * n ==> s in MarkedSlots(n, p, n) then Ok(p)
    else Err(AssertionError(MissingTilesMessage))
  }

  /**
   * `validatePuzzle`: marks `indArray[c - 1]` for every cell `c` of the
   * first n rows, then checks that every slot is marked. The squareness loop
   * assigns `is_square`, a name nothing reads, so the asserted `isSquare`
   * stays True and that check is left out here.
   */
  method ValidatePuzzle(n: nat, puzzle: Grid) returns (r: PyResult<Grid>)
    ensures r == Validation(n, puzzle)
  {
    if |puzzle| <= 1 {
      return Err(AssertionError(FewRowsMessage));
    }
    var indArray := new int[n * n](_ => 0);
    var row := 0;
    while row < n
      invariant 0 <= row <= n
      invariant row <= |puzzle| && forall i :: 0 <= i < row ==> RowInRange(n, puzzle[i])
      invariant forall s :: 0 <= s < n * n ==> (indArray[s] != 0 <==> s in MarkedSlots(n, puzzle, row))
    {
      if row >= |puzzle| {
        return Err(IndexError);
      }
      var cells := puzzle[row];
      var j := 0;
      while j < |cells|
        invariant 0 <= j <= |cells|
        invariant RowInRange(n, cells[..j])
        invariant forall s :: 0 <= s < n * n ==>
          (indArray[s] != 0 <==> s in MarkedSlots(n, puzzle, row) + RowSlots(n, cells[..j]))
      {
        var slot := Slot(n, cells[j]);
        if slot.Err? {
          assert !RowInRange(n, puzzle[row]);
          return Err(IndexError);
        }
        indArray[slot.value] := 1;
        assert cells[..j + 1][..j] == cells[..j];
        j := j + 1;
      }
      assert cells[..j] == cells;
      row := row + 1;
    }
    var s := 0;
    while s < n * n
      invariant 0 <= s <= n * n
      invariant forall t :: 0 <= t < s ==> indArray[t] != 0
    {
      if indArray[s] == 0 {
        return Err(AssertionError(MissingTilesMessage));
      }
      s := s + 1;
    }
    return Ok(puzzle);
  }

  // ---------------------------------------------------------------------------
  // The class object and its instances

  /**
   * A Python class object: its attributes `goal` and `blank`, and `N` and
   * `tiles`, which every constructor call rewrites. `hashesPuzzle` says
   * whether the constructor also takes `hash(puzzle)` (EightPuzzle does,
   * NPuzzle does not).
   */
  class PuzzleClass {
    var goal: Grid
    const blank: int
    var n: nat
    var tiles: seq<int>
    const hashesPuzzle: bool

    /** The class attributes as they stand before any instance exists. */
    constructor (goal: Grid, blank: int, hashesPuzzle: bool)
      ensures this.goal == goal && this.blank == blank && this.hashesPuzzle == hashesPuzzle
      ensures n == 0 && tiles == []
    {
      this.goal := goal;
      this.blank := blank;
      this.hashesPuzzle := hashesPuzzle;
      n := 0;
      tiles := [];
    }

    function Snapshot(): Attrs
      reads this
    {
      Attrs(goal, blank, n, tiles)
    }
  }

  /** An instance: its validated puzzle and the movable tiles computed at construction. */
  class PuzzleObject {
    const cls: PuzzleClass
    const puzzle: Grid
    const movableTiles: seq<int>

    constructor (cls: PuzzleClass, puzzle: Grid, movableTiles: seq<int>)
      ensures this.cls == cls && this.puzzle == puzzle && this.movableTiles == movableTiles
    {
      this.cls := cls;
      this.puzzle := puzzle;
      this.movableTiles := movableTiles;
    }
  }

  /**
   * `__init__`: sets the class attributes N and tiles from the puzzle's row
   * count (before anything can fail), validates the puzzle, computes its
   * movable tiles and, for a class that hashes, `hash(puzzle)`, which raises
   * TypeError unless the puzzle is a tuple of tuples (`hashable`).
   */
  method Construct(cls: PuzzleClass, puzzle: Grid, hashable: bool) returns (r: PyResult<PuzzleObject>)
    modifies cls
    ensures cls.goal == old(cls.goal) && cls.n == |puzzle| && cls.tiles == TileList(|puzzle|)
    ensures Validation(|puzzle|, puzzle).Err? ==> r == Err(Validation(|puzzle|, puzzle).error)
    ensures Validation(|puzzle|, puzzle).Ok? && MovablesOf(cls.Snapshot(), puzzle, cls.tiles).Err? ==>
      r == Err(MovablesOf(cls.Snapshot(), puzzle, cls.tiles).error)
    ensures Validation(|puzzle|, puzzle).Ok? && MovablesOf(cls.Snapshot(), puzzle, cls.tiles).Ok? && cls.hashesPuzzle && !hashable ==>
      r == Err(TypeError)
    ensures r.Ok? <==>
      Validation(|puzzle|, puzzle).Ok? && MovablesOf(cls.Snapshot(), puzzle, cls.tiles).Ok? && (hashable || !cls.hashesPuzzle)
    ensures r.Ok? ==>
      fresh(r.value) && r.value.cls == cls && r.value.puzzle == puzzle &&
      r.value.movableTiles == MovablesOf(cls.Snapshot(), puzzle, cls.tiles).value
  {
    cls.n := |puzzle|;
    cls.tiles := TileList(|puzzle|);
    var valid := ValidatePuzzle(cls.n, puzzle);
    if valid.Err? {
      return Err(valid.error);
    }
    var movable := Movables(cls.Snapshot(), valid.value);
    if movable.Err? {
      return Err(movable.error);
    }
    if cls.hashesPuzzle && !hashable {
      return Err(TypeError);
    }
    var obj := new PuzzleObject(cls, valid.value, movable.value);
    return Ok(obj);
  }

  /** The objects are instances of `cls` over the first |objs| of the puzzles. */
  predicate InstancesOf(objs: seq<PuzzleObject>, cls: PuzzleClass, puzzles: seq<Grid>) {
    |objs| <= |puzzles| && forall j :: 0 <= j < |objs| ==> objs[j].cls == cls && objs[j].puzzle == puzzles[j]
  }

  lemma InstancesSnoc(objs: seq<PuzzleObject>, cls: PuzzleClass, puzzles: seq<Grid>, c: PuzzleObject)
    requires InstancesOf(objs, cls, puzzles) && |objs| < |puzzles|
    requires c.cls == cls && c.puzzle == puzzles[|objs|]
    ensures InstancesOf(objs + [c], cls, puzzles)
  {
    assert forall j :: 0 <= j < |objs| ==> (objs + [c])[j] == objs[j];
  }

  /** A well-formed puzzle of at least two rows passes `__init__`'s validation and `movables`. */
  lemma ConstructionSucceeds(k: Attrs, p: Grid)
    requires k.n >= 2 && WellFormed(p, k.n) && k.tiles == TileList(k.n) && k.blank == k.n * k.n
    ensures Validation(k.n, p) == Ok(p) && MovablesOf(k, p, k.tiles).Ok?
  {
    ValidationAcceptsWellFormed(p, k.n);
    var bi, bj := Locate(p, k.n, k.blank);
    MovablesNextToBlank(k, p, bi, bj);
  }

  /**
   * `[EightPuzzle(p) for p in puzzles]` over grids of tuples, each with
   * `rows` rows: the first exception, or one new instance per grid. Every
   * construction rewrites the class attributes, to the same values.
   */
  method ConstructAll(cls: PuzzleClass, puzzles: seq<Grid>, ghost rows: nat) returns (r: PyResult<seq<PuzzleObject>>)
    requires forall j :: 0 <= j < |puzzles| ==> |puzzles[j]| == rows
    modifies cls
    ensures cls.goal == old(cls.goal)
    ensures r.Ok? ==> |r.value| == |puzzles| && InstancesOf(r.value, cls, puzzles) && forall c :: c in r.value ==> fresh(c)
    ensures r.Ok? && |puzzles| > 0 ==> cls.n == rows && cls.tiles == TileList(rows)
    ensures rows >= 2 && cls.blank == rows * rows && (forall j :: 0 <= j < |puzzles| ==> WellFormed(puzzles[j], rows)) ==>
      r.Ok?
  {
    var kids: seq<PuzzleObject> := [];
    var i := 0;
    while i < |puzzles|
      invariant 0 <= i <= |puzzles| && |kids| == i
      invariant cls.goal == old(cls.goal)
      invariant forall c :: c in kids ==> fresh(c)
      invariant InstancesOf(kids, cls, puzzles)
      invariant i > 0 ==> cls.n == rows && cls.tiles == TileList(rows)
    {
      var child := Construct(cls, puzzles[i], true);
      if rows >= 2 && cls.blank == rows * rows && WellFormed(puzzles[i], rows) {
        ConstructionSucceeds(cls.Snapshot(), puzzles[i]);
      }
      if child.Err? {
        return Err(child.error);
      }
      var c := child.value;
      InstancesSnoc(kids, cls, puzzles, c);
      kids := kids + [c];
      i := i + 1;
    }
    return Ok(kids);
  }

  /**
   * The puzzles `children` builds instances from have the rows of the parent,
   * one per movable tile, and are well-formed when the parent is.
   */
  lemma ChildPuzzles(k: Attrs, p: Grid, ms: seq<int>)
    ensures PossiblePuzzles(k, p, ms).Ok? ==>
      var qs := PossiblePuzzles(k, p, ms).value;
      |qs| == |ms| && forall j :: 0 <= j < |qs| ==> |qs[j]| == |p|
    ensures (k.n >= 2 && WellFormed(p, k.n) && k.tiles == TileList(k.n) && k.blank == k.n * k.n &&
             MovablesOf(k, p, k.tiles) == Ok(ms)) ==>
      PossiblePuzzles(k, p, ms).Ok? &&
      forall j :: 0 <= j < |PossiblePuzzles(k, p, ms).value| ==> WellFormed(PossiblePuzzles(k, p, ms).value[j], |p|)
  {
    PossiblePuzzlesMeaning(k, p, ms);
    if k.n >= 2 && WellFormed(p, k.n) && k.tiles == TileList(k.n) && k.blank == k.n * k.n &&
       MovablesOf(k, p, k.tiles) == Ok(ms) {
      PossiblePuzzlesWellFormed(k, p);
    }
  }

  /**
   * `children`: the instances built from `possiblePuzzles`, in the order of
   * the movable tiles; the swaps are all computed first, with the class
   * attributes as they were on entry.
   */
  method Children(obj: PuzzleObject) returns (r: PyResult<seq<PuzzleObject>>)
    modifies obj.cls
    ensures obj.cls.goal == old(obj.cls.goal)
    ensures PossiblePuzzles(old(obj.cls.Snapshot()), obj.puzzle, obj.movableTiles).Err? ==>
      r == Err(PossiblePuzzles(old(obj.cls.Snapshot()), obj.puzzle, obj.movableTiles).error)
    ensures r.Ok? ==>
      var pp := PossiblePuzzles(old(obj.cls.Snapshot()), obj.puzzle, obj.movableTiles);
      pp.Ok? && |r.value| == |obj.movableTiles| && InstancesOf(r.value, obj.cls, pp.value) &&
      forall c :: c in r.value ==> fresh(c)
    ensures r.Ok? && |r.value| > 0 ==> obj.cls.n == |obj.puzzle| && obj.cls.tiles == TileList(|obj.puzzle|)
    ensures var k := old(obj.cls.Snapshot());
      k.n >= 2 && WellFormed(obj.puzzle, k.n) && k.tiles == TileList(k.n) && k.blank == k.n * k.n &&
      MovablesOf(k, obj.puzzle, k.tiles) == Ok(obj.movableTiles) ==>
      r.Ok?
  {
    var pp := PossiblePuzzles(obj.cls.Snapshot(), obj.puzzle, obj.movableTiles);
    ChildPuzzles(obj.cls.Snapshot(), obj.puzzle, obj.movableTiles);
    if pp.Err? {
      return Err(pp.error);
    }
    r := ConstructAll(obj.cls, pp.value, |obj.puzzle|);
  }

  // ---------------------------------------------------------------------------
  // Well-formed puzzles

  predicate Occurs(p: Grid, v: int) {
    exists i :: 0 <= i < |p| && v in p[i]
  }

  /**
   * No value sits in two cells: the Python side's own copy of `Puzzle.Distinct`,
   * phrased as "equal values mean the same cell".
   */
  predicate Distinct(p: Grid) {
    forall i1, j1, i2, j2 ::
      0 <= i1 < |p| && 0 <= j1 < |p[i1]| && 0 <= i2 < |p| && 0 <= j2 < |p[i2]| && p[i1][j1] == p[i2][j2] ==>
      i1 == i2 && j1 == j2
  }

  /** n rows of n cells, all in 1 .. n*n. */
  predicate CellsInRange(p: Grid, n: nat) {
    |p| == n && (forall i :: 0 <= i < n ==> |p[i]| == n) &&
    forall i, j :: 0 <= i < n && 0 <= j < n ==> 1 <= p[i][j] <= n * n
  }

  /** A puzzle as the classes intend it: n rows of n cells holding each of 1 .. n*n once. */
  predicate WellFormed(p: Grid, n: nat) {
    CellsInRange(p, n) && (forall v :: 1 <= v <= n * n ==> Occurs(p, v)) && Distinct(p)
  }

  /** In a grid without repeated values, `find_row` and `find_col` report a cell's own 1-based coordinates. */
  lemma FindCell(p: Grid, n: nat, i: nat, j: nat)
    requires Distinct(p) && n <= |p| && i < n && j < |p[i]|
    ensures RowOf(p, n, p[i][j]) == Ok(i + 1) && ColOf(p, n, p[i][j]) == Ok(j + 1)
  {
    var v := p[i][j];
    assert v in p[i];
    RowFromMeaning(p, n, v, 0);
    ColOfFound(p, n, v);
    var k := RowOf(p, n, v).value - 1;
    var j' :| 0 <= j' < |p[k]| && p[k][j'] == v;
    assert k == i;
    var c := FirstIndex(p[i], v);
    assert p[i][c] == v;
  }

  /** `distance_between` of two cells' values is the Manhattan distance of the cells. */
  lemma DistanceBetweenCells(k: Attrs, p: Grid, i1: nat, j1: nat, i2: nat, j2: nat)
    requires Distinct(p) && k.n <= |p| && i1 < k.n && i2 < k.n && j1 < |p[i1]| && j2 < |p[i2]|
    ensures DistanceBetween(k, p, p[i1][j1], p[i2][j2]) == Ok(Abs(i1 - i2) + Abs(j1 - j2))
  {
    FindCell(p, k.n, i1, j1);
    FindCell(p, k.n, i2, j2);
  }

  /** `tile_distance` of a value is the Manhattan distance between its cells in the goal and in the puzzle. */
  lemma TileDistanceCells(k: Attrs, p: Grid, gi: nat, gj: nat, i: nat, j: nat)
    requires Distinct(p) && Distinct(k.goal) && k.n <= |p| && k.n <= |k.goal|
    requires gi < k.n && gj < |k.goal[gi]| && i < k.n && j < |p[i]| && k.goal[gi][gj] == p[i][j]
    ensures TileDistance(k, p, p[i][j]) == Ok(Abs(gi - i) + Abs(gj - j))
  {
    FindCell(k.goal, k.n, gi, gj);
    FindCell(p, k.n, i, j);
  }

  /** The cell of a value that occurs in a well-formed grid. */
  lemma Locate(p: Grid, n: nat, v: int) returns (i: nat, j: nat)
    requires WellFormed(p, n) && 1 <= v <= n * n
    ensures i < n && j < n && p[i][j] == v
  {
    assert Occurs(p, v);
    var a :| 0 <= a < |p| && v in p[a];
    var b :| 0 <= b < |p[a]| && p[a][b] == v;
    i, j := a, b;
  }

  predicate Comparable(k: Attrs, p: Grid) {
    k.n >= 1 && WellFormed(p, k.n) && WellFormed(k.goal, k.n) && k.tiles == TileList(k.n)
  }

  /** On well-formed puzzles every tile distance is defined, so `heuristic` raises nothing. */
  lemma HeuristicDefined(k: Attrs, p: Grid)
    requires Comparable(k, p)
    ensures Heuristic(k, p).Ok?
  {
    forall x | 0 <= x < |k.tiles|
      ensures TileDistance(k, p, k.tiles[x]).Ok?
    {
      var i, j := Locate(p, k.n, x + 1);
      var gi, gj := Locate(k.goal, k.n, x + 1);
      TileDistanceCells(k, p, gi, gj, i, j);
    }
    SumDistancesMeaning(k, p, k.tiles);
  }

  /** The goal is at distance 0 from itself. */
  lemma HeuristicOfGoal(k: Attrs)
    requires Comparable(k, k.goal)
    ensures Heuristic(k, k.goal) == Ok(0)
  {
    HeuristicDefined(k, k.goal);
    forall x | 0 <= x < |k.tiles|
      ensures TileDistance(k, k.goal, k.tiles[x]) == Ok(0)
    {
      var i, j := Locate(k.goal, k.n, x + 1);
      TileDistanceCells(k, k.goal, i, j, i, j);
    }
    SumDistancesMeaning(k, k.goal, k.tiles);
  }

  /** A cell whose value is a tile at distance 0 holds the same value in the goal. */
  lemma ZeroDistanceCell(k: Attrs, p: Grid, i: nat, j: nat)
    requires Comparable(k, p) && i < k.n && j < k.n && p[i][j] < k.n * k.n
    requires TileDistance(k, p, p[i][j]) == Ok(0)
    ensures k.goal[i][j] == p[i][j]
  {
    var gi, gj := Locate(k.goal, k.n, p[i][j]);
    TileDistanceCells(k, p, gi, gj, i, j);
  }

  /** A well-formed puzzle at distance 0 is the goal. */
  lemma HeuristicZeroIsGoal(k: Attrs, p: Grid)
    requires Comparable(k, p) && Heuristic(k, p) == Ok(0)
    ensures p == k.goal
  {
    SumDistancesMeaning(k, p, k.tiles);
    var n := k.n;
    var g := k.goal;
    forall i, j | 0 <= i < n && 0 <= j < n
      ensures p[i][j] == g[i][j]
    {
      if p[i][j] < n * n {
        assert k.tiles[p[i][j] - 1] == p[i][j];
        ZeroDistanceCell(k, p, i, j);
      } else if g[i][j] < n * n {
        var pi, pj := Locate(p, n, g[i][j]);
        assert k.tiles[g[i][j] - 1] == g[i][j];
        ZeroDistanceCell(k, p, pi, pj);
      }
    }
    forall i | 0 <= i < n
      ensures p[i] == g[i]
    {
    }
  }

  /**
   * On well-formed puzzles the heuristic is 0 exactly when the puzzle is the
   * goal; so `goal_test` holds exactly on the goal.
   */
  lemma GoalTestIffGoal(k: Attrs, p: Grid)
    requires Comparable(k, p)
    ensures GoalTest(k, p) == Ok(p == k.goal)
  {
    HeuristicDefined(k, p);
    if p == k.goal {
      HeuristicOfGoal(k);
    } else if Heuristic(k, p).value == 0 {
      HeuristicZeroIsGoal(k, p);
    }
  }

  // ---------------------------------------------------------------------------
  // What validation accepts

  lemma {:induction false} RowSlotsHas(n: nat, row: seq<int>, j: nat)
    requires RowInRange(n, row) && j < |row|
    ensures Slot(n, row[j]).value in RowSlots(n, row)
  {
    if j < |row| - 1 {
      RowSlotsHas(n, row[..|row| - 1], j);
    }
  }

  lemma {:induction false} RowSlotsFrom(n: nat, row: seq<int>, s: nat) returns (j: nat)
    requires RowInRange(n, row) && s in RowSlots(n, row)
    ensures j < |row| && Slot(n, row[j]) == Ok(s)
  {
    if s in RowSlots(n, row[..|row| - 1]) {
      j := RowSlotsFrom(n, row[..|row| - 1], s);
    } else {
      j := |row| - 1;
    }
  }

  lemma {:induction false} MarkedSlotsHas(n: nat, p: Grid, k: nat, i: nat, j: nat)
    requires k <= |p| && (forall r :: 0 <= r < k ==> RowInRange(n, p[r])) && i < k && j < |p[i]|
    ensures Slot(n, p[i][j]).Ok? && Slot(n, p[i][j]).value in MarkedSlots(n, p, k)
  {
    if i == k - 1 {
      RowSlotsHas(n, p[i], j);
    } else {
      MarkedSlotsHas(n, p, k - 1, i, j);
    }
  }

  lemma {:induction false} MarkedSlotsFrom(n: nat, p: Grid, k: nat, s: nat) returns (i: nat, j: nat)
    requires k <= |p| && (forall r :: 0 <= r < k ==> RowInRange(n, p[r])) && s in MarkedSlots(n, p, k)
    ensures i < k && j < |p[i]| && Slot(n, p[i][j]) == Ok(s)
  {
    if s in MarkedSlots(n, p, k - 1) {
      i, j := MarkedSlotsFrom(n, p, k - 1, s);
    } else {
      i := k - 1;
      j := RowSlotsFrom(n, p[i], s);
    }
  }

  /**
   * For a grid of n rows of n cells in 1 .. n*n, `validatePuzzle` returns the
   * puzzle exactly when every value 1 .. n*n occurs in it (so, by counting,
   * exactly when no value is repeated).
   */
  lemma ValidationIffAllPresent(p: Grid, n: nat)
    requires n >= 2 && CellsInRange(p, n)
    ensures Validation(n, p).Ok? <==> forall v :: 1 <= v <= n * n ==> Occurs(p, v)
    ensures Validation(n, p).Ok? ==> Validation(n, p).value == p
  {
    assert MarksInRange(n, p);
    if forall v :: 1 <= v <= n * n ==> Occurs(p, v) {
      forall s | 0 <= s < n * n
        ensures s in MarkedSlots(n, p, n)
      {
        assert Occurs(p, s + 1);
        var i :| 0 <= i < |p| && s + 1 in p[i];
        var j :| 0 <= j < |p[i]| && p[i][j] == s + 1;
        MarkedSlotsHas(n, p, n, i, j);
      }
    }
    if Validation(n, p).Ok? {
      forall v | 1 <= v <= n * n
        ensures Occurs(p, v)
      {
        var i, j := MarkedSlotsFrom(n, p, n, v - 1);
        assert p[i][j] in p[i];
      }
    }
  }

  /** Every well-formed puzzle with at least two rows passes validation unchanged. */
  lemma ValidationAcceptsWellFormed(p: Grid, n: nat)
    requires n >= 2 && WellFormed(p, n)
    ensures Validation(n, p) == Ok(p)
  {
    ValidationIffAllPresent(p, n);
  }

  // ---------------------------------------------------------------------------
  // movables and swapTiles on well-formed puzzles

  /** On a well-formed puzzle every tile's distance to the blank is defined. */
  lemma BlankDistancesDefined(k: Attrs, p: Grid, bi: nat, bj: nat)
    requires k.n >= 1 && WellFormed(p, k.n) && k.tiles == TileList(k.n) && k.blank == k.n * k.n
    requires bi < k.n && bj < k.n && p[bi][bj] == k.blank
    ensures forall x :: 0 <= x < |k.tiles| ==> DistanceBetween(k, p, k.tiles[x], k.blank).Ok?
  {
    forall x | 0 <= x < |k.tiles|
      ensures DistanceBetween(k, p, k.tiles[x], k.blank).Ok?
    {
      var i, j := Locate(p, k.n, x + 1);
      DistanceBetweenCells(k, p, i, j, bi, bj);
    }
  }

  /**
   * On a well-formed puzzle with the blank at (bi, bj), `movables` raises
   * nothing and lists exactly the tiles in the cells next to the blank, in
   * increasing order.
   */
  lemma MovablesNextToBlank(k: Attrs, p: Grid, bi: nat, bj: nat)
    requires k.n >= 1 && WellFormed(p, k.n) && k.tiles == TileList(k.n) && k.blank == k.n * k.n
    requires bi < k.n && bj < k.n && p[bi][bj] == k.blank
    ensures MovablesOf(k, p, k.tiles).Ok?
    ensures Increasing(MovablesOf(k, p, k.tiles).value)
    ensures forall t :: t in MovablesOf(k, p, k.tiles).value ==> 1 <= t < k.blank
    ensures forall i, j :: 0 <= i < k.n && 0 <= j < k.n && p[i][j] != k.blank ==>
      (p[i][j] in MovablesOf(k, p, k.tiles).value <==> Abs(i - bi) + Abs(j - bj) == 1)
  {
    var n := k.n;
    BlankDistancesDefined(k, p, bi, bj);
    MovablesOkIff(k, p, k.tiles);
    MovablesMembers(k, p, k.tiles);
    MovablesIncreasing(k, p, k.tiles);
    var m := MovablesOf(k, p, k.tiles).value;
    assert Increasing(k.tiles);
    forall t | t in m
      ensures 1 <= t < k.blank
    {
      assert t in k.tiles;
    }
    forall i, j | 0 <= i < n && 0 <= j < n && p[i][j] != k.blank
      ensures p[i][j] in m <==> Abs(i - bi) + Abs(j - bj) == 1
    {
      DistanceBetweenCells(k, p, i, j, bi, bj);
      assert k.tiles[p[i][j] - 1] == p[i][j];
    }
  }

  /** One cell of the previous lemma: the tile at (i, j) is movable exactly when it is next to the blank. */
  lemma MovableCell(k: Attrs, p: Grid, bi: nat, bj: nat, i: nat, j: nat)
    requires k.n >= 1 && WellFormed(p, k.n) && k.tiles == TileList(k.n) && k.blank == k.n * k.n
    requires bi < k.n && bj < k.n && p[bi][bj] == k.blank
    requires i < k.n && j < k.n && p[i][j] != k.blank
    ensures MovablesOf(k, p, k.tiles).Ok?
    ensures p[i][j] in MovablesOf(k, p, k.tiles).value <==> Abs(i - bi) + Abs(j - bj) == 1
  {
    MovablesNextToBlank(k, p, bi, bj);
  }

  /** In a well-formed puzzle `getTileIndex` finds a value's one cell. */
  lemma TileIndexCell(p: Grid, n: nat, i: nat, j: nat)
    requires WellFormed(p, n) && i < n && j < n
    ensures TileIndex(p, p[i][j]) == Ok((i, j))
  {
    assert p[i][j] in p[i];
    var (a, b) := TileIndex(p, p[i][j]).value;
    assert p[a][b] == p[i][j];
  }

  /** The cell (a, b) after exchanging cells (i, j) and (x, y). */
  function Exchanged(a: nat, b: nat, i: nat, j: nat, x: nat, y: nat): (nat, nat) {
    if (a, b) == (i, j) then (x, y) else if (a, b) == (x, y) then (i, j) else (a, b)
  }

  /** Exchanging the values of two distinct cells of a well-formed grid gives a well-formed grid. */
  lemma ExchangeWellFormed(p: Grid, q: Grid, n: nat, i: nat, j: nat, x: nat, y: nat)
    requires WellFormed(p, n) && i < n && j < n && x < n && y < n && (i, j) != (x, y)
    requires |q| == n && forall a :: 0 <= a < n ==> |q[a]| == n
    requires q[i][j] == p[x][y] && q[x][y] == p[i][j]
    requires forall a, b :: 0 <= a < n && 0 <= b < n && (a, b) != (i, j) && (a, b) != (x, y) ==> q[a][b] == p[a][b]
    ensures WellFormed(q, n)
  {
    forall a, b | 0 <= a < n && 0 <= b < n
      ensures var (a', b') := Exchanged(a, b, i, j, x, y); a' < n && b' < n && q[a][b] == p[a'][b']
    {
    }
    forall v | 1 <= v <= n * n
      ensures Occurs(q, v)
    {
      var a, b := Locate(p, n, v);
      var (a', b') := Exchanged(a, b, i, j, x, y);
      assert Exchanged(a', b', i, j, x, y) == (a, b);
      assert q[a'][b'] in q[a'];
    }
    forall a1, b1, a2, b2 | 0 <= a1 < n && 0 <= b1 < n && 0 <= a2 < n && 0 <= b2 < n && q[a1][b1] == q[a2][b2]
      ensures a1 == a2 && b1 == b2
    {
      var (x1, y1) := Exchanged(a1, b1, i, j, x, y);
      var (x2, y2) := Exchanged(a2, b2, i, j, x, y);
      assert p[x1][y1] == p[x2][y2];
    }
  }

  /**
   * Swapping a tile next to the blank with the blank succeeds on a
   * well-formed puzzle, and the result is again well-formed: the two cells
   * have changed values and every other cell is as it was.
   */
  lemma SwapWithBlank(k: Attrs, p: Grid, i: nat, j: nat, bi: nat, bj: nat)
    requires k.n >= 1 && WellFormed(p, k.n) && k.blank == k.n * k.n
    requires i < k.n && j < k.n && bi < k.n && bj < k.n && p[bi][bj] == k.blank && Abs(i - bi) + Abs(j - bj) == 1
    ensures SwapTiles(k, p, p[i][j], k.blank).Ok?
    ensures var q := SwapTiles(k, p, p[i][j], k.blank).value;
      WellFormed(q, k.n) && q[i][j] == k.blank && q[bi][bj] == p[i][j] &&
      forall a, b :: 0 <= a < k.n && 0 <= b < k.n && (a, b) != (i, j) && (a, b) != (bi, bj) ==> q[a][b] == p[a][b]
  {
    DistanceBetweenCells(k, p, i, j, bi, bj);
    TileIndexCell(p, k.n, i, j);
    TileIndexCell(p, k.n, bi, bj);
    SwapTilesMeaning(k, p, p[i][j], k.blank);
    var q := SwapTiles(k, p, p[i][j], k.blank).value;
    ExchangeWellFormed(p, q, k.n, i, j, bi, bj);
  }

  /**
   * On a well-formed puzzle whose movable tiles were computed with the
   * puzzle's own size, `possiblePuzzles` raises nothing and every puzzle it
   * returns is well-formed.
   */
  lemma PossiblePuzzlesWellFormed(k: Attrs, p: Grid)
    requires k.n >= 1 && WellFormed(p, k.n) && k.tiles == TileList(k.n) && k.blank == k.n * k.n
    ensures MovablesOf(k, p, k.tiles).Ok?
    ensures var pp := PossiblePuzzles(k, p, MovablesOf(k, p, k.tiles).value);
      pp.Ok? && forall x :: 0 <= x < |pp.value| ==> WellFormed(pp.value[x], k.n)
  {
    var n := k.n;
    var bi, bj := Locate(p, n, k.blank);
    MovablesNextToBlank(k, p, bi, bj);
    var m := MovablesOf(k, p, k.tiles).value;
    forall x | 0 <= x < |m|
      ensures SwapTiles(k, p, m[x], k.blank).Ok? && WellFormed(SwapTiles(k, p, m[x], k.blank).value, n)
    {
      assert m[x] in m;
      var i, j := Locate(p, n, m[x]);
      SwapWithBlank(k, p, i, j, bi, bj);
    }
    PossiblePuzzlesMeaning(k, p, m);
  }

  // ---------------------------------------------------------------------------
  // The goal layout

  /** The goal both classes hard-code: 1 .. n*n in row-major order, the blank n*n last. */
  function OrderedGrid(n: nat): (g: Grid)
    ensures |g| == n && forall i :: 0 <= i < n ==> |g[i]| == n
  {
    seq(n, i => seq(n, j => i * n + j + 1))
  }

  lemma RowMajorBelow(n: nat, i1: nat, j1: nat, i2: nat, j2: nat)
    requires j1 < n && j2 < n && i1 < i2
    ensures i1 * n + j1 < i2 * n + j2
  {
    assert (i2 - i1 - 1) * n >= 0;
    assert i2 * n == i1 * n + n + (i2 - i1 - 1) * n;
  }

  /** The value at (i, j) of the ordered grid: i*n + j + 1, between 1 and n*n. */
  lemma OrderedCell(n: nat, i: nat, j: nat)
    requires i < n && j < n
    ensures OrderedGrid(n)[i][j] == i * n + j + 1 && 1 <= OrderedGrid(n)[i][j] <= n * n
  {
    if i < n - 1 {
      RowMajorBelow(n, i, j, n - 1, 0);
      assert (n - 1) * n + 0 < n * n;
    } else {
      assert i * n + j < n * n;
    }
  }

  /** Every value 1 .. n*n sits in the ordered grid, at ((v-1)/n, (v-1)%n). */
  lemma OrderedOccurs(n: nat, v: int)
    requires 1 <= v <= n * n
    ensures Occurs(OrderedGrid(n), v)
  {
    var g := OrderedGrid(n);
    var i := (v - 1) / n;
    var j := (v - 1) % n;
    DivBelow(v - 1, n);
    assert i * n + j == v - 1;
    assert g[i][j] == v;
    assert v in g[i];
  }

  lemma DivBelow(x: nat, n: nat)
    requires 0 < n && x < n * n
    ensures x / n < n
  {
    var q := x / n;
    assert q * n + x % n == x;
    assert q * n < n * n;
    assert (n - q) * n > 0;
  }

  /** Distinct cells of the ordered grid hold distinct values. */
  lemma OrderedDistinctCells(n: nat, i1: nat, j1: nat, i2: nat, j2: nat)
    requires i1 < n && j1 < n && i2 < n && j2 < n && OrderedGrid(n)[i1][j1] == OrderedGrid(n)[i2][j2]
    ensures i1 == i2 && j1 == j2
  {
    if i1 < i2 {
      RowMajorBelow(n, i1, j1, i2, j2);
    } else if i2 < i1 {
      RowMajorBelow(n, i2, j2, i1, j1);
    }
  }

  lemma OrderedGridWellFormed(n: nat)
    ensures WellFormed(OrderedGrid(n), n)
  {
    var g := OrderedGrid(n);
    forall i, j | 0 <= i < n && 0 <= j < n
      ensures 1 <= g[i][j] <= n * n
    {
      OrderedCell(n, i, j);
    }
    forall v | 1 <= v <= n * n
      ensures Occurs(g, v)
    {
      OrderedOccurs(n, v);
    }
    forall i1, j1, i2, j2 | 0 <= i1 < n && 0 <= j1 < n && 0 <= i2 < n && 0 <= j2 < n && g[i1][j1] == g[i2][j2]
      ensures i1 == i2 && j1 == j2
    {
      OrderedDistinctCells(n, i1, j1, i2, j2);
    }
  }
}
