/**
 * NPuzzle.py: the puzzle class over the 4x4 goal, whose blank is the value
 * 16. Unlike EightPuzzle its constructor does not hash the puzzle, and it
 * has a `setGoal` method.
 */
module NPuzzle {
  import opened PyPuzzle

  /** The class attribute `goal`. */
  const Goal: Grid := [[1, 2, 3, 4], [5, 6, 7, 8], [9, 10, 11, 12], [13, 14, 15, 16]]

  /** The class attribute `blank`. */
  const Blank := 16

  /** The class object before any instance exists; it does not hash puzzles. */
  method NewClass() returns (c: PuzzleClass)
    ensures fresh(c) && c.goal == Goal && c.blank == Blank && !c.hashesPuzzle && c.n == 0 && c.tiles == []
  {
    c := new PuzzleClass(Goal, Blank, false);
  }

  /**
   * `setGoal`: its body reads a name `goal` that is bound nowhere (neither a
   * parameter nor a global), so every call raises NameError and the class
   * attribute is left as it was.
   */
  method SetGoal(cls: PuzzleClass) returns (r: PyResult<()>)
    ensures r == Err(NameError) && cls.goal == old(cls.goal)
  {
    return Err(NameError);
  }

  /** The class attributes once a 4x4 puzzle has been constructed. */
  function Attrs4(): Attrs {
    Attrs(Goal, Blank, 4, TileList(4))
  }

  lemma GoalIsOrdered()
    ensures Goal == OrderedGrid(4)
  {
    var g := OrderedGrid(4);
    assert g[0] == [1, 2, 3, 4] && g[1] == [5, 6, 7, 8] && g[2] == [9, 10, 11, 12] && g[3] == [13, 14, 15, 16];
  }

  /**
   * On every well-formed 4x4 puzzle, `goal_test` raises nothing and holds
   * exactly when the puzzle is the goal.
   */
  lemma GoalTestExactlyOnGoal(p: Grid)
    requires WellFormed(p, 4)
    ensures GoalTest(Attrs4(), p) == Ok(p == Goal)
  {
    GoalIsOrdered();
    OrderedGridWellFormed(4);
    GoalTestIffGoal(Attrs4(), p);
  }

  /** The goal with the 4 and the blank exchanged. */
  const CornerSwapped: Grid := [[1, 2, 3, 16], [5, 6, 7, 8], [9, 10, 11, 12], [13, 14, 15, 4]]

  /** That puzzle is well-formed, so it passes validation unchanged. */
  lemma CornerSwappedValid()
    ensures WellFormed(CornerSwapped, 4) && Validation(4, CornerSwapped) == Ok(CornerSwapped)
  {
    GoalIsOrdered();
    OrderedGridWellFormed(4);
    ExchangeWellFormed(Goal, CornerSwapped, 4, 0, 3, 3, 3);
    ValidationAcceptsWellFormed(CornerSwapped, 4);
  }

  /** It is not the goal, so `goal_test` is False. */
  lemma CornerSwappedNotGoal()
    ensures GoalTest(Attrs4(), CornerSwapped) == Ok(false)
  {
    CornerSwappedValid();
    GoalTestExactlyOnGoal(CornerSwapped);
    assert CornerSwapped[0][3] != Goal[0][3];
  }

  /** Its blank is in the top-right corner: 3 and 8 are movable, 4 is not. */
  lemma CornerSwappedMovables()
    ensures MovablesOf(Attrs4(), CornerSwapped, TileList(4)).Ok?
    ensures var m := MovablesOf(Attrs4(), CornerSwapped, TileList(4)).value; 3 in m && 8 in m && 4 !in m
  {
    var p := CornerSwapped;
    CornerSwappedValid();
    MovableCell(Attrs4(), p, 0, 3, 0, 2);
    MovableCell(Attrs4(), p, 0, 3, 1, 3);
    MovableCell(Attrs4(), p, 0, 3, 3, 3);
  }
}
