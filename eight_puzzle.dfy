/**
 * EightPuzzle.py: the puzzle class over the 3x3 goal, whose blank is the
 * value 9. Its constructor also takes `hash(puzzle)`.
 */
module EightPuzzle {
  import opened PyPuzzle

  /** The class attribute `goal`. */
  const Goal: Grid := [[1, 2, 3], [4, 5, 6], [7, 8, 9]]

  /** The class attribute `blank`. */
  const Blank := 9

  /** The class object before any instance exists; it hashes every puzzle it is built from. */
  method NewClass() returns (c: PuzzleClass)
    ensures fresh(c) && c.goal == Goal && c.blank == Blank && c.hashesPuzzle && c.n == 0 && c.tiles == []
  {
    c := new PuzzleClass(Goal, Blank, true);
  }

  /** The class attributes once a 3x3 puzzle has been constructed. */
  function Attrs3(): Attrs {
    Attrs(Goal, Blank, 3, TileList(3))
  }

  lemma GoalIsOrdered()
    ensures Goal == OrderedGrid(3)
  {
    var g := OrderedGrid(3);
    assert g[0] == [1, 2, 3] && g[1] == [4, 5, 6] && g[2] == [7, 8, 9];
  }

  /**
   * On every well-formed 3x3 puzzle, `goal_test` raises nothing and holds
   * exactly when the puzzle is the goal.
   */
  lemma GoalTestExactlyOnGoal(p: Grid)
    requires WellFormed(p, 3)
    ensures GoalTest(Attrs3(), p) == Ok(p == Goal)
  {
    GoalIsOrdered();
    OrderedGridWellFormed(3);
    GoalTestIffGoal(Attrs3(), p);
  }

  /**
   * The squareness check does not reject a ragged puzzle: two rows of three
   * and one cells whose values mark all four slots pass validation.
   */
  lemma RaggedPuzzleValidates()
    ensures Validation(2, [[1, 2, 3], [4]]) == Ok([[1, 2, 3], [4]])
  {
    var p: Grid := [[1, 2, 3], [4]];
    assert RowInRange(2, p[0]) && RowInRange(2, p[1]);
    assert p[0][..2] == [1, 2] && [1, 2][..1] == [1] && [1][..0] == [];
    assert RowSlots(2, [1]) == {0};
    assert RowSlots(2, [1, 2]) == {0, 1};
    assert RowSlots(2, p[0]) == {0, 1, 2};
    assert p[1][..0] == [];
    assert RowSlots(2, p[1]) == {3};
    assert MarkedSlots(2, p, 2) == {0, 1, 2, 3};
  }

  /** The goal with a 0 where the blank 9 belongs. */
  const ZeroBlank: Grid := [[1, 2, 3], [4, 5, 6], [7, 8, 0]]

  lemma RowSlotsOfThree(n: nat, a: int, b: int, c: int)
    requires Slot(n, a).Ok? && Slot(n, b).Ok? && Slot(n, c).Ok?
    ensures RowInRange(n, [a, b, c])
    ensures RowSlots(n, [a, b, c]) == {Slot(n, a).value, Slot(n, b).value, Slot(n, c).value}
  {
    assert [a, b, c][..2] == [a, b] && [a, b][..1] == [a] && [a][..0] == [];
    assert RowSlots(n, [a]) == {Slot(n, a).value};
    assert RowSlots(n, [a, b]) == {Slot(n, a).value, Slot(n, b).value};
  }

  /**
   * A 0 marks `indArray[-1]`, the slot of 9, so a puzzle with 0 for its
   * blank passes validation.
   */
  lemma ZeroBlankValidates()
    ensures Validation(3, ZeroBlank) == Ok(ZeroBlank)
  {
    var p := ZeroBlank;
    RowSlotsOfThree(3, 1, 2, 3);
    RowSlotsOfThree(3, 4, 5, 6);
    RowSlotsOfThree(3, 7, 8, 0);
    assert MarkedSlots(3, p, 3) == {0, 1, 2, 3, 4, 5, 6, 7, 8};
  }

  /**
   * The constructor then fails in `movables` on that puzzle: `find_col`
   * looks for the blank 9 in the last row and `index` raises ValueError.
   */
  lemma ZeroBlankFailsInMovables()
    ensures MovablesOf(Attrs3(), ZeroBlank, TileList(3)) == Err(ValueError)
  {
    var p := ZeroBlank;
    var k := Attrs3();
    assert 1 in p[0];
    assert RowOf(p, 3, 1) == Ok(1);
    assert 9 !in p[0] && 9 !in p[1] && 9 !in p[2];
    assert RowOf(p, 3, 9) == Ok(0);
    assert DistanceBetween(k, p, 1, 9) == Err(ValueError);
    var ts := TileList(3);
    assert ts[..1] == [1] && [1][..0] == [];
    assert MovablesOf(k, p, ts[..1]) == Err(ValueError);
    MovablesErrorSticks(k, p, ts, 1);
  }
}
