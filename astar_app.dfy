/**
 * The A* app object (a-star/script.js, class SlidingPuzzleAStar): its board,
 * the selected heuristic, the search statistics it keeps, and the search
 * loop `aStar`.
 *
 * The loop's `await` is where the user's Stop button can take effect: it is
 * modelled by `keepSolving`, consulted at exactly those points (every 100th
 * expansion); a false answer clears `isSolving`.
 */
module AStarApp {
  import opened Puzzle
  import opened Heuristics
  import opened SearchNodes
  import opened AStar

  class SlidingPuzzleAStar {
    const board: Board
    var isSolving: bool
    var solution: Option<seq<Move>>
    var nodesExplored: nat
    var nodesInQueue: nat
    var heuristicFunction: string

    ghost predicate Valid()
      reads this`heuristicFunction, board
    {
      board.Valid() && heuristicFunction != "euclidean"
    }

    /** The constructor: a solved 3x3 board, Manhattan distance, no search yet. */
    constructor ()
      ensures Valid() && fresh(board)
      ensures board.size == 3 && board.puzzle == SolvedGrid(3) && board.emptyPos == Pos(2, 2) && board.moveCount == 0
      ensures !isSolving && solution.None? && nodesExplored == 0 && nodesInQueue == 0
      ensures heuristicFunction == "manhattan"
    {
      board := new Board();
      isSolving := false;
      solution := None;
      nodesExplored := 0;
      nodesInQueue := 0;
      heuristicFunction := "manhattan";
    }

    /** `resetSearch`: forgets the last solution and the statistics. */
    method ResetSearch()
      modifies this
      ensures solution.None? && nodesExplored == 0 && nodesInQueue == 0
      ensures isSolving == old(isSolving) && heuristicFunction == old(heuristicFunction)
    {
      solution := None;
      nodesExplored := 0;
      nodesInQueue := 0;
    }

    /** `onPuzzleSizeChange`: the new size, a reset search and the solved board of that size. */
    method OnPuzzleSizeChange(size: nat)
      requires Valid() && size >= 1
      modifies this, board
      ensures Valid() && board.size == size
      ensures board.puzzle == SolvedGrid(size) && board.emptyPos == Pos(size - 1, size - 1)
      ensures solution.None? && nodesExplored == 0 && nodesInQueue == 0
      ensures heuristicFunction == old(heuristicFunction) && isSolving == old(isSolving)
      ensures board.moveCount == old(board.moveCount)
    {
      board.size := size;
      ResetSearch();
      board.GenerateSolvedPuzzle();
    }

    /** `onHeuristicChange`. */
    method OnHeuristicChange(name: string)
      requires Valid() && name != "euclidean"
      modifies this
      ensures Valid() && heuristicFunction == name
      ensures solution == old(solution) && nodesExplored == old(nodesExplored) && nodesInQueue == old(nodesInQueue)
      ensures isSolving == old(isSolving)
    {
      heuristicFunction := name;
    }

    /**
     * `newPuzzle`: the goal board, shuffled by a number of random moves that
     * depends on the size; the ghost `trail` shows the new board is reachable
     * from the goal, so undoing it solves the board.
     */
    method NewPuzzle(random: nat -> Unit) returns (ghost trail: seq<Move>)
      requires Valid()
      modifies this, board
      ensures Valid() && board.size == old(board.size) && board.moveCount == 0
      ensures Replay(board.size, SolvedGrid(board.size), Pos(board.size - 1, board.size - 1), trail) == Some((board.puzzle, board.emptyPos))
      ensures Replay(board.size, board.puzzle, board.emptyPos, Undo(Pos(board.size - 1, board.size - 1), trail)) ==
        Some((SolvedGrid(board.size), Pos(board.size - 1, board.size - 1)))
      ensures solution.None? && nodesExplored == 0 && nodesInQueue == 0
      ensures heuristicFunction == old(heuristicFunction) && isSolving == old(isSolving)
    {
      board.GenerateSolvedPuzzle();
      var size := board.size;
      var shuffleMoves := if size == 3 then 25 else if size == 4 then 50 else if size == 5 then 50 else 200;
      trail := board.ShufflePuzzle(shuffleMoves, random);
      board.moveCount := 0;
      ResetSearch();
      ShuffleSolvable(size, trail);
    }

    /**
     * `aStar`: best-first search from the current board. A returned path is the
     * path of a popped node whose board is solved, so replaying it on the board
     * reaches the goal. No result means the open list ran empty, the user
     * stopped the search, or more than SearchLimit nodes were expanded.
     * The search only stops for the user at a wait, once every 100
     * expansions, when `keepSolving` says no. `search` is the search that
     * ran, started from the board. The board itself is not changed.
     */
    method AStar(keepSolving: nat -> bool) returns (result: Option<seq<Move>>, ghost search: Search)
      requires Valid()
      modifies this`isSolving, this`solution, this`nodesExplored, this`nodesInQueue
      ensures Valid() && heuristicFunction == old(heuristicFunction)
      ensures result.Some? ==> solution == result
      ensures result.Some? ==>
        var r := Replay(board.size, board.puzzle, board.emptyPos, result.value);
        r.Some? && Solved(board.size, r.value.0)
      ensures result.None? ==> solution == old(solution)
      ensures fresh(search) && search.Valid() && search.size == board.size && search.heuristic == heuristicFunction
      ensures search.start == board.puzzle && search.startEmpty == board.emptyPos
      ensures result.None? ==> |search.open| == 0 || !isSolving || nodesExplored > SearchLimit
      ensures result.None? && |search.open| == 0 ==> NoPathSolves(board.size, board.puzzle, board.emptyPos)
      ensures old(isSolving) && !isSolving ==> nodesExplored % 100 == 0 && !keepSolving(nodesExplored)
      ensures old(isSolving) && (forall k :: keepSolving(k)) ==> isSolving
      ensures nodesExplored <= SearchLimit + 1
      ensures isSolving ==> old(isSolving)
      ensures result.Some? ==> isSolving
      ensures !old(isSolving) ==> result.None? && nodesExplored == 0
    {
      var s := new Search(board.size, heuristicFunction, board.puzzle, board.emptyPos);
      search := s;
      nodesExplored := 0;
      var found := SearchLoop(s, keepSolving);
      if found.Some? {
        var path := RecordSolution(s, found.value);
        result := Some(path);
      } else {
        result := None;
        if |s.open| == 0 {
          FrontierExhausted(s);
        }
      }
    }

    /**
     * The `while` loop of `aStar` on search `s`: rounds run while the open
     * list is not empty and solving is on, up to SearchLimit expansions, with
     * a wait every 100 expansions where `keepSolving` can stop the search.
     * `found` is the popped node whose board is solved, if any; otherwise the
     * search keeps its frontier and the loop ended for one of its reasons.
     */
    method SearchLoop(s: Search, keepSolving: nat -> bool) returns (found: Option<nat>)
      requires s.Valid() && s.Frontier() && nodesExplored == 0
      modifies this`isSolving, this`nodesExplored, this`nodesInQueue, s
      ensures s.Valid()
      ensures found.Some? ==> found.value < |s.nodes| && Solved(s.size, s.nodes[found.value].puzzle) && isSolving
      ensures found.None? ==> s.Frontier() && (|s.open| == 0 || !isSolving || nodesExplored > SearchLimit)
      ensures old(isSolving) && !isSolving ==> nodesExplored % 100 == 0 && !keepSolving(nodesExplored)
      ensures nodesExplored <= SearchLimit + 1
      ensures isSolving ==> old(isSolving)
      ensures !old(isSolving) ==> found.None? && nodesExplored == 0
    {
      found := None;
      while |s.open| > 0 && isSolving
        invariant s.Valid() && s.Frontier()
        invariant nodesExplored <= SearchLimit
        invariant isSolving ==> old(isSolving)
        invariant !old(isSolving) ==> nodesExplored == 0
        invariant old(isSolving) && !isSolving ==> nodesExplored % 100 == 0 && !keepSolving(nodesExplored)
        decreases SearchLimit + 1 - nodesExplored
      {
        var current, solved := SearchRound(s);
        if solved {
          found := Some(current);
          return;
        }
        if nodesExplored % 100 == 0 {
          if !keepSolving(nodesExplored) {
            isSolving := false;
          }
        }
        if nodesExplored > SearchLimit {
          break;
        }
      }
    }

    /**
     * One round of the `aStar` loop up to its wait: the search takes a step,
     * `nodesExplored` counts it and `nodesInQueue` is the size of the open
     * list right after the pop. `solved` tells whether the popped node's board
     * is solved, in which case the arena is as it was.
     */
    method SearchRound(search: Search) returns (current: nat, solved: bool)
      requires search.Valid() && |search.open| > 0
      modifies this`nodesExplored, this`nodesInQueue, search
      ensures search.Valid() && nodesExplored == old(nodesExplored) + 1 && nodesInQueue + 1 == |old(search.open)|
      ensures current < |old(search.nodes)| && current < |search.nodes|
      ensures solved <==> Solved(search.size, old(search.nodes)[current].puzzle)
      ensures solved ==> search.nodes == old(search.nodes)
      ensures !solved && old(search.Frontier()) ==> search.Frontier()
    {
      var queued;
      current, queued, solved := search.Step();
      nodesExplored := nodesExplored + 1;
      nodesInQueue := queued;
    }

    /**
     * The solved branch of `aStar`: the path of the popped node becomes the
     * solution. It replays on the start board of the search and ends solved.
     */
    method RecordSolution(search: Search, current: nat) returns (path: seq<Move>)
      requires search.Valid() && current < |search.nodes| && Solved(search.size, search.nodes[current].puzzle)
      modifies this`solution
      ensures solution == Some(path)
      ensures var r := Replay(search.size, search.start, search.startEmpty, path); r.Some? && Solved(search.size, r.value.0)
    {
      path := ReconstructPath(search.nodes, current);
      PathReplays(search.size, search.heuristic, search.start, search.startEmpty, search.nodes, current);
      solution := Some(path);
    }

    /**
     * `animateSolution`: plays `path` on the board one move at a time, stopping
     * as soon as the board is solved or the user stops. The waits before the
     * first move and after each move are where Stop can take effect: the
     * answer of `keepAnimating(k)` after `k` moves. Whatever was played is a
     * prefix of `path`, so the rest of `path` still leads where all of it led.
     */
    method AnimateSolution(path: seq<Move>, keepAnimating: nat -> bool) returns (ghost played: nat)
      requires Valid() && isSolving
      requires Replay(board.size, board.puzzle, board.emptyPos, path).Some?
      modifies this, board
      ensures Valid() && board.size == old(board.size) && heuristicFunction == old(heuristicFunction)
      ensures solution == old(solution)
      ensures played <= |path| && board.moveCount == old(board.moveCount) + played
      ensures Replay(board.size, board.puzzle, board.emptyPos, path[played..]) ==
        Replay(board.size, old(board.puzzle), old(board.emptyPos), path)
      ensures played < |path| ==> Solved(board.size, board.puzzle) || !isSolving
      ensures (forall k :: 0 <= k <= |path| ==> keepAnimating(k)) ==> isSolving
    {
      if !keepAnimating(0) {
        isSolving := false;
      }
      var i := 0;
      while i < |path| && isSolving
        invariant 0 <= i <= |path|
        invariant board.Valid() && board.size == old(board.size) && board.moveCount == old(board.moveCount) + i
        invariant heuristicFunction == old(heuristicFunction) && solution == old(solution)
        invariant Replay(board.size, board.puzzle, board.emptyPos, path[i..]) ==
          Replay(board.size, old(board.puzzle), old(board.emptyPos), path)
        invariant (forall k :: 0 <= k <= i ==> keepAnimating(k)) ==> isSolving
      {
        var m := path[i];
        assert path[i..][1..] == path[i + 1..];
        var moved := board.MakeMove(m.to.row, m.to.col, true);
        i := i + 1;
        var solved := IsSolved(board.size, board.puzzle);
        if solved {
          break;
        }
        if !keepAnimating(i) {
          isSolving := false;
        }
      }
      played := i;
    }

    /**
     * `startSolving`: nothing happens on a solved board; otherwise a fresh
     * search runs, and a path it finds is animated. Unless the user stops the
     * animation, the board ends solved. `isSolving` is cleared at the end.
     * Without a path on an unsolved board, the search proved that no list of
     * moves solves it, or the user stopped it at a wait, or it expanded more
     * than SearchLimit nodes.
     */
    method StartSolving(keepSolving: nat -> bool, keepAnimating: nat -> bool) returns (result: Option<seq<Move>>)
      requires Valid()
      modifies this, board
      ensures Valid() && board.size == old(board.size) && heuristicFunction == old(heuristicFunction)
      ensures Solved(old(board.size), old(board.puzzle)) ==>
        result.None? && isSolving == old(isSolving) && solution == old(solution) &&
        board.puzzle == old(board.puzzle) && board.emptyPos == old(board.emptyPos) && board.moveCount == old(board.moveCount)
      ensures !Solved(old(board.size), old(board.puzzle)) ==> !isSolving && solution == result
      ensures !Solved(old(board.size), old(board.puzzle)) && result.None? ==>
        NoPathSolves(board.size, board.puzzle, board.emptyPos) || !keepSolving(nodesExplored) || nodesExplored > SearchLimit
      ensures result.None? ==> board.puzzle == old(board.puzzle) && board.emptyPos == old(board.emptyPos)
      ensures result.Some? ==>
        var r := Replay(board.size, old(board.puzzle), old(board.emptyPos), result.value);
        r.Some? && Solved(board.size, r.value.0)
      ensures result.Some? && (forall k :: 0 <= k <= |result.value| ==> keepAnimating(k)) ==>
        Solved(board.size, board.puzzle)
    {
      var alreadySolved := IsSolved(board.size, board.puzzle);
      if alreadySolved {
        return None;
      }
      isSolving := true;
      ResetSearch();
      var found;
      ghost var search;
      found, search := AStar(keepSolving);
      result := found;
      if found.Some? && isSolving {
        ghost var played := AnimateSolution(found.value, keepAnimating);
        if played == |found.value| {
          assert found.value[played..] == [];
        }
      }
      isSolving := false;
    }
  }
}
