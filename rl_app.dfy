/**
 * The Q-learning app object (rl/script.js, class SlidingPuzzleRL): its board,
 * the stored training start, the Q-table, the best solution found so far and
 * the training counters, with the methods that change them.
 *
 * The best solution is kept across `newPuzzle`, as in the source: the ghost
 * field `bestStart` records the training board it was validated on, which
 * after a new puzzle need not be the current one.
 *
 * `Math.random()` is the oracle `random(episode, step, draw)` (draw 0 is the
 * epsilon test, draw 1 the exploration pick); the Stop button is the oracle
 * `keepTraining`, consulted at the training loop's `await`.
 */
module RLApp {
  import opened Puzzle
  import opened Heuristics
  import opened QLearning

  class SlidingPuzzleRL {
    const board: Board
    var isTraining: bool
    var isSolving: bool
    var qTable: QTable
    var bestSolution: Option<seq<Move>>
    var bestSolutionMoves: Option<nat>  // None stands for Infinity
    var trainingPuzzle: Option<Grid>
    var trainingEmptyPos: Option<Pos>
    var episodes: nat
    var successCount: nat
    ghost var bestStart: (Grid, Pos)

    ghost predicate Valid()
      reads this`trainingPuzzle, this`trainingEmptyPos, this`bestSolution, this`bestSolutionMoves, this`bestStart, board
    {
      board.Valid() &&
      trainingPuzzle.Some? == trainingEmptyPos.Some? &&
      (trainingPuzzle.Some? ==> Coherent(board.size, trainingPuzzle.value, trainingEmptyPos.value)) &&
      bestSolution.Some? == bestSolutionMoves.Some? &&
      (bestSolution.Some? ==> trainingPuzzle.Some?) &&
      (bestSolution.Some? ==>
        |bestSolution.value| == bestSolutionMoves.value &&
        Solves(board.size, bestStart.0, bestStart.1, bestSolution.value))
    }

    /** The constructor: a solved 3x3 board, an empty Q-table, no training board and no best solution. */
    constructor ()
      ensures Valid() && fresh(board)
      ensures board.size == 3 && board.puzzle == SolvedGrid(3) && board.emptyPos == Pos(2, 2) && board.moveCount == 0
      ensures !isTraining && !isSolving && qTable == map[] && bestSolution.None? && bestSolutionMoves.None?
      ensures trainingPuzzle.None? && trainingEmptyPos.None? && episodes == 0 && successCount == 0
    {
      board := new Board();
      isTraining := false;
      isSolving := false;
      qTable := map[];
      bestSolution := None;
      bestSolutionMoves := None;
      trainingPuzzle := None;
      trainingEmptyPos := None;
      episodes := 0;
      successCount := 0;
    }

    /** `resetAI`: forgets everything learnt and the training board. */
    method ResetAI()
      modifies this
      ensures qTable == map[] && bestSolution.None? && bestSolutionMoves.None?
      ensures trainingPuzzle.None? && trainingEmptyPos.None? && episodes == 0 && successCount == 0
      ensures isTraining == old(isTraining) && isSolving == old(isSolving)
    {
      qTable := map[];
      bestSolution := None;
      bestSolutionMoves := None;
      trainingPuzzle := None;
      trainingEmptyPos := None;
      episodes := 0;
      successCount := 0;
    }

    /** `onPuzzleSizeChange`: the new size, a reset learner and the solved board of that size. */
    method OnPuzzleSizeChange(size: nat)
      requires Valid() && size >= 1
      modifies this, board
      ensures Valid() && board.size == size
      ensures board.puzzle == SolvedGrid(size) && board.emptyPos == Pos(size - 1, size - 1)
      ensures qTable == map[] && bestSolution.None? && trainingPuzzle.None? && episodes == 0 && successCount == 0
      ensures isTraining == old(isTraining) && isSolving == old(isSolving) && board.moveCount == old(board.moveCount)
    {
      board.size := size;
      ResetAI();
      board.GenerateSolvedPuzzle();
    }

    /**
     * `shufflePuzzle`: the board's random legal moves, after which the board
     * is stored as the training start.
     */
    method ShufflePuzzle(moves: nat, random: nat -> Unit) returns (ghost trail: seq<Move>)
      requires Valid()
      modifies this`trainingPuzzle, this`trainingEmptyPos, board
      ensures Valid() && board.size == old(board.size) && board.moveCount == old(board.moveCount)
      ensures Replay(board.size, old(board.puzzle), old(board.emptyPos), trail) == Some((board.puzzle, board.emptyPos))
      ensures trainingPuzzle == Some(board.puzzle) && trainingEmptyPos == Some(board.emptyPos)
      ensures qTable == old(qTable) && bestSolution == old(bestSolution) && bestSolutionMoves == old(bestSolutionMoves)
      ensures episodes == old(episodes) && successCount == old(successCount)
      ensures isTraining == old(isTraining) && isSolving == old(isSolving)
    {
      trail := board.ShufflePuzzle(moves, random);
      trainingPuzzle := Some(board.puzzle);
      trainingEmptyPos := Some(board.emptyPos);
    }

    /**
     * `newPuzzle`: the goal board shuffled by 20, 50 or 100 random moves
     * depending on the size. The new training board can be solved by undoing
     * the shuffle. The Q-table and the best solution are kept.
     */
    method NewPuzzle(random: nat -> Unit) returns (ghost trail: seq<Move>)
      requires Valid()
      modifies this`trainingPuzzle, this`trainingEmptyPos, board
      ensures Valid() && board.size == old(board.size) && board.moveCount == 0
      ensures trainingPuzzle == Some(board.puzzle) && trainingEmptyPos == Some(board.emptyPos)
      ensures Replay(board.size, SolvedGrid(board.size), Pos(board.size - 1, board.size - 1), trail) == Some((board.puzzle, board.emptyPos))
      ensures Replay(board.size, board.puzzle, board.emptyPos, Undo(Pos(board.size - 1, board.size - 1), trail)) ==
        Some((SolvedGrid(board.size), Pos(board.size - 1, board.size - 1)))
      ensures qTable == old(qTable) && bestSolution == old(bestSolution) && bestSolutionMoves == old(bestSolutionMoves)
      ensures isTraining == old(isTraining) && isSolving == old(isSolving)
      ensures episodes == old(episodes) && successCount == old(successCount)
    {
      board.GenerateSolvedPuzzle();
      var size := board.size;
      var shuffleMoves := if size == 3 then 20 else if size == 4 then 50 else 100;
      trail := ShufflePuzzle(shuffleMoves, random);
      ShuffleSolvable(size, trail);
      ghost var shuffled := (board.puzzle, board.emptyPos);
      board.moveCount := 0;
      assert (board.puzzle, board.emptyPos) == shuffled;
    }

    /**
     * `updateQValue`: only the entry of (state, action) changes, to the
     * temporal-difference step towards `reward` plus the discounted best Q of
     * the valid moves of the blank as it is now.
     */
    method UpdateQValue(state: seq<int>, action: Pos, reward: real, nextState: seq<int>)
      modifies this`qTable
      ensures qTable == old(qTable)[(state, action) :=
        TdUpdate(Q(old(qTable), state, action), reward, MaxQ(old(qTable), nextState, ValidMoves(board.size, board.emptyPos)))]
      ensures isTraining == old(isTraining) && bestSolution == old(bestSolution) && bestSolutionMoves == old(bestSolutionMoves)
      ensures trainingPuzzle == old(trainingPuzzle) && trainingEmptyPos == old(trainingEmptyPos)
      ensures episodes == old(episodes) && successCount == old(successCount) && bestStart == old(bestStart)
    {
      var currentQ := Q(qTable, state, action);
      var nextValidMoves := GetValidMoves(board.size, board.emptyPos);
      var maxNextQ := MaxNextQ(qTable, nextState, nextValidMoves);
      var newQ := currentQ + LearningRate * (reward + DiscountFactor * maxNextQ - currentQ);
      qTable := qTable[(state, action) := newQ];
    }

    /**
     * `validateSolution`: replays `solutionPath` on a copy of the training
     * board, rejecting the first move that is not next to the blank, and
     * accepts when the copy ends solved. Nothing is changed.
     */
    method ValidateSolution(solutionPath: seq<Move>) returns (valid: bool)
      requires Valid() && trainingPuzzle.Some?
      requires AllTargetsIn(board.size, solutionPath)
      ensures valid == Solves(board.size, trainingPuzzle.value, trainingEmptyPos.value, solutionPath)
    {
      var n := board.size;
      var testPuzzle := trainingPuzzle.value;
      var testEmpty := trainingEmptyPos.value;
      for k := 0 to |solutionPath|
        invariant Coherent(n, testPuzzle, testEmpty)
        invariant Replay(n, trainingPuzzle.value, trainingEmptyPos.value, solutionPath) ==
          Replay(n, testPuzzle, testEmpty, solutionPath[k..])
      {
        var move := solutionPath[k];
        assert solutionPath[k..][0] == move && solutionPath[k..][1..] == solutionPath[k + 1..];
        var rowDiff := Abs(move.to.row - testEmpty.row);
        var colDiff := Abs(move.to.col - testEmpty.col);
        if !((rowDiff == 1 && colDiff == 0) || (rowDiff == 0 && colDiff == 1)) {
          return false;
        }
        SlideCoherent(n, testPuzzle, testEmpty, move.to);
        testPuzzle := testPuzzle[testEmpty.row := testPuzzle[testEmpty.row][testEmpty.col := testPuzzle[move.to.row][move.to.col]]];
        testPuzzle := testPuzzle[move.to.row := testPuzzle[move.to.row][move.to.col := 0]];
        testEmpty := move.to;
      }
      assert solutionPath[|solutionPath|..] == [];
      valid := IsSolved(n, testPuzzle);
    }

    /**
     * The action of one training step: with probability `epsilon` a random
     * exploration move (avoiding the cell the blank just left), otherwise the
     * greedy action of the Q-table. Either way a valid move.
     */
    method ChooseAction(episode: nat, totalEpisodes: nat, move: nat, state: seq<int>, validMoves: seq<Pos>,
                        lastMove: Option<Pos>, random: (nat, nat, nat) -> Unit) returns (action: Pos)
      requires episode < totalEpisodes && validMoves != []
      ensures action in validMoves
      ensures random(episode, move, 0) >= Epsilon(episode, totalEpisodes) ==>
        action == validMoves[FirstMax(qTable, state, validMoves)]
      ensures random(episode, move, 0) < Epsilon(episode, totalEpisodes) ==>
        action in ExplorationMoves(validMoves, lastMove)
    {
      var epsilon := Epsilon(episode, totalEpisodes);
      if random(episode, move, 0) < epsilon {
        var explorationMoves := ExplorationMoves(validMoves, lastMove);
        action := explorationMoves[RandomIndex(random(episode, move, 1), |explorationMoves|)];
      } else {
        var best := GetBestAction(qTable, state, validMoves);
        action := best.value;
      }
    }

    /**
     * The rest of a training step: the move is made, recorded, rewarded and
     * learnt from. `lastMove` is the cell the blank left; the -2 penalty for
     * moving straight back to it is never applied (BacktrackPenaltyUnreachable).
     */
    method TakeStep(prevState: seq<int>, action: Pos) returns (step: Move, lastMove: Option<Pos>)
      requires Valid() && action in ValidMoves(board.size, board.emptyPos)
      modifies this`qTable, board
      ensures Valid() && board.size == old(board.size) && board.moveCount == old(board.moveCount)
      ensures InBounds(board.size, action) && IsValidMove(old(board.emptyPos), action.row, action.col)
      ensures board.puzzle == Slide(board.size, old(board.puzzle), old(board.emptyPos), action) && board.emptyPos == action
      ensures step.from == old(board.emptyPos) && step.to == action && lastMove == Some(old(board.emptyPos))
      ensures isTraining == old(isTraining) && bestSolution == old(bestSolution) && bestSolutionMoves == old(bestSolutionMoves)
      ensures trainingPuzzle == old(trainingPuzzle) && trainingEmptyPos == old(trainingEmptyPos)
      ensures episodes == old(episodes) && successCount == old(successCount) && bestStart == old(bestStart)
      ensures qTable == old(qTable)[(prevState, action) :=
        TdUpdate(Q(old(qTable), prevState, action), Reward(board.size, board.puzzle),
                 MaxQ(old(qTable), Flatten(board.puzzle), ValidMoves(board.size, board.emptyPos)))]
    {
      var n := board.size;
      var oldEmpty := board.emptyPos;
      ValidMovesExact(n, oldEmpty);
      BacktrackPenaltyUnreachable(n, oldEmpty, action);
      var moved := board.MakeMove(action.row, action.col, false);
      step := Move(oldEmpty, action, board.puzzle[oldEmpty.row][oldEmpty.col]);
      lastMove := Some(oldEmpty);
      var newState := Flatten(board.puzzle);
      var reward := CalculateReward(n, board.puzzle);
      if lastMove.Some? && action == lastMove.value {
        reward := reward - 2.0;
      }
      UpdateQValue(prevState, action, reward, newState);
    }

    /**
     * A solved episode: one more success, and the path becomes the best
     * solution when it validates and is strictly shorter than the best so far.
     */
    method RecordSuccess(solutionPath: seq<Move>)
      requires Valid() && trainingPuzzle.Some?
      requires AllTargetsIn(board.size, solutionPath)
      modifies this`successCount, this`bestSolution, this`bestSolutionMoves, this`bestStart
      ensures Valid() && successCount == old(successCount) + 1
      ensures isTraining == old(isTraining) && qTable == old(qTable) && episodes == old(episodes)
      ensures trainingPuzzle == old(trainingPuzzle) && trainingEmptyPos == old(trainingEmptyPos)
      ensures old(bestSolutionMoves).Some? ==> bestSolutionMoves.Some? && bestSolutionMoves.value <= old(bestSolutionMoves).value
      ensures Solves(board.size, trainingPuzzle.value, trainingEmptyPos.value, solutionPath) ==>
        bestSolutionMoves.Some? && bestSolutionMoves.value <= |solutionPath|
      ensures bestSolution == old(bestSolution) ==> bestStart == old(bestStart)
      ensures bestSolution != old(bestSolution) ==>
        bestSolution == Some(solutionPath) && bestSolutionMoves == Some(|solutionPath|) &&
        bestStart == (trainingPuzzle.value, trainingEmptyPos.value) &&
        Solves(board.size, trainingPuzzle.value, trainingEmptyPos.value, solutionPath) &&
        (old(bestSolutionMoves).Some? ==> |solutionPath| < old(bestSolutionMoves).value)
    {
      successCount := successCount + 1;
      var valid := ValidateSolution(solutionPath);
      if valid && (bestSolutionMoves.None? || |solutionPath| < bestSolutionMoves.value) {
        bestSolutionMoves := Some(|solutionPath|);
        bestSolution := Some(solutionPath);
        bestStart := (trainingPuzzle.value, trainingEmptyPos.value);
      }
    }

    /**
     * One step of an episode up to the solved test: the state key, the valid
     * moves (none only on a 1x1 board, where the episode stops), the chosen
     * action, and the move with its Q-update. The step is appended to `path`,
     * which keeps replaying from the training board to the current one.
     * The move is the greedy one when the draw is at least epsilon, and an
     * exploration move otherwise.
     */
    method TrainStep(episode: nat, totalEpisodes: nat, move: nat, lastMove: Option<Pos>,
                     random: (nat, nat, nat) -> Unit, ghost start: Grid, ghost startEmpty: Pos, ghost table0: QTable, path: seq<Move>)
      returns (path': seq<Move>, lastMove': Option<Pos>, stuck: bool)
      requires Valid() && episode < totalEpisodes && Shaped(board.size, start) && InBounds(board.size, startEmpty)
      requires AllTargetsIn(board.size, path) && Replay(board.size, start, startEmpty, path) == Some((board.puzzle, board.emptyPos))
      requires qTable == LearnAll(table0, board.size, start, startEmpty, path)
      modifies this`qTable, board
      ensures Valid() && board.size == old(board.size) && board.moveCount == old(board.moveCount)
      ensures isTraining == old(isTraining) && bestSolution == old(bestSolution) && bestSolutionMoves == old(bestSolutionMoves)
      ensures trainingPuzzle == old(trainingPuzzle) && trainingEmptyPos == old(trainingEmptyPos)
      ensures episodes == old(episodes) && successCount == old(successCount) && bestStart == old(bestStart)
      ensures stuck <==> board.size < 2
      ensures stuck ==> path' == path && board.puzzle == old(board.puzzle)
      ensures !stuck ==> |path'| == |path| + 1 && path'[..|path|] == path
      ensures AllTargetsIn(board.size, path') && Replay(board.size, start, startEmpty, path') == Some((board.puzzle, board.emptyPos))
      ensures stuck ==> qTable == old(qTable)
      ensures !stuck ==> qTable == Learn(old(qTable), board.size, old(board.puzzle), path'[|path|].to, board.puzzle)
      ensures qTable == LearnAll(table0, board.size, start, startEmpty, path')
      ensures !stuck && random(episode, move, 0) >= Epsilon(episode, totalEpisodes) ==>
        var moves := ValidMoves(board.size, old(board.emptyPos));
        moves != [] && path'[|path|].to == moves[FirstMax(old(qTable), Flatten(old(board.puzzle)), moves)]
      ensures !stuck && random(episode, move, 0) < Epsilon(episode, totalEpisodes) ==>
        path'[|path|].to in ExplorationMoves(ValidMoves(board.size, old(board.emptyPos)), lastMove)
    {
      var n := board.size;
      var state := Flatten(board.puzzle);
      var validMoves := GetValidMoves(n, board.emptyPos);
      if n >= 2 {
        ValidMovesNonEmpty(n, board.emptyPos);
      } else {
        ValidMovesNone(n, board.emptyPos);
      }
      if |validMoves| == 0 {
        return path, lastMove, true;
      }
      var action := ChooseAction(episode, totalEpisodes, move, state, validMoves, lastMove, random);
      var prevState := state;
      ghost var before, beforeEmpty := board.puzzle, board.emptyPos;
      var step;
      step, lastMove' := TakeStep(prevState, action);
      ReplayStep(n, start, startEmpty, path, before, beforeEmpty, step);
      LearnAllSnoc(table0, n, start, startEmpty, path, before, beforeEmpty, step);
      AllTargetsInSnoc(n, path, step);
      path' := path + [step];
      stuck := false;
    }

    /**
     * One episode of `startTraining` (the body of its episode loop): from the
     * training board, up to MaxMoves steps, each an epsilon-greedy move
     * followed by a Q-update, ending early when the board is solved. The
     * moves made are `path`. A solved episode counts as a success, and its
     * path becomes the best solution when it validates and is strictly
     * shorter than the best so far.
     */
    method RunEpisode(episode: nat, totalEpisodes: nat, random: (nat, nat, nat) -> Unit) returns (ghost path: seq<Move>)
      requires Valid() && trainingPuzzle.Some? && episode < totalEpisodes
      modifies this, board
      ensures Valid() && board.size == old(board.size) && board.moveCount == old(board.moveCount)
      ensures trainingPuzzle == old(trainingPuzzle) && trainingEmptyPos == old(trainingEmptyPos)
      ensures episodes == episode + 1 && isTraining == old(isTraining)
      ensures Replay(board.size, trainingPuzzle.value, trainingEmptyPos.value, path) == Some((board.puzzle, board.emptyPos))
      ensures |path| <= MaxMoves(board.size)
      ensures qTable == LearnAll(old(qTable), board.size, trainingPuzzle.value, trainingEmptyPos.value, path)
      ensures board.size >= 2 && |path| < MaxMoves(board.size) ==> |path| > 0 && Solved(board.size, board.puzzle)
      ensures successCount == old(successCount) + (if |path| > 0 && Solved(board.size, board.puzzle) then 1 else 0)
      ensures old(bestSolutionMoves).Some? ==> bestSolutionMoves.Some? && bestSolutionMoves.value <= old(bestSolutionMoves).value
      ensures |path| > 0 && Solved(board.size, board.puzzle) ==> bestSolutionMoves.Some? && bestSolutionMoves.value <= |path|
      ensures bestSolution == old(bestSolution) ==> bestStart == old(bestStart)
      ensures bestSolution != old(bestSolution) ==>
        bestSolution == Some(path) && bestSolutionMoves == Some(|path|) &&
        bestStart == (trainingPuzzle.value, trainingEmptyPos.value) &&
        Solves(board.size, trainingPuzzle.value, trainingEmptyPos.value, path) &&
        (old(bestSolutionMoves).Some? ==> |path| < old(bestSolutionMoves).value)
    {
      ghost var best0, start0 := bestSolution, bestStart;
      var solutionPath, solved := PlayEpisode(episode, totalEpisodes, random);
      assert bestSolution == best0 && bestStart == start0;
      ghost var reached := (board.puzzle, board.emptyPos);
      if solved {
        RecordSuccess(solutionPath);
      }
      assert (board.puzzle, board.emptyPos) == reached;
      // The source sets the counter before the episode; nothing in between reads it.
      episodes := episode + 1;
      path := solutionPath;
    }

    /**
     * The moves of one episode: the board is reset to the training board, then
     * up to MaxMoves steps are taken, each an epsilon-greedy move followed by
     * a Q-update, ending early when the board is solved (`solved`) or the
     * blank has no move. Only the board and the Q-table change.
     */
    method PlayEpisode(episode: nat, totalEpisodes: nat, random: (nat, nat, nat) -> Unit) returns (path: seq<Move>, solved: bool)
      requires Valid() && trainingPuzzle.Some? && episode < totalEpisodes
      modifies this`qTable, board
      ensures Valid() && board.size == old(board.size) && board.moveCount == old(board.moveCount)
      ensures AllTargetsIn(board.size, path)
      ensures Replay(board.size, trainingPuzzle.value, trainingEmptyPos.value, path) == Some((board.puzzle, board.emptyPos))
      ensures |path| <= MaxMoves(board.size)
      ensures qTable == LearnAll(old(qTable), board.size, trainingPuzzle.value, trainingEmptyPos.value, path)
      ensures solved <==> |path| > 0 && Solved(board.size, board.puzzle)
      ensures solved ==> Solves(board.size, trainingPuzzle.value, trainingEmptyPos.value, path)
      ensures board.size >= 2 && |path| < MaxMoves(board.size) ==> solved
    {
      board.Load(trainingPuzzle.value, trainingEmptyPos.value);
      var n := board.size;
      ghost var start, startEmpty := trainingPuzzle.value, trainingEmptyPos.value;
      path := [];
      solved := false;
      var lastMove: Option<Pos> := None;
      var maxMoves := if n == 3 then 200 else if n == 4 then 500 else 1000;
      for move := 0 to maxMoves
        invariant Valid() && board.size == n && board.moveCount == old(board.moveCount)
        invariant |path| == move && !solved
        invariant AllTargetsIn(n, path)
        invariant Replay(n, start, startEmpty, path) == Some((board.puzzle, board.emptyPos))
        invariant move > 0 ==> !Solved(n, board.puzzle)
        invariant qTable == LearnAll(old(qTable), n, start, startEmpty, path)
      {
        var stuck;
        path, lastMove, stuck := TrainStep(episode, totalEpisodes, move, lastMove, random, start, startEmpty, old(qTable), path);
        if stuck {
          break;
        }
        solved := IsSolved(n, board.puzzle);
        if solved {
          break;
        }
      }
    }

    /**
     * The record of training so far: `runs` are the moves of the episodes
     * played since the table was cleared, each an episode run on the training
     * board, and the counters and the Q-table are what they produce.
     */
    ghost predicate TrainedOn(runs: seq<seq<Move>>)
      reads this`trainingPuzzle, this`trainingEmptyPos, this`episodes, this`qTable, this`successCount, board
    {
      trainingPuzzle.Some? && trainingEmptyPos.Some? &&
      Coherent(board.size, trainingPuzzle.value, trainingEmptyPos.value) &&
      var n, g, e := board.size, trainingPuzzle.value, trainingEmptyPos.value;
      episodes == |runs| &&
      qTable == LearnEpisodes(map[], n, g, e, runs) &&
      (forall j :: 0 <= j < |runs| ==> EpisodeRun(n, g, e, runs[j])) &&
      successCount == SolvedRuns(n, g, e, runs)
    }

    /**
     * One round of the `startTraining` loop: episode `episode`, then the wait
     * after episode 0, every 1000th episode and the last one, where Stop
     * takes effect as the answer of `keepTraining(episode)`. The episode's
     * moves `path` extend the record of training.
     */
    method TrainingRound(episode: nat, totalEpisodes: nat, keepTraining: nat -> bool, random: (nat, nat, nat) -> Unit,
                         ghost runs: seq<seq<Move>>) returns (ghost path: seq<Move>)
      requires Valid() && TrainedOn(runs) && episode == |runs| && episode < totalEpisodes
      modifies this, board
      ensures Valid() && TrainedOn(runs + [path]) && board.size == old(board.size)
      ensures trainingPuzzle == old(trainingPuzzle) && trainingEmptyPos == old(trainingEmptyPos)
      ensures isTraining ==> old(isTraining)
      ensures old(isTraining) && keepTraining(episode) ==> isTraining
      ensures bestSolution == old(bestSolution) ==> bestStart == old(bestStart)
      ensures old(bestSolutionMoves).Some? ==> bestSolutionMoves.Some? && bestSolutionMoves.value <= old(bestSolutionMoves).value
      ensures bestSolution != old(bestSolution) ==>
        bestStart == (trainingPuzzle.value, trainingEmptyPos.value) &&
        Solves(board.size, trainingPuzzle.value, trainingEmptyPos.value, bestSolution.value) &&
        (old(bestSolutionMoves).Some? ==> bestSolutionMoves.value < old(bestSolutionMoves).value)
    {
      ghost var n, g, e := board.size, trainingPuzzle.value, trainingEmptyPos.value;
      ghost var table0, count0 := qTable, successCount;
      path := RunEpisode(episode, totalEpisodes, random);
      TrainedSnoc(n, g, e, runs, table0, count0, path, board.puzzle, board.emptyPos);
      if episode % 1000 == 0 || episode == totalEpisodes - 1 {
        if !keepTraining(episode) {
          isTraining := false;
        }
      }
    }

    /**
     * `startTraining`: without a training board nothing happens; otherwise the
     * learner starts from an empty Q-table and runs up to `totalEpisodes`
     * episodes, stopping early only when the user stops it at one of the
     * loop's waits (after episode 0, every 1000th episode and the last one).
     * `runs` are the moves of the episodes played: each replays on the
     * training board, stays within MaxMoves and falls short of it only by
     * solving; the successes are the runs that solve, and the Q-table is
     * what they teach, in order. The best solution only ever gets shorter,
     * and a new one solves the training board.
     */
    method StartTraining(totalEpisodes: nat, keepTraining: nat -> bool, random: (nat, nat, nat) -> Unit)
      returns (ghost runs: seq<seq<Move>>)
      requires Valid()
      modifies this, board
      ensures Valid() && board.size == old(board.size)
      ensures trainingPuzzle == old(trainingPuzzle) && trainingEmptyPos == old(trainingEmptyPos)
      ensures old(trainingPuzzle).None? ==>
        isTraining == old(isTraining) && qTable == old(qTable) && episodes == old(episodes) &&
        successCount == old(successCount) && bestSolution == old(bestSolution) &&
        board.puzzle == old(board.puzzle) && board.emptyPos == old(board.emptyPos)
      ensures old(trainingPuzzle).Some? ==> !isTraining && episodes <= totalEpisodes && successCount <= episodes
      ensures old(trainingPuzzle).Some? && (forall k :: 0 <= k < totalEpisodes ==> keepTraining(k)) ==>
        episodes == totalEpisodes
      ensures old(trainingPuzzle).Some? ==>
        |runs| == episodes && qTable == LearnEpisodes(map[], board.size, trainingPuzzle.value, trainingEmptyPos.value, runs)
      ensures old(trainingPuzzle).Some? ==>
        forall j :: 0 <= j < |runs| ==> EpisodeRun(board.size, trainingPuzzle.value, trainingEmptyPos.value, runs[j])
      ensures old(trainingPuzzle).Some? ==>
        successCount == SolvedRuns(board.size, trainingPuzzle.value, trainingEmptyPos.value, runs)
      ensures old(bestSolutionMoves).Some? ==> bestSolutionMoves.Some? && bestSolutionMoves.value <= old(bestSolutionMoves).value
      ensures bestSolution != old(bestSolution) ==>
        bestStart == (trainingPuzzle.value, trainingEmptyPos.value) &&
        Solves(board.size, trainingPuzzle.value, trainingEmptyPos.value, bestSolution.value) &&
        (old(bestSolutionMoves).Some? ==> bestSolutionMoves.value < old(bestSolutionMoves).value)
    {
      runs := [];
      if trainingPuzzle.None? {
        return;
      }
      isTraining := true;
      episodes := 0;
      successCount := 0;
      qTable := map[];
      var episode := 0;
      while episode < totalEpisodes && isTraining
        invariant Valid() && TrainedOn(runs) && board.size == old(board.size)
        invariant trainingPuzzle == old(trainingPuzzle) && trainingEmptyPos == old(trainingEmptyPos)
        invariant episode <= totalEpisodes && |runs| == episode
        invariant (forall k :: 0 <= k < episode ==> keepTraining(k)) ==> isTraining
        invariant old(bestSolutionMoves).Some? ==> bestSolutionMoves.Some? && bestSolutionMoves.value <= old(bestSolutionMoves).value
        invariant bestSolution != old(bestSolution) ==>
          bestStart == (trainingPuzzle.value, trainingEmptyPos.value) &&
          Solves(board.size, trainingPuzzle.value, trainingEmptyPos.value, bestSolution.value) &&
          (old(bestSolutionMoves).Some? ==> bestSolutionMoves.value < old(bestSolutionMoves).value)
        decreases totalEpisodes - episode
      {
        ghost var path := TrainingRound(episode, totalEpisodes, keepTraining, random, runs);
        runs := runs + [path];
        episode := episode + 1;
      }
      isTraining := false;
    }

    /**
     * `startSolving`: without a best solution nothing happens; otherwise the
     * training board is loaded and the best solution played on it move by
     * move, stopping as soon as the board is solved or the user stops (the
     * answer of `keepSolving(k)` at the wait after `k` moves). When the best
     * solution was found on the current training board and the user does not
     * stop, the board ends solved.
     */
    method StartSolving(keepSolving: nat -> bool) returns (ghost played: nat)
      requires Valid()
      modifies this, board
      ensures Valid() && board.size == old(board.size)
      ensures qTable == old(qTable) && bestSolution == old(bestSolution) && bestSolutionMoves == old(bestSolutionMoves)
      ensures trainingPuzzle == old(trainingPuzzle) && trainingEmptyPos == old(trainingEmptyPos)
      ensures isTraining == old(isTraining) && episodes == old(episodes) && successCount == old(successCount)
      ensures old(bestSolution).None? ==>
        isSolving == old(isSolving) && board.puzzle == old(board.puzzle) && board.emptyPos == old(board.emptyPos) &&
        board.moveCount == old(board.moveCount)
      ensures old(bestSolution).Some? ==> !isSolving && played <= |bestSolution.value| && board.moveCount <= played
      ensures (bestSolution.Some? && bestStart == (trainingPuzzle.value, trainingEmptyPos.value) &&
               (forall k :: 0 <= k <= |bestSolution.value| ==> keepSolving(k))) ==>
        Solved(board.size, board.puzzle)
    {
      if bestSolution.None? {
        return 0;
      }
      var solution := bestSolution.value;
      isSolving := true;
      var n := board.size;
      board.Load(trainingPuzzle.value, trainingEmptyPos.value);
      board.moveCount := 0;
      ReplayTargetsIn(n, bestStart.0, bestStart.1, solution);
      if !keepSolving(0) {
        isSolving := false;
      }
      played := PlaySolution(solution, keepSolving);
      if bestStart == (trainingPuzzle.value, trainingEmptyPos.value) && (forall k :: 0 <= k <= |solution| ==> keepSolving(k)) &&
         played == |solution| {
        assert solution[played..] == [];
      }
      isSolving := false;
    }

    /**
     * The loop of `startSolving`: the moves of `solution` made on the board
     * one at a time while `isSolving` holds, stopping once the board is
     * solved; after the k-th move the user may stop (`keepSolving(k)` false).
     * When the solution replays from the board it started on, whatever was
     * played is a prefix, so the rest still leads where all of it led.
     */
    method PlaySolution(solution: seq<Move>, keepSolving: nat -> bool) returns (ghost played: nat)
      requires board.Valid() && AllTargetsIn(board.size, solution)
      modifies this`isSolving, board
      ensures board.Valid() && board.size == old(board.size)
      ensures played <= |solution| && board.moveCount <= old(board.moveCount) + played
      ensures Replay(board.size, old(board.puzzle), old(board.emptyPos), solution).Some? ==>
        Replay(board.size, board.puzzle, board.emptyPos, solution[played..]) ==
        Replay(board.size, old(board.puzzle), old(board.emptyPos), solution)
      ensures played < |solution| ==> Solved(board.size, board.puzzle) || !isSolving
      ensures old(isSolving) && (forall k :: 1 <= k <= |solution| ==> keepSolving(k)) ==> isSolving
    {
      var n := board.size;
      var i := 0;
      while i < |solution| && isSolving
        invariant 0 <= i <= |solution| && board.Valid() && board.size == n
        invariant board.moveCount <= old(board.moveCount) + i
        invariant Replay(n, old(board.puzzle), old(board.emptyPos), solution).Some? ==>
          Replay(n, board.puzzle, board.emptyPos, solution[i..]) == Replay(n, old(board.puzzle), old(board.emptyPos), solution)
        invariant old(isSolving) && (forall k :: 1 <= k <= i ==> keepSolving(k)) ==> isSolving
      {
        var move := solution[i];
        ghost var before, beforeEmpty := board.puzzle, board.emptyPos;
        assert solution[i..][1..] == solution[i + 1..];
        var moved := board.MakeMove(move.to.row, move.to.col, true);
        assert Replay(n, before, beforeEmpty, solution[i..]).Some? ==>
          moved && Replay(n, board.puzzle, board.emptyPos, solution[i + 1..]) == Replay(n, before, beforeEmpty, solution[i..]);
        i := i + 1;
        var solved := IsSolved(n, board.puzzle);
        if solved {
          return i;
        }
        if !keepSolving(i) {
          isSolving := false;
        }
      }
      return i;
    }
  }

  /** Every move of `moves` targets a cell of the board. */
  predicate AllTargetsIn(n: nat, moves: seq<Move>) {
    forall k :: 0 <= k < |moves| ==> InBounds(n, moves[k].to)
  }

  lemma AllTargetsInSnoc(n: nat, moves: seq<Move>, m: Move)
    requires AllTargetsIn(n, moves) && InBounds(n, m.to)
    ensures AllTargetsIn(n, moves + [m])
  {
    assert forall k :: 0 <= k < |moves| ==> (moves + [m])[k] == moves[k];
  }

  /** A replay that succeeds only ever targets cells of the board. */
  lemma {:induction false} ReplayTargetsIn(n: nat, g: Grid, e: Pos, moves: seq<Move>)
    requires Shaped(n, g) && InBounds(n, e) && Replay(n, g, e, moves).Some?
    ensures AllTargetsIn(n, moves)
    decreases |moves|
  {
    if moves != [] {
      var t := moves[0].to;
      ReplayTargetsIn(n, Slide(n, g, e, t), t, moves[1..]);
      forall k | 0 <= k < |moves|
        ensures InBounds(n, moves[k].to)
      {
        if k > 0 {
          assert moves[k] == moves[1..][k - 1];
        }
      }
    }
  }
}
