/**
 * The read-only parts of the Q-learning trainer (rl/script.js): the reward of
 * a board, the Q-table lookup with unseen entries counting as 0, the greedy
 * choice (the first action of greatest Q), the temporal-difference update
 * rule, the exploration rate, and the anti-backtrack filter of the
 * exploration step.
 *
 * Q-values are exact reals: the source's constants 0.1, 0.9, 0.5 and 0.05 are
 * read as the rationals they denote. A state-action key is the pair of the
 * flattened board and the action cell, standing for the source's string
 * `state:row,col`.
 */
module QLearning {
  import opened Puzzle
  import opened Heuristics

  // ---------------------------------------------------------------------------
  // Reward

  /** A non-blank tile at Manhattan distance 0 from its goal cell counts as correct. */
  function CellCorrect(n: nat, v: int, i: int, j: int): nat
    requires n > 0
  {
    if v != 0 && CellCost(Manhattan, n, v, i, j) == 0 then 1 else 0
  }

  function RowCorrect(n: nat, row: seq<int>, i: int, j: nat): (r: nat)
    requires n > 0 && j <= |row|
    ensures r <= j
  {
    if j == 0 then 0 else RowCorrect(n, row, i, j - 1) + CellCorrect(n, row[j - 1], i, j - 1)
  }

  function GridCorrect(n: nat, g: Grid, i: nat): nat
    requires n > 0 && Shaped(n, g) && i <= n
  {
    if i == 0 then 0 else GridCorrect(n, g, i - 1) + RowCorrect(n, g[i - 1], i - 1, n)
  }

  /** `correctPositions` over the whole grid. */
  function Correct(n: nat, g: Grid): nat
    requires n > 0 && Shaped(n, g)
  {
    GridCorrect(n, g, n)
  }

  /** `calculateReward`: 100 on the solved board, else 10 per correct tile less half the Manhattan distance. */
  function Reward(n: nat, g: Grid): real
    requires n > 0 && Shaped(n, g)
  {
    if Solved(n, g) then 100.0
    else (Correct(n, g) as real) * 10.0 - (Cost(Manhattan, n, g) as real) * 0.5
  }

  /** `calculateReward`: the solved test, then one pass over the cells. */
  method CalculateReward(n: nat, g: Grid) returns (reward: real)
    requires n > 0 && Shaped(n, g)
    ensures reward == Reward(n, g)
  {
    var solved := IsSolved(n, g);
    if solved {
      return 100.0;
    }
    var manhattanDistance := 0;
    var correctPositions := 0;
    for i := 0 to n
      invariant manhattanDistance == GridCost(Manhattan, n, g, i)
      invariant correctPositions == GridCorrect(n, g, i)
    {
      for j := 0 to n
        invariant manhattanDistance == GridCost(Manhattan, n, g, i) + RowCost(Manhattan, n, g[i], i, j)
        invariant correctPositions == GridCorrect(n, g, i) + RowCorrect(n, g[i], i, j)
      {
        var value := g[i][j];
        if value != 0 {
          var targetRow := (value - 1) / n;
          var targetCol := JsRem(value - 1, n);
          var distance := Abs(i - targetRow) + Abs(j - targetCol);
          manhattanDistance := manhattanDistance + distance;
          if distance == 0 {
            correctPositions := correctPositions + 1;
          }
        }
      }
    }
    return (correctPositions as real) * 10.0 - (manhattanDistance as real) * 0.5;
  }

  lemma {:induction false} GridCorrectBound(n: nat, g: Grid, i: nat)
    requires n > 0 && Shaped(n, g) && i <= n
    ensures GridCorrect(n, g, i) <= i * n
  {
    if i > 0 {
      GridCorrectBound(n, g, i - 1);
      assert RowCorrect(n, g[i - 1], i - 1, n) <= n;
      assert (i - 1) * n + n == i * n;
    }
  }

  /**
   * Up to 3x3 the reward is 100 exactly on the solved board: an unsolved board
   * has at most 9 correct tiles, worth at most 90.
   */
  lemma RewardHundredIffSolved(n: nat, g: Grid)
    requires 0 < n <= 3 && Shaped(n, g)
    ensures Reward(n, g) == 100.0 <==> Solved(n, g)
  {
    GridCorrectBound(n, g, n);
    MulMono(n, 3, n);
    MulMono(n, 3, 3);
  }

  /**
   * From 4x4 on the reward no longer tells solved boards apart: this
   * arrangement of the 4x4 tiles (blank in its goal cell) is not solved, has
   * 11 correct tiles and a Manhattan distance of 20, and so a reward of 100.
   */
  lemma RewardHundredUnsolved4()
    ensures var g := [[8, 2, 3, 13], [5, 6, 7, 1], [9, 10, 11, 12], [4, 14, 15, 0]];
      Coherent(4, g, Pos(3, 3)) && !Solved(4, g) && Reward(4, g) == 100.0
  {
    var g := [[8, 2, 3, 13], [5, 6, 7, 1], [9, 10, 11, 12], [4, 14, 15, 0]];
    assert Expected(4, 0, 0) == 1 && g[0][0] == 8;
    Example4Correct(g);
    Example4Manhattan(g);
    assert Coherent(4, g, Pos(3, 3)) by { Example4Coherent(g); }
  }

  lemma Example4Coherent(g: Grid)
    requires g == [[8, 2, 3, 13], [5, 6, 7, 1], [9, 10, 11, 12], [4, 14, 15, 0]]
    ensures Coherent(4, g, Pos(3, 3))
  {
    // where[v] is the cell holding v
    var where := [Pos(3, 3), Pos(1, 3), Pos(0, 1), Pos(0, 2), Pos(3, 0), Pos(1, 0), Pos(1, 1), Pos(1, 2),
                  Pos(0, 0), Pos(2, 0), Pos(2, 1), Pos(2, 2), Pos(2, 3), Pos(0, 3), Pos(3, 1), Pos(3, 2)];
    forall r, c | 0 <= r < 4 && 0 <= c < 4
      ensures 0 <= g[r][c] < 16 && where[g[r][c]] == Pos(r, c)
    {
      assert r == 0 || r == 1 || r == 2 || r == 3;
      assert c == 0 || c == 1 || c == 2 || c == 3;
    }
  }

  lemma Example4Correct(g: Grid)
    requires g == [[8, 2, 3, 13], [5, 6, 7, 1], [9, 10, 11, 12], [4, 14, 15, 0]]
    ensures Correct(4, g) == 11
  {
    assert RowCorrect(4, g[0], 0, 4) == 2;
    assert RowCorrect(4, g[1], 1, 4) == 3;
    assert RowCorrect(4, g[2], 2, 4) == 4;
    assert RowCorrect(4, g[3], 3, 4) == 2;
    assert GridCorrect(4, g, 1) == 2;
    assert GridCorrect(4, g, 2) == 5;
    assert GridCorrect(4, g, 3) == 9;
  }

  lemma Example4Manhattan(g: Grid)
    requires g == [[8, 2, 3, 13], [5, 6, 7, 1], [9, 10, 11, 12], [4, 14, 15, 0]]
    ensures Cost(Manhattan, 4, g) == 20
  {
    assert RowCost(Manhattan, 4, g[0], 0, 4) == 10;
    assert RowCost(Manhattan, 4, g[1], 1, 4) == 4;
    assert RowCost(Manhattan, 4, g[2], 2, 4) == 0;
    assert RowCost(Manhattan, 4, g[3], 3, 4) == 6;
    assert GridCost(Manhattan, 4, g, 1) == 10;
    assert GridCost(Manhattan, 4, g, 2) == 14;
    assert GridCost(Manhattan, 4, g, 3) == 14;
  }

  // ---------------------------------------------------------------------------
  // The Q-table

  type QTable = map<(seq<int>, Pos), real>

  /** `qTable.get(state:action) || 0`: an unseen entry counts as 0. */
  function Q(table: QTable, state: seq<int>, action: Pos): real {
    if (state, action) in table then table[(state, action)] else 0.0
  }

  /**
   * The position of the first action of greatest Q: a scan that only moves on
   * to a strictly greater value.
   */
  function FirstMax(table: QTable, state: seq<int>, actions: seq<Pos>): (k: nat)
    requires |actions| > 0
    ensures k < |actions|
    ensures forall j :: 0 <= j < |actions| ==> Q(table, state, actions[j]) <= Q(table, state, actions[k])
    ensures forall j :: 0 <= j < k ==> Q(table, state, actions[j]) < Q(table, state, actions[k])
  {
    if |actions| == 1 then 0
    else
      var k := FirstMax(table, state, actions[..|actions| - 1]);
      if Q(table, state, actions[|actions| - 1]) > Q(table, state, actions[k]) then |actions| - 1 else k
  }

  /**
   * `getBestAction`: the first valid move of greatest Q. With no valid moves
   * the source returns `undefined`, here None.
   */
  method GetBestAction(table: QTable, state: seq<int>, validMoves: seq<Pos>) returns (bestAction: Option<Pos>)
    ensures validMoves == [] ==> bestAction.None?
    ensures validMoves != [] ==> bestAction == Some(validMoves[FirstMax(table, state, validMoves)])
  {
    bestAction := if |validMoves| > 0 then Some(validMoves[0]) else None;
    var bestValue: Option<real> := None;  // None stands for -Infinity
    for k := 0 to |validMoves|
      invariant k == 0 ==> bestValue.None? && bestAction == if |validMoves| > 0 then Some(validMoves[0]) else None
      invariant k > 0 ==> var m := FirstMax(table, state, validMoves[..k]);
        bestValue == Some(Q(table, state, validMoves[m])) && bestAction == Some(validMoves[m])
    {
      var action := validMoves[k];
      var qValue := Q(table, state, action);
      assert validMoves[..k + 1][..k] == validMoves[..k];
      if bestValue.None? || qValue > bestValue.value {
        bestValue := Some(qValue);
        bestAction := Some(action);
      }
    }
    assert validMoves[..|validMoves|] == validMoves;
  }

  /** The greatest Q over `actions`, 0 when there are none (the source's `-Infinity` replaced by 0). */
  function MaxQ(table: QTable, state: seq<int>, actions: seq<Pos>): (r: real)
    ensures actions == [] ==> r == 0.0
    ensures forall j :: 0 <= j < |actions| ==> Q(table, state, actions[j]) <= r
    ensures actions != [] ==> exists j :: 0 <= j < |actions| && Q(table, state, actions[j]) == r
  {
    if actions == [] then 0.0 else Q(table, state, actions[FirstMax(table, state, actions)])
  }

  /** The running `Math.max` of `updateQValue` over the next state's valid moves. */
  method MaxNextQ(table: QTable, nextState: seq<int>, nextValidMoves: seq<Pos>) returns (maxNextQ: real)
    ensures maxNextQ == MaxQ(table, nextState, nextValidMoves)
  {
    var best: Option<real> := None;  // None stands for -Infinity
    for k := 0 to |nextValidMoves|
      invariant k == 0 ==> best.None?
      invariant k > 0 ==> best == Some(Q(table, nextState, nextValidMoves[FirstMax(table, nextState, nextValidMoves[..k])]))
    {
      var nextQ := Q(table, nextState, nextValidMoves[k]);
      assert nextValidMoves[..k + 1][..k] == nextValidMoves[..k];
      best := if best.None? || nextQ > best.value then Some(nextQ) else best;
    }
    assert nextValidMoves[..|nextValidMoves|] == nextValidMoves;
    maxNextQ := if best.None? then 0.0 else best.value;
  }

  const LearningRate: real := 0.1
  const DiscountFactor: real := 0.9

  /**
   * The temporal-difference step `current + 0.1 * (reward + 0.9 * maxNext - current)`:
   * the new value lies between the old one and the target
   * `reward + 0.9 * maxNext`, and its distance to the target shrinks by 0.9.
   */
  function TdUpdate(current: real, reward: real, maxNext: real): (r: real)
    ensures r - (reward + DiscountFactor * maxNext) == 0.9 * (current - (reward + DiscountFactor * maxNext))
    ensures current <= reward + DiscountFactor * maxNext ==> current <= r <= reward + DiscountFactor * maxNext
    ensures reward + DiscountFactor * maxNext <= current ==> reward + DiscountFactor * maxNext <= r <= current
  {
    current + LearningRate * (reward + DiscountFactor * maxNext - current)
  }

  /** Repeating the update with a fixed target approaches it geometrically. */
  lemma {:induction false} TdConverges(current: real, target: real, k: nat)
    ensures Iterate(current, target, k) - target == Power09(k) * (current - target)
  {
    if k > 0 {
      TdConverges(current, target, k - 1);
    }
  }

  function Iterate(current: real, target: real, k: nat): real {
    if k == 0 then current else TdUpdate(Iterate(current, target, k - 1), target, 0.0)
  }

  function Power09(k: nat): real {
    if k == 0 then 1.0 else 0.9 * Power09(k - 1)
  }

  // ---------------------------------------------------------------------------
  // Exploration

  /** `Math.max(0.05, 0.95 - (episode / totalEpisodes) * 0.8)`. */
  function Epsilon(episode: nat, totalEpisodes: nat): (r: real)
    requires totalEpisodes > 0
    ensures 0.05 <= r <= 0.95
  {
    var linear := 0.95 - (episode as real / totalEpisodes as real) * 0.8;
    if 0.05 < linear then linear else 0.05
  }

  /** Exploration decays: a later episode never explores with a higher rate. */
  lemma EpsilonDecays(e1: nat, e2: nat, totalEpisodes: nat)
    requires totalEpisodes > 0 && e1 <= e2
    ensures Epsilon(e2, totalEpisodes) <= Epsilon(e1, totalEpisodes)
  {
    var t := totalEpisodes as real;
    assert e1 as real / t <= e2 as real / t by {
      assert e1 as real / t == (e1 as real) * (1.0 / t);
      assert e2 as real / t == (e2 as real) * (1.0 / t);
    }
  }

  /** `moves.filter(m => !(m equals x))`. */
  function Without(moves: seq<Pos>, x: Pos): (r: seq<Pos>)
    ensures forall t :: t in r <==> t in moves && t != x
    ensures |r| <= |moves|
  {
    if moves == [] then [] else (if moves[0] == x then [] else [moves[0]]) + Without(moves[1..], x)
  }

  /**
   * The exploration candidates: the valid moves without the cell the blank
   * just left, unless that leaves nothing (or there was no previous move or a
   * single valid move).
   */
  function ExplorationMoves(validMoves: seq<Pos>, lastMove: Option<Pos>): (r: seq<Pos>)
    ensures validMoves != [] ==> r != []
    ensures forall t :: t in r ==> t in validMoves
    ensures lastMove.Some? && (exists t :: t in validMoves && t != lastMove.value) ==> lastMove.value !in r
  {
    if lastMove.Some? && |validMoves| > 1 then
      var filtered := Without(validMoves, lastMove.value);
      if |filtered| == 0 then validMoves else filtered
    else validMoves
  }

  /** The valid moves of a blank are four distinct cells, at most one of which is any given cell. */
  lemma ValidMovesDistinct(n: nat, e: Pos, last: Pos)
    requires n >= 2 && InBounds(n, e)
    ensures exists t :: t in ValidMoves(n, e) && t != last
  {
    ValidMovesOrder(n, e);
    ValidMovesNonEmpty(n, e);
    var vm := ValidMoves(n, e);
    if vm[0] == last {
      assert vm[1] != vm[0] by { ValidMovesExact(n, e); }
      assert vm[1] in vm;
    } else {
      assert vm[0] in vm;
    }
  }

  /**
   * On a board of size 2 or more exploration never moves the blank straight
   * back to the cell it has just left.
   */
  lemma ExplorationAvoidsBacktrack(n: nat, e: Pos, last: Pos)
    requires n >= 2 && InBounds(n, e)
    ensures last !in ExplorationMoves(ValidMoves(n, e), Some(last))
    ensures ExplorationMoves(ValidMoves(n, e), Some(last)) != []
  {
    ValidMovesDistinct(n, e, last);
    ValidMovesNonEmpty(n, e);
  }

  /**
   * No valid move targets the blank's own cell, so the action of a step is
   * never the cell the blank just left and the -2 backtrack penalty of the
   * training loop never applies.
   */
  lemma BacktrackPenaltyUnreachable(n: nat, e: Pos, action: Pos)
    requires action in ValidMoves(n, e)
    ensures action != e
  {
    ValidMovesExact(n, e);
  }

  /** `this.size === 3 ? 200 : this.size === 4 ? 500 : 1000`: the step limit of an episode. */
  function MaxMoves(n: nat): (r: nat)
    ensures r >= 200
  {
    if n == 3 then 200 else if n == 4 then 500 else 1000
  }

  /** `moves` replays from (g, e) to a solved board. */
  predicate Solves(n: nat, g: Grid, e: Pos, moves: seq<Move>) {
    Shaped(n, g) && InBounds(n, e) &&
    var r := Replay(n, g, e, moves);
    r.Some? && Solved(n, r.value.0)
  }

  /**
   * What one training episode from (g, e) plays: moves that replay, at most
   * MaxMoves of them, and fewer only when they solve the board (on a board
   * where the blank can move at all).
   */
  predicate EpisodeRun(n: nat, g: Grid, e: Pos, run: seq<Move>) {
    Shaped(n, g) && InBounds(n, e) && Replay(n, g, e, run).Some? && |run| <= MaxMoves(n) &&
    (n >= 2 && |run| < MaxMoves(n) ==> |run| > 0 && Solves(n, g, e, run))
  }

  /**
   * An episode ends with `moves` played on (g, e), reaching (g1, e1): it is an
   * episode run, and it ends solved exactly when its moves solve (g, e).
   */
  lemma EpisodeEnds(n: nat, g: Grid, e: Pos, moves: seq<Move>, g1: Grid, e1: Pos)
    requires Shaped(n, g) && InBounds(n, e) && Replay(n, g, e, moves) == Some((g1, e1)) && |moves| <= MaxMoves(n)
    requires n >= 2 && |moves| < MaxMoves(n) ==> |moves| > 0 && Solved(n, g1)
    ensures EpisodeRun(n, g, e, moves)
    ensures Solved(n, g1) <==> Solves(n, g, e, moves)
  {
  }

  /** How many of the runs solve (g, e): those that are not empty and whose moves solve it. */
  function SolvedRuns(n: nat, g: Grid, e: Pos, runs: seq<seq<Move>>): (r: nat)
    ensures r <= |runs|
  {
    if runs == [] then 0
    else
      var last := runs[|runs| - 1];
      SolvedRuns(n, g, e, runs[..|runs| - 1]) + (if |last| > 0 && Solves(n, g, e, last) then 1 else 0)
  }

  /**
   * The record of training grows by one episode: if `table` and `count` are
   * what `runs` teach and count, and `path` is how the next episode ended,
   * then its learning and its success extend them to `runs + [path]`.
   */
  lemma TrainedSnoc(n: nat, g: Grid, e: Pos, runs: seq<seq<Move>>, table: QTable, count: nat,
                    path: seq<Move>, g1: Grid, e1: Pos)
    requires Shaped(n, g) && InBounds(n, e)
    requires table == LearnEpisodes(map[], n, g, e, runs) && count == SolvedRuns(n, g, e, runs)
    requires forall j :: 0 <= j < |runs| ==> EpisodeRun(n, g, e, runs[j])
    requires Replay(n, g, e, path) == Some((g1, e1)) && |path| <= MaxMoves(n)
    requires n >= 2 && |path| < MaxMoves(n) ==> |path| > 0 && Solved(n, g1)
    ensures LearnAll(table, n, g, e, path) == LearnEpisodes(map[], n, g, e, runs + [path])
    ensures count + (if |path| > 0 && Solved(n, g1) then 1 else 0) == SolvedRuns(n, g, e, runs + [path])
    ensures forall j :: 0 <= j < |runs| + 1 ==> EpisodeRun(n, g, e, (runs + [path])[j])
  {
    LearnEpisodesSnoc(map[], n, g, e, runs, path);
    EpisodeEnds(n, g, e, path, g1, e1);
    SolvedRunsSnoc(n, g, e, runs, path);
    forall j | 0 <= j < |runs| + 1
      ensures EpisodeRun(n, g, e, (runs + [path])[j])
    {
      if j < |runs| {
        assert (runs + [path])[j] == runs[j];
      }
    }
  }

  /** One more run adds one to the count exactly when it solves. */
  lemma SolvedRunsSnoc(n: nat, g: Grid, e: Pos, runs: seq<seq<Move>>, run: seq<Move>)
    ensures SolvedRuns(n, g, e, runs + [run]) ==
      SolvedRuns(n, g, e, runs) + (if |run| > 0 && Solves(n, g, e, run) then 1 else 0)
  {
    assert (runs + [run])[..|runs|] == runs;
  }

  // ---------------------------------------------------------------------------
  // What training learns

  /**
   * The Q-table after the training step that moves the blank to `action`,
   * taking board `g` to board `next`: `updateQValue` on the entry of (g's
   * key, action), with the reward of `next` (no backtrack penalty, see
   * BacktrackPenaltyUnreachable) and the best Q of the moves open from there.
   */
  function Learn(table: QTable, n: nat, g: Grid, action: Pos, next: Grid): QTable
    requires n > 0 && Shaped(n, next)
  {
    table[(Flatten(g), action) := TdUpdate(Q(table, Flatten(g), action), Reward(n, next), MaxQ(table, Flatten(next), ValidMoves(n, action)))]
  }

  /** The Q-table after an episode that plays `moves` from (g, e): one Learn per move, in order, as far as the moves replay. */
  function LearnAll(table: QTable, n: nat, g: Grid, e: Pos, moves: seq<Move>): QTable
    requires Shaped(n, g) && InBounds(n, e)
    decreases |moves|
  {
    if moves == [] then table
    else
      var t := moves[0].to;
      if InBounds(n, t) && IsValidMove(e, t.row, t.col) then
        var next := Slide(n, g, e, t);
        LearnAll(Learn(table, n, g, t, next), n, next, t, moves[1..])
      else table
  }

  /** The (state key, action) entries an episode that plays `moves` from (g, e) learns about. */
  function Visited(n: nat, g: Grid, e: Pos, moves: seq<Move>): set<(seq<int>, Pos)>
    requires Shaped(n, g) && InBounds(n, e)
    decreases |moves|
  {
    if moves == [] then {}
    else
      var t := moves[0].to;
      if InBounds(n, t) && IsValidMove(e, t.row, t.col) then {(Flatten(g), t)} + Visited(n, Slide(n, g, e, t), t, moves[1..])
      else {}
  }

  /** The Q-table after the episodes `runs`, each played from the training board (g, e), in order. */
  function LearnEpisodes(table: QTable, n: nat, g: Grid, e: Pos, runs: seq<seq<Move>>): QTable
    requires Shaped(n, g) && InBounds(n, e)
  {
    if runs == [] then table
    else LearnAll(LearnEpisodes(table, n, g, e, runs[..|runs| - 1]), n, g, e, runs[|runs| - 1])
  }

  /** One more episode is one more LearnAll after the others. */
  lemma LearnEpisodesSnoc(table: QTable, n: nat, g: Grid, e: Pos, runs: seq<seq<Move>>, path: seq<Move>)
    requires Shaped(n, g) && InBounds(n, e)
    ensures LearnEpisodes(table, n, g, e, runs + [path]) == LearnAll(LearnEpisodes(table, n, g, e, runs), n, g, e, path)
  {
    assert (runs + [path])[..|runs|] == runs;
  }

  /** Learning from one more legal move of an episode is one more Learn after the rest. */
  lemma {:induction false} LearnAllSnoc(table: QTable, n: nat, g: Grid, e: Pos, moves: seq<Move>, g1: Grid, e1: Pos, m: Move)
    requires Shaped(n, g) && InBounds(n, e) && Replay(n, g, e, moves) == Some((g1, e1))
    requires InBounds(n, m.to) && IsValidMove(e1, m.to.row, m.to.col)
    ensures LearnAll(table, n, g, e, moves + [m]) == Learn(LearnAll(table, n, g, e, moves), n, g1, m.to, Slide(n, g1, e1, m.to))
    decreases |moves|
  {
    if moves == [] {
      assert [m][1..] == [];
    } else {
      var t := moves[0].to;
      assert (moves + [m])[1..] == moves[1..] + [m];
      LearnAllSnoc(Learn(table, n, g, t, Slide(n, g, e, t)), n, Slide(n, g, e, t), t, moves[1..], g1, e1, m);
    }
  }

  /**
   * An episode adds an entry for every (state, action) it visits and leaves
   * every other entry as it was: the Q-table changes only where training went.
   */
  lemma {:induction false} LearnAllOnlyVisited(table: QTable, n: nat, g: Grid, e: Pos, moves: seq<Move>)
    requires Shaped(n, g) && InBounds(n, e)
    ensures LearnAll(table, n, g, e, moves).Keys == table.Keys + Visited(n, g, e, moves)
    ensures forall k :: k !in Visited(n, g, e, moves) && k in table ==> LearnAll(table, n, g, e, moves)[k] == table[k]
    decreases |moves|
  {
    if moves != [] {
      var t := moves[0].to;
      if InBounds(n, t) && IsValidMove(e, t.row, t.col) {
        LearnAllOnlyVisited(Learn(table, n, g, t, Slide(n, g, e, t)), n, Slide(n, g, e, t), t, moves[1..]);
      }
    }
  }

  /** Over a whole training run, an entry no episode visited keeps its Q. */
  lemma {:induction false} LearnEpisodesOnlyVisited(table: QTable, n: nat, g: Grid, e: Pos, runs: seq<seq<Move>>, state: seq<int>, action: Pos)
    requires Shaped(n, g) && InBounds(n, e)
    requires forall k :: 0 <= k < |runs| ==> (state, action) !in Visited(n, g, e, runs[k])
    ensures Q(LearnEpisodes(table, n, g, e, runs), state, action) == Q(table, state, action)
  {
    if runs != [] {
      var init := runs[..|runs| - 1];
      var prev := LearnEpisodes(table, n, g, e, init);
      LearnEpisodesOnlyVisited(table, n, g, e, init, state, action);
      LearnAllOnlyVisited(prev, n, g, e, runs[|runs| - 1]);
    }
  }
}
