# Sliding-tile puzzle solvers, modelled in Dafny

The repository solves the sliding-tile (N-puzzle) game in three ways:

* `a-star/script.js`: a browser app (`SlidingPuzzleAStar`) that shuffles a
  board and solves it by A* search. The open list is re-sorted by `fCost`
  and then `hCost` before every pop, expanded states go into a closed set,
  and an open entry is relaxed when a neighbor reaches its state by a
  strictly shorter path.
* `rl/script.js`: a browser app (`SlidingPuzzleRL`) that trains a tabular
  Q-learning agent on one shuffled board. It uses epsilon-greedy episodes
  and a shaped reward, and validates each successful trajectory before
  keeping the shortest one as the best solution. That solution can then be
  replayed on the board.
* `EightPuzzle.py` and `NPuzzle.py`: two legacy Python 2 classes for the
  3x3 and 4x4 puzzle, whose blank is the largest value (9 or 16). Each class
  validates a puzzle, computes a Manhattan heuristic and a goal test, and
  lists the movable tiles and the child puzzles.

## How the model is organised

| file | module | what it models |
|---|---|---|
| `puzzle.dfy` | `Puzzle` | The board shared by both apps: the solved board, `isSolved`, `getValidMoves`, `makeMove`, shuffling, and move replay (the `validateSolution` loop). The `Board` class holds the fields both apps update in place. |
| `heuristics.dfy` | `Heuristics` | Manhattan, misplaced and combined heuristics, plus the `calculateHeuristic` dispatcher. |
| `search_node.dfy` | `SearchNodes` | `SearchNode`, `getNeighbors`, `reconstructPath`. |
| `open_list.dfy` | `OpenList` | The stable sort of the open list by `(fCost, hCost)` and the `shift` that follows it. |
| `astar.dfy` | `AStar` | One A* search: its node arena, open list and closed set, as a class with one method per step of the loop body. |
| `astar_app.dfy` | `AStarApp` | The `SlidingPuzzleAStar` object: `aStar`, `startSolving`, `animateSolution`, and the reset and size handlers. |
| `qlearning.dfy` | `QLearning` | The reward, `getBestAction`, the max-next-Q loop, the temporal-difference update, epsilon decay and exploration. |
| `rl_app.dfy` | `RLApp` | The `SlidingPuzzleRL` object: shuffling, training episodes, validation, the best solution, and replaying it. |
| `py_puzzle.dfy` | `PyPuzzle` | The code the two Python classes share, parameterised by the class attributes `goal`, `blank`, `N` and `tiles`. Python exceptions are an `Err` result. |
| `eight_puzzle.dfy` | `EightPuzzle` | `EightPuzzle.py`'s goal and blank, with concrete consequences. |
| `n_puzzle.dfy` | `NPuzzle` | `NPuzzle.py`'s goal and blank, `setGoal`, and concrete consequences. |

### Representation choices

* **Boards.** A board is `seq<seq<int>>` with 0 as the blank in the
  JavaScript apps. A position is `Pos(row, col)`. A move is
  `Move(from, to, tile)`.
* **State keys.** The string state key (`flat().join(',')`) is the flattened
  sequence. `KeyInjective` shows that it identifies a board. The Q-table's
  string key `state:row,col` is a `(state, Pos)` pair in a `map`.
* **Search nodes.** They live in a sequence owned by the search, and
  `parent` is an index into it. The open list is a sequence of such
  indexes. Relaxing an open entry replaces that node in place, which
  matches the JavaScript object being mutated.
* **Randomness.** `Math.random()` is a function from a call index to a real
  in `[0, 1)`.
* **Awaits and Stop buttons.** The flags `isSolving` and `isTraining` can
  only change while the app awaits a timer: every 100 expansions in
  `aStar`, every 1000 episodes and on the last one in `startTraining`, and
  between animation steps. At those points the model consults an oracle
  `keep…(k)`; when it answers false, the Stop button was pressed.
* **`-Infinity` and `Infinity` sentinels.** They become `Option`:
  * `bestSolutionMoves == None` stands for `Infinity`;
  * a missing best action is `None`;
  * an empty move list gives `maxNextQ` 0, as the source's fallback does.
* **Python runs on values.**
  * The class object is `PuzzleClass`, whose `n` and `tiles` are
    reassigned by every constructor call.
  * An instance is `PuzzleObject`.
  * The computations are functions over a snapshot `Attrs` of the class
    attributes, and they return `PyResult`. Each kind of exception the code
    can raise is a constructor: `AssertionError` (with its message),
    `IndexError`, `ValueError`, `TypeError` and `NameError`.
  * `False` returned by `find_row` is the integer 0, as in Python
    arithmetic.
  * numpy's negative index `indArray[-1]` and Python's `puzzle[-1]` wrap
    explicitly, through `PyIndex`.

### Where the code does less than it appears to (the model follows the code)

* **Q-table and best solution on a new puzzle.** After "new puzzle" the app
  reports "Ready to train", as if learning started afresh. But `newPuzzle`
  (`rl/script.js:115-127`) clears neither the Q-table nor the best
  solution. The Q-table is cleared by `resetAI`, on a size change, and at
  the start of `startTraining` (`rl/script.js:351`). The best solution is
  cleared only by `resetAI`, and training replaces it only with a shorter
  one. So after "new puzzle" the app can replay a best solution that was
  found for an earlier board. `RLApp.SlidingPuzzleRL.StartSolving` promises
  a solved board only when the best solution was found on the current
  training board. The ghost field `bestStart` records which board that was.
* **The backtrack penalty.** The code subtracts 2 from the reward when the
  action equals `lastMove`, evidently to penalise moving straight back. But
  by then `lastMove` has already been set to the old blank cell
  (`rl/script.js:405-412`), so the penalty never applies.
  `QLearning.BacktrackPenaltyUnreachable` proves this, and
  `RLApp.SlidingPuzzleRL.TakeStep` states the update without it.
* **The reward of 100.** The solved branch returns 100, which marks the
  goal, and only the goal, on 3x3 and smaller boards. On a 4x4 board,
  `10 x correct - 0.5 x manhattan` reaches 100 on an unsolved board
  (`QLearning.RewardHundredUnsolved4`).
* **Cancellation polling.** The search and training loops test their flag
  on every iteration, but the flag can only change at the awaits listed
  above.
* **Invalid moves.** `makeMove` on a cell that is not next to the blank
  raises nothing: it returns false and changes nothing.
* **Python squareness check.** The check in `validatePuzzle` is inert: it
  assigns `is_square` but tests `isSquare`. A ragged puzzle passes
  (`EightPuzzle.RaggedPuzzleValidates`).
* **Python blank.** A puzzle with 0 for its blank passes validation, because
  `indArray[0 - 1]` marks the last slot. It then fails in `movables` with
  ValueError (`EightPuzzle.ZeroBlankValidates`,
  `EightPuzzle.ZeroBlankFailsInMovables`).
* **`setGoal`.** `NPuzzle.setGoal` reads an unbound name, so it always
  raises NameError.

## Model

| member | source | states |
|---|---|---|
| Puzzle.SolvedGrid | a-star/script.js:140-151 | the generated solved board is an n-by-n grid |
| Puzzle.CellNumber | a-star/script.js:221-235 | the row-major number `i*n+j` of a cell lies in `0..n*n-1` and is `n*n-1` exactly at the bottom-right cell, the one `isSolved` expects to be blank |
| Puzzle.GoalValueIsExpected | a-star/script.js:145-147 | the value `generateSolvedPuzzle` writes in each cell is the value `isSolved` expects there, and lies in `0..n*n-1` |
| Puzzle.SolvedIffGoal | a-star/script.js:221-235 | an n-by-n board passes `isSolved` if and only if it equals the generated solved board |
| Puzzle.SolvedGridCoherent | a-star/script.js:140-151 | the generated board holds each of `0..n*n-1` exactly once, has its blank at `(n-1, n-1)` where `emptyPos` points, and is solved |
| Puzzle.IsSolved | a-star/script.js:221-235 | the double loop with early returns answers true exactly when the board is solved, equivalently when it is the generated solved board |
| Puzzle.ValidMovesOrder | a-star/script.js:180-197 | the targets come in the order up, down, left, right, each kept only when it is on the board |
| Puzzle.ValidMovesExact | a-star/script.js:180-197 | at most four targets; a cell is listed if and only if it is on the board and `isValidMove` (lines 215-219) accepts it |
| Puzzle.ValidMovesNonEmpty | a-star/script.js:180-197 | on a board of size 2 or more the blank always has at least two moves |
| Puzzle.ValidMovesNone | a-star/script.js:171-177 | on a 1x1 board there is no move, so the shuffle's guard skips every iteration |
| Puzzle.GetValidMoves | a-star/script.js:180-197 | the loop over the four directions returns exactly the valid targets in that order |
| Puzzle.Slide | a-star/script.js:201-202 | moving a tile into the blank keeps the board n-by-n |
| Puzzle.SlideCells | a-star/script.js:201-203 | after a move the target cell holds 0, the old blank holds the moved tile, and every other cell is unchanged |
| Puzzle.SlideCoherent | a-star/script.js:199-213 | a valid move keeps the board a permutation of `0..n*n-1` whose only 0 is at the new `emptyPos` |
| Puzzle.SlideBack | a-star/script.js:199-203 | moving the blank back to where it came from restores the board: a move is an involution |
| Puzzle.BlankUnique | a-star/script.js:201-203 | on a consistent board the tracked `emptyPos` is the only cell holding 0 |
| Puzzle.KeyInjective | a-star/script.js:14-16 | two n-by-n boards have the same flattened state key if and only if they are equal |
| Puzzle.Replay | rl/script.js:312-323 | replaying a move list keeps the board n-by-n with the blank on it, and yields nothing at the first target that is not adjacent to the blank |
| Puzzle.ReplaySnoc | rl/script.js:312-323 | replaying one more move is the replay so far followed by that move's slide, or nothing when the move is not adjacent |
| Puzzle.ReplayStep | rl/script.js:312-323 | when the replay so far succeeds and the next move is adjacent, the longer replay ends in the slid board with the blank at the target |
| Puzzle.ReplayCoherent | a-star/script.js:199-213 | any successful replay from a consistent board ends on a consistent board |
| Puzzle.Undo | a-star/script.js:170-178 | the undo list of a move trail has one move per move of the trail |
| Puzzle.UndoReplay | a-star/script.js:170-178 | replaying the undo list after a successful replay returns to the starting board and blank |
| Puzzle.ShuffleSolvable | a-star/script.js:153-178 | every board reached by shuffling the solved board can be moved back to the solved board by legal moves |
| Puzzle.RandomIndex | a-star/script.js:174 | `Math.floor(Math.random() * len)` is always a valid index of the move list |
| Puzzle.Board.constructor | a-star/script.js:24-41 | a new app shows the solved 3x3 board with the blank at `(2, 2)` and no moves counted |
| Puzzle.Board.GenerateSolvedPuzzle | a-star/script.js:140-151 | the board becomes the solved board of its size with the blank in the last cell; the size and move count are untouched |
| Puzzle.Board.Load | rl/script.js:364-365 | the board becomes a copy of the given board and blank position |
| Puzzle.Board.MakeMove | a-star/script.js:199-219 | returns whether the target is adjacent to the blank; if so the tile slides into the blank, the blank moves to the target and the count goes up by one when asked; otherwise nothing changes |
| Puzzle.Board.ShufflePuzzle | a-star/script.js:170-178 | the new board is the replay, from the old board, of a trail of legal moves, one per iteration when the size is at least 2; the move count is unchanged |
| Heuristics.JsRem | a-star/script.js:286 | JavaScript's `%` agrees with the mathematical remainder on non-negative operands and is always smaller than the divisor in magnitude |
| Heuristics.ManhattanDistance | a-star/script.js:279-292 | the loop returns the sum, over non-blank tiles, of the row and column distance to the tile's goal cell |
| Heuristics.MisplacedTiles | a-star/script.js:294-308 | the loop returns the number of non-blank tiles not holding their row-major number |
| Heuristics.CombinedHeuristic | a-star/script.js:325-327 | the result is Manhattan plus twice misplaced, so it is at least the Manhattan distance and at least twice the misplaced count |
| Heuristics.CalculateHeuristic | a-star/script.js:329-337 | the dispatcher returns the selected heuristic; an unknown name falls back to Manhattan |
| Heuristics.TargetOfCell | a-star/script.js:285-286 | a tile's target row and column are `(i, j)` if and only if its value is `i*n+j+1`, so both heuristics agree on where a tile belongs |
| Heuristics.CellMisplacedLeManhattan | a-star/script.js:279-308 | for one tile, the misplaced count never exceeds its Manhattan distance |
| Heuristics.CellZeroAgree | a-star/script.js:279-308 | a tile is at Manhattan distance 0 if and only if it is not misplaced |
| Heuristics.MisplacedLeManhattan | a-star/script.js:279-308 | on every board the misplaced count is at most the Manhattan distance |
| Heuristics.InPlaceIffSolved | a-star/script.js:279-308 | on a consistent board every non-blank tile is on its goal cell if and only if `isSolved` holds |
| Heuristics.CostZeroIffSolved | a-star/script.js:279-308 | Manhattan distance, and likewise the misplaced count, is 0 if and only if the board is solved |
| Heuristics.HeuristicZeroIffSolved | a-star/script.js:329-337 | whichever heuristic is selected, it is 0 exactly on the solved board |
| Heuristics.SlideCost | a-star/script.js:279-308 | a move changes a heuristic only by the moved tile's contribution |
| Heuristics.ManhattanSlide | a-star/script.js:279-292 | every legal move changes the Manhattan distance by exactly one |
| Heuristics.ManhattanAdmissible | a-star/script.js:279-292 | the Manhattan distance never exceeds the length of any move list that solves the board |
| Heuristics.MisplacedAdmissible | a-star/script.js:294-308 | the misplaced count never exceeds the length of any move list that solves the board |
| Heuristics.CombinedOverestimates | a-star/script.js:325-327 | a board one move from solved has combined heuristic 3, so the combined heuristic is not admissible |
| Heuristics.CostExample | a-star/script.js:279-308 | on `[[1,2,3],[4,5,6],[7,0,8]]` both Manhattan and misplaced are 1 |
| Heuristics.SlideExample | a-star/script.js:199-203 | on that board, moving the 8 left solves it |
| SearchNodes.Children | a-star/script.js:339-368 | one child node per target |
| SearchNodes.ChildSpec | a-star/script.js:344-351 | a child's board is consistent, with its blank at the move's target |
| SearchNodes.NeighborsSpec | a-star/script.js:339-368 | one neighbor per valid move, in `getValidMoves` order. Each has the slid board, its blank at the target, the expanded node as parent, and a move recorded with tile 0 (line 357 reads the cell after it was zeroed). Its `gCost` is one more than its parent's, its `hCost` is the selected heuristic, and `fCost` is their sum. |
| SearchNodes.NewNeighbor | a-star/script.js:344-362 | the loop body builds exactly the child for that move |
| SearchNodes.GetNeighbors | a-star/script.js:339-368 | the loop returns exactly the neighbors described above |
| SearchNodes.Path | a-star/script.js:370-380 | the path found by following parents has as many moves as the node's `gCost` |
| SearchNodes.ReconstructPath | a-star/script.js:370-380 | the loop that unshifts moves while walking up the parents returns exactly that path |
| SearchNodes.PathReplays | a-star/script.js:370-380 | replaying a node's reconstructed path from the search's start board reaches exactly that node's board and blank |
| OpenList.Insert | a-star/script.js:396-399 | inserting one index keeps every element, adds one, and keeps the list over the arena |
| OpenList.Sort | a-star/script.js:396-399 | sorting keeps the length of the open list |
| OpenList.MinIndex | a-star/script.js:396-401 | picks the first entry of least `(fCost, hCost)`: no entry ranks before it and no earlier entry ties with it |
| OpenList.SortPermutation | a-star/script.js:396-399 | the sorted open list is a permutation of the open list |
| OpenList.InsertSorted | a-star/script.js:396-399 | inserting into a sorted list keeps it ordered by `fCost`, then `hCost` |
| OpenList.SortSorted | a-star/script.js:396-399 | the sorted open list is ordered by `fCost`, then `hCost` |
| OpenList.SortStable | a-star/script.js:396-399 | the sort is stable: entries of equal rank keep their relative order |
| OpenList.SortHead | a-star/script.js:396-401 | the entry `shift` takes after the sort is the first entry of least rank |
| AStar.PopOk | a-star/script.js:401 | removing an entry keeps the open-list invariant: entries index the arena, keys are distinct and not closed, no parent is open; the removed node's key is no longer open |
| AStar.PushOk | a-star/script.js:423 | appending a neighbor whose key is neither closed nor open keeps the open-list invariant |
| AStar.RelaxOk | a-star/script.js:424-430 | relaxing an entry keeps the open-list invariant |
| AStar.Relaxed | a-star/script.js:426-429 | the relaxed node keeps its board, blank and `hCost`, and takes the better node's `gCost`, `fCost`, parent and move |
| AStar.PushGrown | a-star/script.js:423 | appending a child keeps every node's board the replay of its path from the start, with consistent costs |
| AStar.RelaxGrown | a-star/script.js:424-430 | relaxing an entry that no node has as parent keeps that property |
| AStar.NeighborsAreChildren | a-star/script.js:415 | every neighbor of the expanded node is its child in the arena's sense |
| AStar.FirstWithKey | a-star/script.js:420 | `openSet.find` by key: the position of the first open entry whose node has the key, or nothing when no open entry has it |
| AStar.OfferOne | a-star/script.js:417-431 | handling one neighbor keeps every open entry an index of the arena; what it does case by case is `AStar.OfferOneCases` |
| AStar.OfferOneCases | a-star/script.js:417-431 | on a well-formed search: a closed key changes nothing. A key no open node holds is appended to the arena and pushed. A key an open node holds leaves the open list as it is, and that node takes the neighbor's costs, parent and move exactly when the neighbor's `gCost` is strictly lower. |
| AStar.OfferOneProgressed | a-star/script.js:417-431 | handling a neighbor only appends nodes, keeps the old open entries or adds new ones, leaves nodes that are not open untouched, and never changes a board or raises a `gCost` |
| AStar.OfferAll | a-star/script.js:415-431 | handling a list of neighbors in order keeps every open entry an index of the arena |
| AStar.OfferOneCovers | a-star/script.js:417-431 | after a neighbor is handled, its board is closed, or an open node holds it with a `gCost` no larger than the neighbor's |
| AStar.OfferOneKeeps | a-star/script.js:417-431 | handling a neighbor keeps every earlier neighbor covered in that sense: relaxing only lowers a `gCost`, and no entry leaves the open list |
| AStar.OfferAllCovers | a-star/script.js:415-431 | after the `for` loop over the neighbors, every one of them is covered |
| AStar.ExpandedCovers | a-star/script.js:413-431 | after an expansion, every neighbor `getNeighbors` built for the node is closed, or open with a `gCost` no larger than its own |
| AStar.OfferOneKeepsKey | a-star/script.js:417-431 | handling a neighbor keeps every board that was closed or open closed or open |
| AStar.OfferAllKeepsKey | a-star/script.js:415-431 | so does the whole loop over the neighbors |
| AStar.PopKeepsKey | a-star/script.js:396-413 | popping the best entry and closing its key keeps every closed or open board closed or open |
| AStar.RoundKeepsKey | a-star/script.js:394-431 | a board closed or open before a round of the search loop is closed or open after it |
| AStar.ExpandedBoardCovered | a-star/script.js:413-431 | after an expansion, every board one legal move from the expanded board is closed or open |
| AStar.ExpansionKeeps | a-star/script.js:394-431 | a round that expands an unsolved board keeps the closed boards closed under moves (each board one move away is closed or open) and keeps them unsolved |
| AStar.ClosedReach | a-star/script.js:394-450 | with the open list empty, every board that a list of moves reaches from a closed board is closed |
| AStar.ExhaustedUnsolvable | a-star/script.js:394-450 | when the loop ends because the open list is empty, with the start closed and no closed board solved, no list of moves solves the start: `aStar`'s null is then a proof of unsolvability |
| AStar.FrontierExhausted | a-star/script.js:394-450 | a search whose open list has run dry while it kept the frontier invariant has shown the start board unsolvable by any list of moves |
| AStar.Search.constructor | a-star/script.js:384-389 | the search starts with one node (`gCost` 0, `hCost` and `fCost` the start's heuristic), that node open, and nothing closed, so `AStar.Search.Frontier` holds |
| AStar.Search.PopBest | a-star/script.js:396-403 | removes and returns the first entry of least `(fCost, hCost)`. The open list left is the stably sorted list without it, no other open entry has its key, and nodes and closed set are untouched. |
| AStar.Search.FindOpen | a-star/script.js:420 | the scan returns exactly `AStar.FirstWithKey`: the first open entry with the key, or nothing when no open entry has it |
| AStar.Search.Offer | a-star/script.js:417-431 | a closed key changes nothing; an unseen key is appended to the open list; an open key is relaxed exactly when the new `gCost` is strictly lower. The new arena and open list are `AStar.OfferOne` of the old ones. |
| AStar.Search.Push | a-star/script.js:423 | the neighbor is appended to the arena and to the open list |
| AStar.Search.Relax | a-star/script.js:424-430 | the open entry takes the neighbor's costs, parent and move; nothing else changes |
| AStar.Search.Close | a-star/script.js:413 | the key of the expanded node is added to the closed set |
| AStar.Search.Expand | a-star/script.js:413-431 | the node's key joins the closed set, and the arena and open list become `AStar.OfferAll` of every neighbor `getNeighbors` builds for the node, in order. No board changes, no `gCost` grows, and entries that were not open are untouched. |
| AStar.Search.OfferEach | a-star/script.js:415-431 | the loop over the neighbors leaves exactly the arena and open list `AStar.OfferAll` gives, with the closed set unchanged |
| AStar.Search.Step | a-star/script.js:394-431 | one iteration pops the first open entry of least `(fCost, hCost)` and reports whether its board is solved. If it is, the open list is the sorted list without it and nothing else changes. Otherwise its key is closed and the arena and open list are its expansion from that list, and `AStar.Search.Frontier` is kept: the start is closed, every board one move from a closed board is closed or open, and no closed board is solved. The queue length reported is one less than before. |
| AStarApp.SlidingPuzzleAStar.constructor | a-star/script.js:24-41 | a 3x3 solved board, not solving, no solution, zero counters, Manhattan heuristic |
| AStarApp.SlidingPuzzleAStar.ResetSearch | a-star/script.js:102-108 | clears the solution and the counters, and nothing else |
| AStarApp.SlidingPuzzleAStar.OnPuzzleSizeChange | a-star/script.js:78-85 | the board becomes the solved board of the new size and the search is reset; the heuristic, the solving flag and the move count are kept |
| AStarApp.SlidingPuzzleAStar.OnHeuristicChange | a-star/script.js:87-90 | only the selected heuristic changes: the solution, the counters and the solving flag are kept |
| AStarApp.SlidingPuzzleAStar.NewPuzzle | a-star/script.js:153-168 | the board is reached from the solved board by a trail of legal moves and can be solved by undoing it; the move count and the search are reset; the heuristic and the solving flag are kept |
| AStarApp.SlidingPuzzleAStar.AStar | a-star/script.js:382-450 | a returned solution is stored and replays from the current board to a solved board. With no solution, the search's open list ran out, or the user stopped, or the 100000-expansion limit was passed. When the open list ran out, no list of moves solves the board. The search stops for the user only at a wait (every 100 expansions) where `keepSolving` said no, so it never stops if the user never does. At most 100001 nodes are explored. |
| AStarApp.SlidingPuzzleAStar.SearchRound | a-star/script.js:394-431 | one round of the loop counts one more explored node, records the queue length, and reports the popped node as solved exactly when its board is solved; a solved round leaves the arena unchanged; an unsolved round keeps `AStar.Search.Frontier` |
| AStarApp.SlidingPuzzleAStar.SearchLoop | a-star/script.js:394-450 | the `while` loop of `aStar`: it stops with a solved node of the arena, or without one because the open list emptied, Stop was pressed (only at a multiple of 100 nodes, when the button oracle says so) or more than 100000 nodes were explored; the frontier invariant holds on a no-result exit and Stop is never seen while the oracle keeps answering yes |
| AStarApp.SlidingPuzzleAStar.RecordSolution | a-star/script.js:405-411 | the path of the solved node becomes the solution and replays from the start board to a solved board |
| AStarApp.SlidingPuzzleAStar.AnimateSolution | a-star/script.js:484-506 | plays a prefix of the solution on the board, one counted move each. Playing the rest would give the same result. It stops early only when the board is solved or the user stopped, and plays everything if the user never stops. |
| AStarApp.SlidingPuzzleAStar.StartSolving | a-star/script.js:452-482 | a solved board is left alone. Otherwise the result is the stored solution, and a solution replays from the old board to a solved board. Without one the board is unchanged, and either no list of moves solves it, or `keepSolving` said no at the last wait, or the expansion limit was passed. With one, the board ends solved if the user never stops the animation. |
| QLearning.RowCorrect | rl/script.js:251-263 | the tiles counted as correct in a row prefix are at most the prefix length |
| QLearning.CalculateReward | rl/script.js:245-266 | returns 100 on a solved board, otherwise ten per tile at its goal cell minus half the Manhattan distance |
| QLearning.GridCorrectBound | rl/script.js:251-263 | no more than `i*n` tiles of the first `i` rows can be correct |
| QLearning.RewardHundredIffSolved | rl/script.js:245-266 | on boards up to 3x3 the reward is 100 if and only if the board is solved |
| QLearning.RewardHundredUnsolved4 | rl/script.js:245-266 | a consistent 4x4 board that is not solved still earns reward 100 |
| QLearning.FirstMax | rl/script.js:268-284 | picks an action of greatest Q-value (unseen entries count 0) that no earlier action ties, as the strict `>` does |
| QLearning.GetBestAction | rl/script.js:268-284 | with no valid moves there is no action; otherwise the first action of greatest Q-value |
| QLearning.MaxQ | rl/script.js:292-299 | the greatest Q-value over the actions, attained by one of them, and 0 when there is none |
| QLearning.MaxNextQ | rl/script.js:291-299 | the loop with its `-Infinity` fallback returns exactly that maximum |
| QLearning.TdUpdate | rl/script.js:301-303 | the new Q-value closes 10% of the gap to `reward + 0.9 * maxNextQ` and lies between the old value and that target |
| QLearning.TdConverges | rl/script.js:301-303 | after `k` updates toward the same target the gap is `0.9^k` times the original |
| QLearning.Epsilon | rl/script.js:377 | the exploration rate lies between 0.05 and 0.95 |
| QLearning.EpsilonDecays | rl/script.js:377 | the exploration rate never grows with the episode number |
| QLearning.Without | rl/script.js:383-385 | the filter keeps exactly the moves different from the last one |
| QLearning.ExplorationMoves | rl/script.js:381-389 | exploration chooses among valid moves, always has one when a valid move exists, and excludes the last move whenever another move exists |
| QLearning.ValidMovesDistinct | rl/script.js:143-160 | on a board of size 2 or more there is always a valid move other than any given cell |
| QLearning.ExplorationAvoidsBacktrack | rl/script.js:381-389 | on such a board exploration never chooses the given last cell and never has an empty choice |
| QLearning.BacktrackPenaltyUnreachable | rl/script.js:405-412 | a valid action is never the blank's old cell, which is what `lastMove` holds at the test, so the penalty never applies |
| QLearning.MaxMoves | rl/script.js:369 | every episode allows at least 200 moves |
| QLearning.LearnAllSnoc | rl/script.js:395-414 | learning from one more legal move of an episode is one more temporal-difference update, on the entry of the board reached so far and that move, after the rest |
| QLearning.SolvedRuns | rl/script.js:416-417 | the number of episodes that solved the training board is at most the number of episodes |
| QLearning.SolvedRunsSnoc | rl/script.js:416-417 | one more episode adds one to that number exactly when its moves solve the board |
| QLearning.TrainedSnoc | rl/script.js:359-428 | one more episode played from the training board extends the learned Q-table by that episode's updates, the success count by one exactly when it solved the board, and keeps every recorded run a legal episode |
| QLearning.LearnEpisodesSnoc | rl/script.js:359-428 | one more episode is one more episode's learning after the earlier ones |
| QLearning.LearnAllOnlyVisited | rl/script.js:286-306 | an episode adds an entry for exactly the (state, action) pairs it visits, and every other entry keeps its value |
| QLearning.LearnEpisodesOnlyVisited | rl/script.js:342-428 | over a training run, a (state, action) pair that no episode visits keeps its Q-value |
| RLApp.SlidingPuzzleRL.constructor | rl/script.js:2-22 | a 3x3 solved board, idle, an empty Q-table, no best solution (length `Infinity`), no training board, zero counters |
| RLApp.SlidingPuzzleRL.ResetAI | rl/script.js:62-71 | clears the Q-table, the best solution, the training board and the counters |
| RLApp.SlidingPuzzleRL.OnPuzzleSizeChange | rl/script.js:53-60 | the AI is reset and the board becomes the solved board of the new size; the training and solving flags and the move count are kept |
| RLApp.SlidingPuzzleRL.ShufflePuzzle | rl/script.js:129-141 | the board is the replay of a trail of legal moves from the old board and is stored as the training board; learning state, counters and the training and solving flags are untouched |
| RLApp.SlidingPuzzleRL.NewPuzzle | rl/script.js:115-127 | the new training board is reached from the solved board by legal moves and can be solved by undoing them; the Q-table, the best solution, the counters and the flags are kept |
| RLApp.SlidingPuzzleRL.UpdateQValue | rl/script.js:286-306 | exactly the entry for `(state, action)` becomes the temporal-difference update of its old value, using the greatest Q-value of the moves valid now |
| RLApp.SlidingPuzzleRL.ValidateSolution | rl/script.js:308-340 | accepts a trajectory if and only if it replays legally from the training board and ends solved |
| RLApp.SlidingPuzzleRL.ChooseAction | rl/script.js:377-393 | the action is a valid move: the best action when the draw is not below epsilon, an exploration move otherwise |
| RLApp.SlidingPuzzleRL.TakeStep | rl/script.js:395-414 | the chosen move is applied uncounted, recorded from the old blank to the action, and the old blank becomes `lastMove`. Exactly the Q-table entry of the old state and the action changes: it moves 10% of the way toward the new board's reward plus 0.9 times the best Q of the moves open from there. The reward carries no backtrack penalty, because that test never succeeds. |
| RLApp.SlidingPuzzleRL.RecordSuccess | rl/script.js:416-427 | counts a success. The best length never grows; a validated trajectory makes it at most that length. A new best is a strictly shorter validated trajectory, recorded with the board it was found on. |
| RLApp.SlidingPuzzleRL.PlayEpisode | rl/script.js:363-416 | the board is reset to the training board; the trajectory played replays from there to the final board and stays within the move cap; the Q-table is the old one with one update per move along the trajectory; the episode reports solved exactly when it ended on a solved board, and ending before the cap on a board of size 2 or more means it did |
| RLApp.SlidingPuzzleRL.TrainStep | rl/script.js:371-414 | on a 1x1 board nothing moves and the Q-table is unchanged. Otherwise the trajectory gains one move that still replays from the episode's start to the current board, and the table gets that move's update, so it stays the episode's learning along the trajectory. The move is epsilon-greedy: when the draw is at least epsilon it is the first valid move of highest Q-value in the old table, otherwise it is one of the exploration moves (the valid moves other than the cell the blank just left, unless that is the only one). |
| RLApp.SlidingPuzzleRL.RunEpisode | rl/script.js:360-428 | the trajectory replays from the training board to the final board and stays within the move cap, and the Q-table learns one update per move along it. Ending before the cap means the board is solved. Success is counted exactly then, and the best solution only improves, to a validated trajectory. |
| RLApp.SlidingPuzzleRL.TrainingRound | rl/script.js:359-434 | one round of the training loop plays an episode whose moves extend the record of training (`TrainedOn`): the counters count it, the Q-table learns it, and it is an episode run on the training board. Training stays on if `keepTraining` says so at the wait, and never turns back on. |
| RLApp.SlidingPuzzleRL.StartTraining | rl/script.js:342-450 | without a training board nothing happens. Otherwise the Q-table is cleared (line 351) and ends as the learning of the episodes run, one after another, from the empty table. Each episode's moves replay on the training board, stay within the move cap, and stop short of it only by solving the board. The success count is the number of episodes whose moves solve it. At most the requested episodes run, all of them unless the user stops, and training ends. The best solution only improves, each time to a trajectory validated on the training board. |
| RLApp.SlidingPuzzleRL.StartSolving | rl/script.js:452-496 | without a best solution nothing happens. Otherwise the training board is loaded and at most the whole solution is played, and solving ends. The board ends solved when the solution was found on this training board and the user never stops. The Q-table, the best solution, the training board, the counters and the training flag are kept. |
| RLApp.SlidingPuzzleRL.PlaySolution | rl/script.js:473-491 | plays a prefix of the solution, after which playing the rest would give the same result. It stops early only on a solved board or a stop, and plays everything if the user never stops. |
| PyPuzzle.TileList | EightPuzzle.py:16-18 | the tiles of an n-by-n class are `1..n*n-1` in order |
| PyPuzzle.PyIndex | EightPuzzle.py:44 | a Python index succeeds exactly for `-len <= i < len`, and a negative index wraps from the end |
| PyPuzzle.FirstIndex | EightPuzzle.py:67 | `list.index` returns the first position holding the value |
| PyPuzzle.RowFrom | EightPuzzle.py:53-62 | the row search raises nothing once the puzzle has `N` rows, and the row it returns is at most `N` |
| PyPuzzle.RowFromMeaning | EightPuzzle.py:53-62 | IndexError only when the puzzle has fewer than `N` rows. A positive result is the 1-based first row holding the tile; `False` (0) means no row holds it. |
| PyPuzzle.FindRow | EightPuzzle.py:53-62 | the loop with its `break` computes exactly that row |
| PyPuzzle.ColOfFound | EightPuzzle.py:64-67 | when the row is found, the column is the 1-based first position of the tile in that row |
| PyPuzzle.ColOfAbsent | EightPuzzle.py:64-67 | for a missing tile the row 0 makes `puzzle[-1]` be searched: ValueError, or IndexError on an empty puzzle |
| PyPuzzle.SumDistancesMeaning | EightPuzzle.py:79-81 | the heuristic raises nothing exactly when every tile distance is defined, and is 0 exactly when every tile distance is 0 |
| PyPuzzle.GoalTest | EightPuzzle.py:83-85 | `goal_test` raises exactly when the heuristic raises, and is True exactly when the heuristic is 0 |
| PyPuzzle.MovablesOkIff | EightPuzzle.py:87-93 | `movables` raises nothing if and only if every tile's distance to the blank is defined |
| PyPuzzle.MovablesMembers | EightPuzzle.py:87-93 | the movable tiles are exactly the tiles at distance 1 from the blank |
| PyPuzzle.MovablesIncreasing | EightPuzzle.py:87-93 | the movable tiles come in increasing order |
| PyPuzzle.MovablesSnoc | EightPuzzle.py:87-93 | one more iteration appends the tile when its distance is 1, and propagates an exception |
| PyPuzzle.MovablesErrorSticks | EightPuzzle.py:87-93 | the first exception ends the loop with that exception |
| PyPuzzle.Movables | EightPuzzle.py:87-93 | the loop computes exactly the movable tiles or the first exception |
| PyPuzzle.TileIndex | EightPuzzle.py:95-99 | `np.where` finds the first cell in row-major order holding the tile; it fails with IndexError on a ragged puzzle or a missing tile |
| PyPuzzle.SetCell | EightPuzzle.py:108-109 | writing one cell of the array changes that cell only |
| PyPuzzle.SwapTilesMeaning | EightPuzzle.py:101-110 | the distance assertion raises AssertionError unless the tiles are 1 apart. On success the two cells are exchanged and every other cell is kept. |
| PyPuzzle.PossiblePuzzlesMeaning | EightPuzzle.py:112-113 | succeeds exactly when every swap with the blank succeeds, giving one swapped puzzle per movable tile |
| PyPuzzle.ValidatePuzzle | EightPuzzle.py:24-47 | the checks and the marking loop return exactly the validation result (the puzzle, or the assertion raised) |
| PyPuzzle.PuzzleClass.constructor | EightPuzzle.py:6-12 | the class object starts with its goal and blank, `N` 0 and no tiles |
| PyPuzzle.PuzzleObject.constructor | EightPuzzle.py:14-22 | an instance records its class, puzzle and movable tiles |
| PyPuzzle.Construct | EightPuzzle.py:14-22 | sets the class's `N` and tiles. It then raises what validation raises, else what `movables` raises, else TypeError when the class hashes an unhashable puzzle. Otherwise it returns a new instance with the validated puzzle and its movable tiles. |
| PyPuzzle.ConstructionSucceeds | EightPuzzle.py:14-22 | a well-formed n-by-n puzzle (n at least 2, blank `n*n`) passes validation and `movables` |
| PyPuzzle.ConstructAll | EightPuzzle.py:116 | constructing a list of puzzles gives one new instance per puzzle, and succeeds when all are well-formed |
| PyPuzzle.ChildPuzzles | EightPuzzle.py:112-116 | the child puzzles have the parent's row count, and are well-formed when the parent is |
| PyPuzzle.Children | EightPuzzle.py:115-116 | `children` raises what `possiblePuzzles` raises, else returns one new instance per movable tile; a well-formed puzzle always has children |
| PyPuzzle.FindCell | EightPuzzle.py:53-67 | on a puzzle with distinct values, row and column are the cell's 1-based coordinates |
| PyPuzzle.DistanceBetweenCells | EightPuzzle.py:74-77 | the distance between two values is the Manhattan distance between their cells |
| PyPuzzle.TileDistanceCells | EightPuzzle.py:69-72 | a tile's distance is the Manhattan distance between its goal cell and its cell |
| PyPuzzle.HeuristicDefined | EightPuzzle.py:79-81 | on a well-formed puzzle compatible with the goal the heuristic raises nothing |
| PyPuzzle.HeuristicOfGoal | EightPuzzle.py:79-81 | the heuristic of the goal is 0 |
| PyPuzzle.HeuristicZeroIsGoal | EightPuzzle.py:79-85 | a heuristic of 0 means the puzzle is the goal |
| PyPuzzle.GoalTestIffGoal | EightPuzzle.py:83-85 | on such puzzles `goal_test` is True exactly on the goal |
| PyPuzzle.ValidationIffAllPresent | EightPuzzle.py:40-47 | with values in range, validation succeeds exactly when every value `1..N*N` occurs, and returns the puzzle |
| PyPuzzle.ValidationAcceptsWellFormed | EightPuzzle.py:24-47 | every well-formed puzzle of 2 or more rows passes validation unchanged |
| PyPuzzle.BlankDistancesDefined | EightPuzzle.py:87-93 | on a well-formed puzzle every tile's distance to the blank is defined |
| PyPuzzle.MovablesNextToBlank | EightPuzzle.py:87-93 | on a well-formed puzzle `movables` raises nothing. Its tiles are increasing and exclude the blank, and a tile is movable exactly when its cell is next to the blank's. |
| PyPuzzle.MovableCell | EightPuzzle.py:87-93 | the tile at a given cell is movable exactly when that cell is next to the blank |
| PyPuzzle.TileIndexCell | EightPuzzle.py:95-99 | on a well-formed puzzle `getTileIndex` returns the tile's own cell |
| PyPuzzle.ExchangeWellFormed | EightPuzzle.py:101-110 | exchanging two cells of a well-formed puzzle gives a well-formed puzzle |
| PyPuzzle.SwapWithBlank | EightPuzzle.py:101-110 | swapping a tile next to the blank succeeds, exchanges the two cells and gives a well-formed puzzle |
| PyPuzzle.PossiblePuzzlesWellFormed | EightPuzzle.py:112-113 | every child puzzle of a well-formed puzzle is well-formed |
| PyPuzzle.OrderedGridWellFormed | EightPuzzle.py:8 | the row-major goal `1..n*n` is well-formed |
| EightPuzzle.NewClass | EightPuzzle.py:6-12 | the class has the 3x3 goal and blank 9, hashes its puzzles, and has no tiles yet |
| EightPuzzle.GoalIsOrdered | EightPuzzle.py:8 | concrete check: the goal is the row-major ordering of `1..9` |
| EightPuzzle.GoalTestExactlyOnGoal | EightPuzzle.py:83-85 | on every well-formed 3x3 puzzle `goal_test` raises nothing and is True exactly on the goal |
| EightPuzzle.RaggedPuzzleValidates | EightPuzzle.py:30-37 | concrete example: a two-row ragged puzzle passes the squareness check and validation |
| EightPuzzle.RowSlotsOfThree | EightPuzzle.py:30-37 | helper for the concrete examples: a row of three values that each have a slot marks exactly those three slots |
| EightPuzzle.ZeroBlankValidates | EightPuzzle.py:40-47 | the goal with 0 for its blank passes validation |
| EightPuzzle.ZeroBlankFailsInMovables | EightPuzzle.py:87-93 | on that puzzle `movables` raises ValueError, so the constructor fails |
| NPuzzle.NewClass | NPuzzle.py:6-12 | the class has the 4x4 goal and blank 16, does not hash its puzzles, and has no tiles yet |
| NPuzzle.SetGoal | NPuzzle.py:25-27 | `setGoal` raises NameError and leaves the goal unchanged |
| NPuzzle.GoalIsOrdered | NPuzzle.py:8 | concrete check: the goal is the row-major ordering of `1..16` |
| NPuzzle.GoalTestExactlyOnGoal | NPuzzle.py:88-90 | on every well-formed 4x4 puzzle `goal_test` raises nothing and is True exactly on the goal |
| NPuzzle.CornerSwappedValid | NPuzzle.py:29-52 | the goal with 4 and the blank exchanged is well-formed and passes validation |
| NPuzzle.CornerSwappedNotGoal | NPuzzle.py:88-90 | its `goal_test` is False |
| NPuzzle.CornerSwappedMovables | NPuzzle.py:92-98 | with the blank in the top-right corner, 3 and 8 are movable and 4 is not |

## Left out

- The browser side of both apps is not modelled, because it is presentation only. This covers `initializeElements`, `setupEventListeners`, `renderPuzzle`, `animateTile`, `log`, `setStatus`, `updateStats`, `updateProgress`, the buttons' `disabled` flags and `getHeuristicName`.
- `searchTime` and `Date.now()` are not modelled, because they are wall-clock readings that affect no result.
- Timers and `await` are not modelled as such; only the points where a Stop button can take effect are, as the `keep…` oracles.
- `stopSolving` and `stopAll` are not separate methods. A stop is an oracle answering false at an await, which clears the flag as those handlers do.
- No handler other than Stop is modelled as running while a search, an animation or a training run waits at an await, although the source does not prevent it. Solve is enabled again by `resetSearch` inside `startSolving` (a-star/script.js:477-480, 102-108) and by `newPuzzle`. The heuristic selector and New Puzzle are never disabled, and in `rl/script.js` only the train button is. So a heuristic change in the middle of a search, a new puzzle under a running animation, or a second `aStar` sharing the counters and flag are not modelled.
- `euclideanDistance` and the `"euclidean"` choice are not modelled, because they use floating-point `Math.sqrt`. `Heuristics.CalculateHeuristic` and the search require the selected name not to be `"euclidean"`.
- `SearchNode.equals` is not modelled: it is unused, and keys are compared directly.
- `Math.random()` is not modelled. Every draw is an oracle value in `[0, 1)`, so no claim is made about the distribution of shuffles or of exploration.
- AStarApp.SlidingPuzzleAStar.NewPuzzle: computes the shuffle length as the source does (25, 50 or 200 moves), but its contract does not state it. The contract only says the board is reached from the solved board by legal moves.
- RLApp.SlidingPuzzleRL.NewPuzzle: likewise for its 20, 50 or 100 moves.
- The `parseInt` of the size selector is not modelled; the size is a parameter of at least 1.
- Integer and floating-point limits of JavaScript numbers are not modelled. Counters are unbounded integers and Q-values and rewards are exact reals.
- Puzzle.Board.MakeMove: requires the target to lie on the board; every caller passes an in-bounds target. In the source an out-of-range row makes the assignment throw. An out-of-range column on an in-range row does not throw: the blank cell receives `undefined`, the 0 is written outside the row (a column equal to the size lengthens the row), and `emptyPos` leaves the board (a-star/script.js:199-213).
- RLApp.SlidingPuzzleRL.ValidateSolution: requires every target of the trajectory to lie on the board, for the same reason. Training only produces such trajectories.
- AStarApp.SlidingPuzzleAStar.AStar: states that a solution replays to the goal, but not that it is shortest. Search with an admissible heuristic is not proved optimal here. The combined heuristic is proved not to be admissible.
- RLApp.SlidingPuzzleRL.PlayEpisode: the epsilon-greedy choice (best action for a draw at or above epsilon, a move other than undoing the last one below it) is stated for each step by `TrainStep`, not carried into the whole trajectory that `PlayEpisode` and `RunEpisode` return.
- `Astar.py`, `IDFS.py` and `Solution.py` are not part of this model.
- The Python `__main__` blocks, including `EightPuzzle.py`'s endless random walk and its prints, are not modelled.
- `toPrint` and the "can't find tile" print in `find_row` are not modelled, because they only write output.
- `visited_puzzles` is not modelled, because it is declared but never used.
- `self.hash = hash(puzzle)` is modelled only as the TypeError it raises on an unhashable (list) puzzle; hash values are not modelled.
- numpy is modelled only as far as the code uses it. `np.where` is a search for the first cell, a ragged puzzle makes it fail, and the integer array behaves as a list of rows.
- PyPuzzle.TileIndex: a ragged puzzle is modelled as raising IndexError. numpy's exact behaviour on ragged input (an object array, or an error in newer versions) is not modelled.
- NPuzzle.SetGoal: modelled without effect, because its body always raises NameError before assigning.
