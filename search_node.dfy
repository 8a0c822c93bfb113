/**
 * A* search nodes (a-star/script.js): a node records a grid, its blank, a
 * link to its parent, the move that led to it, and its costs g (moves from
 * the start), h (the heuristic) and f = g + h.
 *
 * The source links nodes by object reference; here the nodes of one search
 * live in a sequence (the arena) and a parent link is an index into it.
 */
module SearchNodes {
  import opened Puzzle
  import opened Heuristics

  datatype SearchNode = SearchNode(
    puzzle: Grid,
    emptyPos: Pos,
    parent: Option<nat>,
    move: Option<Move>,
    gCost: nat,
    hCost: nat,
    fCost: nat)
  {
    /** `getStateKey`: the flattened grid. */
    function StateKey(): seq<int> {
      Flatten(puzzle)
    }
  }

  /** The link structure `reconstructPath` walks: a parent is one move closer to the start. */
  predicate Linked(nodes: seq<SearchNode>) {
    forall i :: 0 <= i < |nodes| ==> LinkOk(nodes, i)
  }

  predicate LinkOk(nodes: seq<SearchNode>, i: nat)
    requires i < |nodes|
  {
    match nodes[i].parent
    case None => nodes[i].gCost == 0
    case Some(p) => p < |nodes| && nodes[p].gCost + 1 == nodes[i].gCost && nodes[i].move.Some?
  }

  /**
   * What every node of a search started from (`start`, `startEmpty`) satisfies:
   * its grid is a coherent board, its h is the heuristic of that board and f = g + h;
   * a node without parent is the start; a node with a parent is the grid obtained
   * from the parent's by the recorded (legal) move, whose tile field holds 0.
   */
  predicate NodeOk(n: nat, heuristic: string, start: Grid, startEmpty: Pos, nodes: seq<SearchNode>, i: nat)
    requires n > 0 && heuristic != "euclidean" && i < |nodes|
  {
    var x := nodes[i];
    Coherent(n, x.puzzle, x.emptyPos) &&
    x.hCost == Heuristic(heuristic, n, x.puzzle) &&
    x.fCost == x.gCost + x.hCost &&
    match x.parent
    case None => x.puzzle == start && x.emptyPos == startEmpty && x.move.None?
    case Some(p) =>
      p < |nodes| && Coherent(n, nodes[p].puzzle, nodes[p].emptyPos) &&
      IsValidMove(nodes[p].emptyPos, x.emptyPos.row, x.emptyPos.col) &&
      x.puzzle == Slide(n, nodes[p].puzzle, nodes[p].emptyPos, x.emptyPos) &&
      x.move == Some(Move(nodes[p].emptyPos, x.emptyPos, 0))
  }

  predicate Grown(n: nat, heuristic: string, start: Grid, startEmpty: Pos, nodes: seq<SearchNode>)
    requires n > 0 && heuristic != "euclidean"
  {
    Linked(nodes) && forall i :: 0 <= i < |nodes| ==> NodeOk(n, heuristic, start, startEmpty, nodes, i)
  }

  // ---------------------------------------------------------------------------
  // getNeighbors

  /** The neighbour `getNeighbors` builds for target `t` of node `x` (stored at index `idx`). */
  function Child(n: nat, heuristic: string, x: SearchNode, idx: nat, t: Pos): SearchNode
    requires n > 0 && heuristic != "euclidean"
    requires Shaped(n, x.puzzle) && InBounds(n, x.emptyPos) && InBounds(n, t)
  {
    var p := Slide(n, x.puzzle, x.emptyPos, t);
    var h := Heuristic(heuristic, n, p);
    SearchNode(p, t, Some(idx), Some(Move(x.emptyPos, t, 0)), x.gCost + 1, h, x.gCost + 1 + h)
  }

  predicate AllInBounds(n: nat, ts: seq<Pos>) {
    forall k :: 0 <= k < |ts| ==> InBounds(n, ts[k])
  }

  function Children(n: nat, heuristic: string, x: SearchNode, idx: nat, ts: seq<Pos>): (r: seq<SearchNode>)
    requires n > 0 && heuristic != "euclidean"
    requires Shaped(n, x.puzzle) && InBounds(n, x.emptyPos) && AllInBounds(n, ts)
    ensures |r| == |ts|
  {
    if ts == [] then []
    else Children(n, heuristic, x, idx, ts[..|ts| - 1]) + [Child(n, heuristic, x, idx, ts[|ts| - 1])]
  }

  lemma ChildrenSnoc(n: nat, heuristic: string, x: SearchNode, idx: nat, ts: seq<Pos>, k: nat)
    requires n > 0 && heuristic != "euclidean"
    requires Shaped(n, x.puzzle) && InBounds(n, x.emptyPos) && AllInBounds(n, ts) && k < |ts|
    ensures AllInBounds(n, ts[..k]) && AllInBounds(n, ts[..k + 1])
    ensures Children(n, heuristic, x, idx, ts[..k + 1]) ==
      Children(n, heuristic, x, idx, ts[..k]) + [Child(n, heuristic, x, idx, ts[k])]
  {
    assert ts[..k + 1][..k] == ts[..k];
  }

  /** `getNeighbors(node)`: one child per valid move of the node's blank, in the order of `getValidMoves`. */
  function Neighbors(n: nat, heuristic: string, x: SearchNode, idx: nat): seq<SearchNode>
    requires n > 0 && heuristic != "euclidean"
    requires Shaped(n, x.puzzle) && InBounds(n, x.emptyPos)
  {
    ValidMovesExact(n, x.emptyPos);
    Children(n, heuristic, x, idx, ValidMoves(n, x.emptyPos))
  }

  lemma {:induction false} ChildrenAt(n: nat, heuristic: string, x: SearchNode, idx: nat, ts: seq<Pos>, k: nat)
    requires n > 0 && heuristic != "euclidean"
    requires Shaped(n, x.puzzle) && InBounds(n, x.emptyPos) && AllInBounds(n, ts)
    requires k < |ts|
    ensures Children(n, heuristic, x, idx, ts)[k] == Child(n, heuristic, x, idx, ts[k])
  {
    if k < |ts| - 1 {
      ChildrenAt(n, heuristic, x, idx, ts[..|ts| - 1], k);
    }
  }

  /**
   * Each neighbour sits on one valid move of the blank (in order), links back to
   * the node, is one move further from the start, has f = g + h, records the move
   * with tile 0, and is a coherent board when the node is.
   */
  lemma ChildSpec(n: nat, heuristic: string, x: SearchNode, idx: nat, t: Pos)
    requires n > 0 && heuristic != "euclidean"
    requires Coherent(n, x.puzzle, x.emptyPos) && InBounds(n, t) && IsValidMove(x.emptyPos, t.row, t.col)
    ensures Coherent(n, Child(n, heuristic, x, idx, t).puzzle, t)
  {
    SlideCoherent(n, x.puzzle, x.emptyPos, t);
  }

  lemma NeighborsSpec(n: nat, heuristic: string, x: SearchNode, idx: nat)
    requires n > 0 && heuristic != "euclidean"
    requires Coherent(n, x.puzzle, x.emptyPos)
    ensures var r := Neighbors(n, heuristic, x, idx);
      |r| == |ValidMoves(n, x.emptyPos)| &&
      forall k :: 0 <= k < |r| ==>
        r[k].emptyPos == ValidMoves(n, x.emptyPos)[k] &&
        InBounds(n, r[k].emptyPos) &&
        IsValidMove(x.emptyPos, r[k].emptyPos.row, r[k].emptyPos.col) &&
        r[k].puzzle == Slide(n, x.puzzle, x.emptyPos, r[k].emptyPos) &&
        Coherent(n, r[k].puzzle, r[k].emptyPos) &&
        r[k].parent == Some(idx) &&
        r[k].move == Some(Move(x.emptyPos, r[k].emptyPos, 0)) &&
        r[k].gCost == x.gCost + 1 &&
        r[k].hCost == Heuristic(heuristic, n, r[k].puzzle) &&
        r[k].fCost == r[k].gCost + r[k].hCost
  {
    var ts := ValidMoves(n, x.emptyPos);
    ValidMovesExact(n, x.emptyPos);
    var r := Neighbors(n, heuristic, x, idx);
    forall k | 0 <= k < |ts|
      ensures r[k] == Child(n, heuristic, x, idx, ts[k])
      ensures Coherent(n, r[k].puzzle, r[k].emptyPos)
    {
      ChildrenAt(n, heuristic, x, idx, ts, k);
      ChildSpec(n, heuristic, x, idx, ts[k]);
    }
  }

  /** The body of `getNeighbors`' loop for one target `move`. */
  method NewNeighbor(n: nat, heuristic: string, x: SearchNode, idx: nat, move: Pos) returns (neighbor: SearchNode)
    requires n > 0 && heuristic != "euclidean"
    requires Shaped(n, x.puzzle) && InBounds(n, x.emptyPos) && InBounds(n, move)
    ensures neighbor == Child(n, heuristic, x, idx, move)
  {
    var newPuzzle := x.puzzle;
    var newEmptyPos := x.emptyPos;
    newPuzzle := newPuzzle[newEmptyPos.row := newPuzzle[newEmptyPos.row][newEmptyPos.col := newPuzzle[move.row][move.col]]];
    newPuzzle := newPuzzle[move.row := newPuzzle[move.row][move.col := 0]];
    newEmptyPos := move;
    assert newPuzzle == Slide(n, x.puzzle, x.emptyPos, move);
    var h := CalculateHeuristic(heuristic, n, newPuzzle);
    neighbor := SearchNode(newPuzzle, newEmptyPos, Some(idx),
      Some(Move(x.emptyPos, move, newPuzzle[newEmptyPos.row][newEmptyPos.col])), x.gCost + 1, h, x.gCost + 1 + h);
  }

  /**
   * `getNeighbors`: for each valid move, copy the grid, slide the tile into the
   * blank, and build the child node; the move's tile is read from the new grid
   * at the new blank, where 0 has just been written.
   */
  method GetNeighbors(n: nat, heuristic: string, x: SearchNode, idx: nat) returns (neighbors: seq<SearchNode>)
    requires n > 0 && heuristic != "euclidean"
    requires Coherent(n, x.puzzle, x.emptyPos)
    ensures neighbors == Neighbors(n, heuristic, x, idx)
  {
    var validMoves := GetValidMoves(n, x.emptyPos);
    ValidMovesExact(n, x.emptyPos);
    assert AllInBounds(n, validMoves);
    neighbors := [];
    for k := 0 to |validMoves|
      invariant AllInBounds(n, validMoves[..k])
      invariant neighbors == Children(n, heuristic, x, idx, validMoves[..k])
    {
      var move := validMoves[k];
      assert InBounds(n, move);
      var neighbor := NewNeighbor(n, heuristic, x, idx, move);
      ChildrenSnoc(n, heuristic, x, idx, validMoves, k);
      neighbors := neighbors + [neighbor];
    }
    assert validMoves[..|validMoves|] == validMoves;
  }

  // ---------------------------------------------------------------------------
  // reconstructPath

  /** The moves from the start to node `i`, start first: the moves on its parent chain. */
  function Path(nodes: seq<SearchNode>, i: nat): (r: seq<Move>)
    requires Linked(nodes) && i < |nodes|
    ensures |r| == nodes[i].gCost
    decreases nodes[i].gCost
  {
    assert LinkOk(nodes, i);
    match nodes[i].parent
    case None => []
    case Some(p) => Path(nodes, p) + [nodes[i].move.value]
  }

  /** `reconstructPath`: walks the parent links, putting each move in front. */
  method ReconstructPath(nodes: seq<SearchNode>, i: nat) returns (path: seq<Move>)
    requires Linked(nodes) && i < |nodes|
    ensures path == Path(nodes, i)
  {
    path := [];
    var current: nat := i;
    while nodes[current].parent.Some?
      invariant current < |nodes|
      invariant Path(nodes, i) == Path(nodes, current) + path
      decreases nodes[current].gCost
    {
      assert LinkOk(nodes, current);
      path := [nodes[current].move.value] + path;
      current := nodes[current].parent.value;
    }
  }

  /** The path of a node, replayed on the start board, reaches exactly that node's board. */
  lemma {:induction false} PathReplays(n: nat, heuristic: string, start: Grid, startEmpty: Pos, nodes: seq<SearchNode>, i: nat)
    requires n > 0 && heuristic != "euclidean"
    requires Grown(n, heuristic, start, startEmpty, nodes) && i < |nodes|
    requires Shaped(n, start) && InBounds(n, startEmpty)
    ensures Replay(n, start, startEmpty, Path(nodes, i)) == Some((nodes[i].puzzle, nodes[i].emptyPos))
    decreases nodes[i].gCost
  {
    assert NodeOk(n, heuristic, start, startEmpty, nodes, i) && LinkOk(nodes, i);
    match nodes[i].parent
    case None =>
    case Some(p) =>
      assert NodeOk(n, heuristic, start, startEmpty, nodes, p);
      PathReplays(n, heuristic, start, startEmpty, nodes, p);
      ReplayStep(n, start, startEmpty, Path(nodes, p), nodes[p].puzzle, nodes[p].emptyPos, nodes[i].move.value);
  }
}
