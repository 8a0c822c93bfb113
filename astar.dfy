/**
 * The A* search of the A* app (a-star/script.js, `aStar`) and the app state
 * around it.
 *
 * A Search holds what `aStar` keeps in its locals: the nodes it has built
 * (the arena), the open list (arena indices, in array order) and the closed
 * set of state keys. One iteration of `aStar` is PopBest (sort, shift),
 * the solved test, then Expand (close the key, offer every neighbour).
 *
 * The invariant of a search (Search.Valid): every node is a legal descendant
 * of the start with correct costs (SearchNodes.Grown); the open list holds
 * each index at most once, no two open nodes share a state key, no open key
 * is closed, and no node that is some node's parent is open, so rewriting an
 * open node's g never invalidates another node's g.
 */
module AStar {
  import opened Puzzle
  import opened Heuristics
  import opened SearchNodes
  import opened OpenList

  /** `aStar` gives up once more than this many nodes have been expanded. */
  const SearchLimit: nat := 100000

  /** The open-list part of the search invariant; see the module comment. */
  predicate OpenOk(nodes: seq<SearchNode>, open: seq<nat>, closed: set<seq<int>>) {
    Indexes(nodes, open) &&
    (forall x :: x in open ==> x < |nodes|) &&
    (forall x :: x in multiset(open) ==> multiset(open)[x] == 1) &&
    (forall x, y :: x in open && y in open && x < |nodes| && y < |nodes| && nodes[x].StateKey() == nodes[y].StateKey() ==> x == y) &&
    (forall x :: x in open && x < |nodes| ==> nodes[x].StateKey() !in closed) &&
    (forall i :: 0 <= i < |nodes| && nodes[i].parent.Some? ==> nodes[i].parent.value !in open)
  }

  /** Taking `current` out of the open list keeps the open invariant; no open key is current's. */
  lemma PopOk(nodes: seq<SearchNode>, open: seq<nat>, closed: set<seq<int>>, current: nat, rest: seq<nat>)
    requires OpenOk(nodes, open, closed) && multiset(open) == multiset(rest) + multiset{current}
    ensures OpenOk(nodes, rest, closed) && current < |nodes| && current !in rest
    ensures forall x :: x in rest ==> nodes[x].StateKey() != nodes[current].StateKey()
  {
    assert current in multiset(open);
    assert current in open && current < |nodes|;
    forall x | x in rest
      ensures x in open && x != current
    {
      assert x in multiset(rest);
      assert multiset(open)[x] == multiset(rest)[x] + (if x == current then 1 else 0);
    }
    forall x | x in multiset(rest)
      ensures multiset(rest)[x] == 1
    {
      assert x in multiset(open);
    }
    forall k | 0 <= k < |rest|
      ensures rest[k] < |nodes|
    {
      assert rest[k] in rest;
    }
  }

  /** Pushing a new node whose key is neither closed nor open keeps the open invariant. */
  lemma PushOk(nodes: seq<SearchNode>, open: seq<nat>, closed: set<seq<int>>, nb: SearchNode)
    requires OpenOk(nodes, open, closed) && Linked(nodes) && nb.StateKey() !in closed
    requires forall x :: x in open ==> nodes[x].StateKey() != nb.StateKey()
    requires nb.parent.Some? ==> nb.parent.value !in open && nb.parent.value < |nodes|
    ensures OpenOk(nodes + [nb], open + [|nodes|], closed)
  {
    var nodes', open' := nodes + [nb], open + [|nodes|];
    assert forall x :: x in open' ==> x in open || x == |nodes|;
    assert |nodes| !in open;
    forall x | x in multiset(open')
      ensures multiset(open')[x] == 1
    {
      var last: nat := |nodes|;
      assert multiset(open') == multiset(open) + multiset{last};
      if x != |nodes| {
        assert x in multiset(open);
      }
    }
    forall x | x in open'
      ensures x < |nodes'| && nodes'[x].StateKey() !in closed
    {
      if x != |nodes| {
        assert x in open;
        assert nodes'[x] == nodes[x];
      } else {
        assert nodes'[x] == nb;
      }
    }
    forall i | 0 <= i < |nodes'| && nodes'[i].parent.Some?
      ensures nodes'[i].parent.value !in open'
    {
      if i < |nodes| {
        assert nodes'[i] == nodes[i] && LinkOk(nodes, i);
      }
    }
  }

  /** Rewriting the costs and link of an open node keeps the open invariant when the new parent is not open. */
  lemma RelaxOk(nodes: seq<SearchNode>, open: seq<nat>, closed: set<seq<int>>, x: nat, nb: SearchNode)
    requires OpenOk(nodes, open, closed) && x < |nodes|
    requires nb.parent.Some? && nb.parent.value !in open
    ensures OpenOk(nodes[x := Relaxed(nodes[x], nb)], open, closed)
  {
    var nodes' := nodes[x := Relaxed(nodes[x], nb)];
    assert forall y :: 0 <= y < |nodes| ==> nodes'[y].StateKey() == nodes[y].StateKey();
    forall i | 0 <= i < |nodes'| && nodes'[i].parent.Some?
      ensures nodes'[i].parent.value !in open
    {
      if i != x {
        assert nodes'[i] == nodes[i];
      }
    }
  }

  /** What relaxation writes into an open node: g, f, parent and move of the better path; h stays. */
  function Relaxed(existing: SearchNode, better: SearchNode): (r: SearchNode)
    ensures r.puzzle == existing.puzzle && r.emptyPos == existing.emptyPos && r.hCost == existing.hCost
    ensures r.gCost == better.gCost && r.fCost == better.fCost && r.parent == better.parent && r.move == better.move
  {
    existing.(gCost := better.gCost, fCost := better.fCost, parent := better.parent, move := better.move)
  }

  /** `nb` is a neighbour of node `p` as `getNeighbors` builds it. */
  predicate ChildOf(n: nat, heuristic: string, nodes: seq<SearchNode>, p: nat, nb: SearchNode)
    requires n > 0 && heuristic != "euclidean"
  {
    p < |nodes| && Coherent(n, nodes[p].puzzle, nodes[p].emptyPos) &&
    InBounds(n, nb.emptyPos) && IsValidMove(nodes[p].emptyPos, nb.emptyPos.row, nb.emptyPos.col) &&
    nb.puzzle == Slide(n, nodes[p].puzzle, nodes[p].emptyPos, nb.emptyPos) &&
    Coherent(n, nb.puzzle, nb.emptyPos) &&
    nb.parent == Some(p) && nb.move == Some(Move(nodes[p].emptyPos, nb.emptyPos, 0)) &&
    nb.gCost == nodes[p].gCost + 1 &&
    nb.hCost == Heuristic(heuristic, n, nb.puzzle) && nb.fCost == nb.gCost + nb.hCost
  }

  /** ChildOf looks only at the parent's entry. */
  lemma ChildOfFrame(n: nat, heuristic: string, nodes: seq<SearchNode>, nodes': seq<SearchNode>, p: nat, nb: SearchNode)
    requires n > 0 && heuristic != "euclidean"
    requires ChildOf(n, heuristic, nodes, p, nb) && p < |nodes'| && nodes'[p] == nodes[p]
    ensures ChildOf(n, heuristic, nodes', p, nb)
  {
  }

  /** Appending a neighbour of an existing node keeps the arena well formed. */
  lemma PushGrown(n: nat, heuristic: string, start: Grid, startEmpty: Pos, nodes: seq<SearchNode>, p: nat, nb: SearchNode)
    requires n > 0 && heuristic != "euclidean"
    requires Grown(n, heuristic, start, startEmpty, nodes) && ChildOf(n, heuristic, nodes, p, nb)
    ensures Grown(n, heuristic, start, startEmpty, nodes + [nb])
  {
    var nodes' := nodes + [nb];
    forall i | 0 <= i < |nodes'|
      ensures LinkOk(nodes', i) && NodeOk(n, heuristic, start, startEmpty, nodes', i)
    {
      if i < |nodes| {
        assert LinkOk(nodes, i) && NodeOk(n, heuristic, start, startEmpty, nodes, i);
      }
    }
  }

  /**
   * Rewriting open node `x` with the costs and link of a neighbour `nb` with the
   * same state key keeps the arena well formed, provided no node has `x` as parent.
   */
  lemma RelaxGrown(n: nat, heuristic: string, start: Grid, startEmpty: Pos, nodes: seq<SearchNode>, p: nat, nb: SearchNode, x: nat)
    requires n > 0 && heuristic != "euclidean"
    requires Grown(n, heuristic, start, startEmpty, nodes) && ChildOf(n, heuristic, nodes, p, nb)
    requires x < |nodes| && x != p && nodes[x].StateKey() == nb.StateKey()
    requires forall i :: 0 <= i < |nodes| && nodes[i].parent.Some? ==> nodes[i].parent.value != x
    ensures Grown(n, heuristic, start, startEmpty, nodes[x := Relaxed(nodes[x], nb)])
  {
    var nodes' := nodes[x := Relaxed(nodes[x], nb)];
    assert NodeOk(n, heuristic, start, startEmpty, nodes, x);
    RelaxedEntryOk(n, heuristic, start, startEmpty, nodes, p, nb, x);
    forall i | 0 <= i < |nodes'|
      ensures LinkOk(nodes', i) && NodeOk(n, heuristic, start, startEmpty, nodes', i)
    {
      if i != x {
        OtherEntryOk(n, heuristic, start, startEmpty, nodes, x, Relaxed(nodes[x], nb), i);
      }
    }
  }

  /** The rewritten entry itself: same board as before, now linked to `p` as `nb` is. */
  lemma RelaxedEntryOk(n: nat, heuristic: string, start: Grid, startEmpty: Pos, nodes: seq<SearchNode>, p: nat, nb: SearchNode, x: nat)
    requires n > 0 && heuristic != "euclidean"
    requires ChildOf(n, heuristic, nodes, p, nb) && x < |nodes| && x != p && nodes[x].StateKey() == nb.StateKey()
    requires NodeOk(n, heuristic, start, startEmpty, nodes, x)
    ensures var nodes' := nodes[x := Relaxed(nodes[x], nb)];
      LinkOk(nodes', x) && NodeOk(n, heuristic, start, startEmpty, nodes', x)
  {
    var e := nodes[x];
    KeyInjective(n, e.puzzle, nb.puzzle);
    BlankUnique(n, e.puzzle, e.emptyPos, nb.emptyPos);
  }

  /** Rewriting entry x leaves every other entry well formed as long as its parent is not x. */
  lemma OtherEntryOk(n: nat, heuristic: string, start: Grid, startEmpty: Pos, nodes: seq<SearchNode>, x: nat, v: SearchNode, i: nat)
    requires n > 0 && heuristic != "euclidean"
    requires x < |nodes| && i < |nodes| && i != x
    requires LinkOk(nodes, i) && NodeOk(n, heuristic, start, startEmpty, nodes, i)
    requires nodes[i].parent.Some? ==> nodes[i].parent.value != x
    ensures LinkOk(nodes[x := v], i) && NodeOk(n, heuristic, start, startEmpty, nodes[x := v], i)
  {
  }

  /** Every neighbour `getNeighbors` builds for a well-formed node `p` is a child of `p`. */
  lemma NeighborsAreChildren(n: nat, heuristic: string, nodes: seq<SearchNode>, p: nat)
    requires n > 0 && heuristic != "euclidean" && p < |nodes| && Coherent(n, nodes[p].puzzle, nodes[p].emptyPos)
    ensures var r := Neighbors(n, heuristic, nodes[p], p);
      forall k :: 0 <= k < |r| ==> r[k].parent.Some? && ChildOf(n, heuristic, nodes, p, r[k])
  {
    NeighborsSpec(n, heuristic, nodes[p], p);
  }

  /**
   * From (nodes0, open0) to (nodes1, open1) the arena only grew, the open list
   * only kept old entries or gained new ones, closed entries are untouched and
   * every board kept its grid with a g that did not increase.
   */
  predicate Progressed(nodes0: seq<SearchNode>, open0: seq<nat>, nodes1: seq<SearchNode>, open1: seq<nat>) {
    |nodes1| >= |nodes0| &&
    (forall x :: x in open1 ==> x in open0 || x >= |nodes0|) &&
    (forall i :: 0 <= i < |nodes0| && i !in open0 ==> nodes1[i] == nodes0[i]) &&
    (forall i :: 0 <= i < |nodes0| ==> nodes1[i].puzzle == nodes0[i].puzzle && nodes1[i].gCost <= nodes0[i].gCost)
  }

  lemma ProgressedTrans(nodes0: seq<SearchNode>, open0: seq<nat>, nodes1: seq<SearchNode>, open1: seq<nat>, nodes2: seq<SearchNode>, open2: seq<nat>)
    requires Progressed(nodes0, open0, nodes1, open1) && Progressed(nodes1, open1, nodes2, open2)
    ensures Progressed(nodes0, open0, nodes2, open2)
  {
  }

  /** `openSet.find(node => node.stateKey === key)`: the first position of `s` whose node has state key `key`. */
  function FirstWithKey(nodes: seq<SearchNode>, s: seq<nat>, key: seq<int>): (r: Option<nat>)
    requires Indexes(nodes, s)
    ensures r.Some? ==> r.value < |s| && nodes[s[r.value]].StateKey() == key
    ensures r.Some? ==> forall j :: 0 <= j < r.value ==> nodes[s[j]].StateKey() != key
    ensures r.None? ==> forall j :: 0 <= j < |s| ==> nodes[s[j]].StateKey() != key
  {
    if s == [] then None
    else if nodes[s[0]].StateKey() == key then Some(0)
    else
      match FirstWithKey(nodes, s[1..], key)
      case None => None
      case Some(j) => Some(j + 1)
  }

  /**
   * The arena and open list after one neighbour of the `for` loop of `aStar`
   * is handled: unchanged when its key is closed; the neighbour appended and
   * pushed when no open node has its key; otherwise that open node takes the
   * neighbour's g, f, parent and move when its g is strictly smaller.
   */
  function OfferOne(nodes: seq<SearchNode>, open: seq<nat>, closed: set<seq<int>>, nb: SearchNode): (r: (seq<SearchNode>, seq<nat>))
    requires Indexes(nodes, open)
    ensures Indexes(r.0, r.1)
  {
    if nb.StateKey() in closed then (nodes, open)
    else
      match FirstWithKey(nodes, open, nb.StateKey())
      case None => (nodes + [nb], open + [|nodes|])
      case Some(j) =>
        var x := open[j];
        if nb.gCost < nodes[x].gCost then (nodes[x := Relaxed(nodes[x], nb)], open) else (nodes, open)
  }

  /**
   * OfferOne on a search whose open list is well formed, case by case: a closed
   * key changes nothing; an unseen key is appended and pushed; a key held by an
   * open node leaves the open list as it is and rewrites that node exactly when
   * the neighbour's g is strictly smaller.
   */
  lemma OfferOneCases(nodes: seq<SearchNode>, open: seq<nat>, closed: set<seq<int>>, nb: SearchNode)
    requires OpenOk(nodes, open, closed)
    ensures nb.StateKey() in closed ==> OfferOne(nodes, open, closed, nb) == (nodes, open)
    ensures nb.StateKey() !in closed && (forall x :: x in open ==> nodes[x].StateKey() != nb.StateKey()) ==>
      OfferOne(nodes, open, closed, nb) == (nodes + [nb], open + [|nodes|])
    ensures forall x :: x in open && nodes[x].StateKey() == nb.StateKey() ==>
      OfferOne(nodes, open, closed, nb).1 == open &&
      (nb.gCost < nodes[x].gCost ==> OfferOne(nodes, open, closed, nb).0 == nodes[x := Relaxed(nodes[x], nb)]) &&
      (nb.gCost >= nodes[x].gCost ==> OfferOne(nodes, open, closed, nb).0 == nodes)
  {
    var key := nb.StateKey();
    if key !in closed {
      match FirstWithKey(nodes, open, key)
      case None =>
      case Some(j) =>
        assert open[j] in open;
    }
  }

  /** OfferOne only appends nodes, keeps or extends the open list, and only lowers the g of an open node. */
  lemma OfferOneProgressed(nodes: seq<SearchNode>, open: seq<nat>, closed: set<seq<int>>, nb: SearchNode)
    requires OpenOk(nodes, open, closed)
    ensures var r := OfferOne(nodes, open, closed, nb); Progressed(nodes, open, r.0, r.1)
  {
    var key := nb.StateKey();
    if key !in closed {
      match FirstWithKey(nodes, open, key)
      case None =>
      case Some(j) =>
        assert open[j] in open;
    }
  }

  /** The arena and open list after the neighbours `nbs` are handled in order, the closed set fixed. */
  function OfferAll(nodes: seq<SearchNode>, open: seq<nat>, closed: set<seq<int>>, nbs: seq<SearchNode>): (r: (seq<SearchNode>, seq<nat>))
    requires Indexes(nodes, open)
    ensures Indexes(r.0, r.1)
  {
    if nbs == [] then (nodes, open)
    else
      var p := OfferAll(nodes, open, closed, nbs[..|nbs| - 1]);
      OfferOne(p.0, p.1, closed, nbs[|nbs| - 1])
  }

  /**
   * (nodes1, open1) is what expanding node `p` of (nodes0, open0) gives once
   * its key is in `closed`: every neighbour `getNeighbors` builds for it, offered in order.
   */
  ghost predicate Expanded(n: nat, heuristic: string, nodes0: seq<SearchNode>, open0: seq<nat>, closed: set<seq<int>>, p: nat,
                           nodes1: seq<SearchNode>, open1: seq<nat>) {
    n > 0 && heuristic != "euclidean" && p < |nodes0| && Indexes(nodes0, open0) &&
    Shaped(n, nodes0[p].puzzle) && InBounds(n, nodes0[p].emptyPos) &&
    (nodes1, open1) == OfferAll(nodes0, open0, closed, Neighbors(n, heuristic, nodes0[p], p))
  }

  /** The neighbour's board is closed, or an open node holds it with a g no larger than the neighbour's. */
  predicate Covered(nodes: seq<SearchNode>, open: seq<nat>, closed: set<seq<int>>, nb: SearchNode) {
    nb.StateKey() in closed ||
    exists x :: x in open && x < |nodes| && nodes[x].StateKey() == nb.StateKey() && nodes[x].gCost <= nb.gCost
  }

  /** Handling a neighbour covers it. */
  lemma OfferOneCovers(nodes: seq<SearchNode>, open: seq<nat>, closed: set<seq<int>>, nb: SearchNode)
    requires Indexes(nodes, open)
    ensures var r := OfferOne(nodes, open, closed, nb); Covered(r.0, r.1, closed, nb)
  {
    var r := OfferOne(nodes, open, closed, nb);
    if nb.StateKey() !in closed {
      match FirstWithKey(nodes, open, nb.StateKey())
      case None =>
        assert r.1[|open|] == |nodes| && r.0[|nodes|] == nb;
      case Some(j) =>
        assert open[j] in r.1;
    }
  }

  /** Handling a neighbour keeps every neighbour covered that was covered before. */
  lemma OfferOneKeeps(nodes: seq<SearchNode>, open: seq<nat>, closed: set<seq<int>>, nb: SearchNode, y: SearchNode)
    requires Indexes(nodes, open) && Covered(nodes, open, closed, y)
    ensures var r := OfferOne(nodes, open, closed, nb); Covered(r.0, r.1, closed, y)
  {
    var r := OfferOne(nodes, open, closed, nb);
    if y.StateKey() !in closed {
      var x :| x in open && x < |nodes| && nodes[x].StateKey() == y.StateKey() && nodes[x].gCost <= y.gCost;
      assert x in r.1 && x < |r.0| && r.0[x].StateKey() == y.StateKey() && r.0[x].gCost <= y.gCost;
    }
  }

  /** After the neighbours `nbs` are handled, every one of them is covered. */
  lemma {:induction false} OfferAllCovers(nodes: seq<SearchNode>, open: seq<nat>, closed: set<seq<int>>, nbs: seq<SearchNode>)
    requires Indexes(nodes, open)
    ensures var r := OfferAll(nodes, open, closed, nbs);
      forall k :: 0 <= k < |nbs| ==> Covered(r.0, r.1, closed, nbs[k])
  {
    if nbs != [] {
      var init := nbs[..|nbs| - 1];
      var last := nbs[|nbs| - 1];
      var p := OfferAll(nodes, open, closed, init);
      OfferAllCovers(nodes, open, closed, init);
      OfferOneCovers(p.0, p.1, closed, last);
      forall k | 0 <= k < |nbs| - 1
        ensures var r := OfferOne(p.0, p.1, closed, last); Covered(r.0, r.1, closed, nbs[k])
      {
        assert init[k] == nbs[k];
        OfferOneKeeps(p.0, p.1, closed, last, nbs[k]);
      }
    }
  }

  /**
   * After an expansion every neighbour of the expanded node is covered: its
   * board is closed or open with a g no larger than the neighbour's.
   */
  lemma ExpandedCovers(n: nat, heuristic: string, nodes0: seq<SearchNode>, open0: seq<nat>, closed: set<seq<int>>, p: nat,
                       nodes1: seq<SearchNode>, open1: seq<nat>)
    requires Expanded(n, heuristic, nodes0, open0, closed, p, nodes1, open1)
    ensures forall nb :: nb in Neighbors(n, heuristic, nodes0[p], p) ==> Covered(nodes1, open1, closed, nb)
  {
    var nbs := Neighbors(n, heuristic, nodes0[p], p);
    OfferAllCovers(nodes0, open0, closed, nbs);
  }

  // ---------------------------------------------------------------------------
  // Exhaustion: the closed boards and their neighbours

  /** The key is closed, or some open node holds it. */
  predicate KeyCovered(nodes: seq<SearchNode>, open: seq<nat>, closed: set<seq<int>>, key: seq<int>) {
    key in closed || exists x :: x in open && x < |nodes| && nodes[x].StateKey() == key
  }

  /** Every board one legal move away from a closed board is closed or waiting in the open list. */
  ghost predicate ClosedUnderMoves(n: nat, nodes: seq<SearchNode>, open: seq<nat>, closed: set<seq<int>>) {
    forall g, e, t :: Coherent(n, g, e) && Flatten(g) in closed && InBounds(n, t) && IsValidMove(e, t.row, t.col) ==>
      KeyCovered(nodes, open, closed, Flatten(Slide(n, g, e, t)))
  }

  /** No closed board is solved. */
  ghost predicate ClosedUnsolved(n: nat, closed: set<seq<int>>) {
    forall g :: Shaped(n, g) && Flatten(g) in closed ==> !Solved(n, g)
  }

  /** No list of moves replays from (g, e) to a solved board. */
  ghost predicate NoPathSolves(n: nat, g: Grid, e: Pos)
    requires Shaped(n, g) && InBounds(n, e)
  {
    forall moves :: Replay(n, g, e, moves).Some? ==> !Solved(n, Replay(n, g, e, moves).value.0)
  }

  /** Handling a neighbour keeps a covered key covered. */
  lemma OfferOneKeepsKey(nodes: seq<SearchNode>, open: seq<nat>, closed: set<seq<int>>, nb: SearchNode, key: seq<int>)
    requires Indexes(nodes, open) && KeyCovered(nodes, open, closed, key)
    ensures var r := OfferOne(nodes, open, closed, nb); KeyCovered(r.0, r.1, closed, key)
  {
    var r := OfferOne(nodes, open, closed, nb);
    if key !in closed {
      var x :| x in open && x < |nodes| && nodes[x].StateKey() == key;
      assert x in r.1 && x < |r.0| && r.0[x].StateKey() == key;
    }
  }

  lemma {:induction false} OfferAllKeepsKey(nodes: seq<SearchNode>, open: seq<nat>, closed: set<seq<int>>, nbs: seq<SearchNode>, key: seq<int>)
    requires Indexes(nodes, open) && KeyCovered(nodes, open, closed, key)
    ensures var r := OfferAll(nodes, open, closed, nbs); KeyCovered(r.0, r.1, closed, key)
  {
    if nbs != [] {
      var p := OfferAll(nodes, open, closed, nbs[..|nbs| - 1]);
      OfferAllKeepsKey(nodes, open, closed, nbs[..|nbs| - 1], key);
      OfferOneKeepsKey(p.0, p.1, closed, nbs[|nbs| - 1], key);
    }
  }

  /** Popping the best entry and closing its key keeps every covered key covered. */
  lemma PopKeepsKey(nodes: seq<SearchNode>, open: seq<nat>, closed: set<seq<int>>, current: nat, key: seq<int>)
    requires IsBest(nodes, open, current) && KeyCovered(nodes, open, closed, key)
    ensures current < |nodes|
    ensures KeyCovered(nodes, Sort(nodes, open)[1..], closed + {nodes[current].StateKey()}, key)
  {
    var sorted := Sort(nodes, open);
    SortPermutation(nodes, open);
    SortHead(nodes, open);
    assert sorted[0] == current;
    if key !in closed {
      var x :| x in open && x < |nodes| && nodes[x].StateKey() == key;
      if x != current {
        assert x in multiset(open);
        assert x in sorted;
        var i :| 0 <= i < |sorted| && sorted[i] == x;
        assert sorted[1..][i - 1] == x;
      }
    }
  }

  /** A key covered before a round is covered after the pop, the close and the offers of the expansion. */
  lemma RoundKeepsKey(nodes0: seq<SearchNode>, open0: seq<nat>, closed0: set<seq<int>>, current: nat, closed1: set<seq<int>>,
                      nbs: seq<SearchNode>, nodes1: seq<SearchNode>, open1: seq<nat>, key: seq<int>)
    requires IsBest(nodes0, open0, current) && current < |nodes0| && KeyCovered(nodes0, open0, closed0, key)
    requires closed1 == closed0 + {nodes0[current].StateKey()}
    requires (nodes1, open1) == OfferAll(nodes0, Sort(nodes0, open0)[1..], closed1, nbs)
    ensures KeyCovered(nodes1, open1, closed1, key)
  {
    PopKeepsKey(nodes0, open0, closed0, current, key);
    OfferAllKeepsKey(nodes0, Sort(nodes0, open0)[1..], closed1, nbs, key);
  }

  /** Every board one move from the expanded board is covered after the expansion. */
  lemma ExpandedBoardCovered(n: nat, heuristic: string, nodes0: seq<SearchNode>, open0: seq<nat>, closed: set<seq<int>>, p: nat,
                             nodes1: seq<SearchNode>, open1: seq<nat>, t: Pos)
    requires Expanded(n, heuristic, nodes0, open0, closed, p, nodes1, open1)
    requires InBounds(n, t) && IsValidMove(nodes0[p].emptyPos, t.row, t.col)
    ensures KeyCovered(nodes1, open1, closed, Flatten(Slide(n, nodes0[p].puzzle, nodes0[p].emptyPos, t)))
  {
    var x := nodes0[p];
    var nbs := Neighbors(n, heuristic, x, p);
    ExpandedCovers(n, heuristic, nodes0, open0, closed, p, nodes1, open1);
    ValidMovesExact(n, x.emptyPos);
    var ts := ValidMoves(n, x.emptyPos);
    var k :| 0 <= k < |ts| && ts[k] == t;
    ChildrenAt(n, heuristic, x, p, ts, k);
    assert nbs[k] in nbs;
  }

  /**
   * Closing and expanding the best node keeps the closed boards closed under
   * moves, given the expanded board is not solved, and keeps them unsolved.
   */
  lemma ExpansionKeeps(n: nat, heuristic: string, nodes0: seq<SearchNode>, open0: seq<nat>, closed0: set<seq<int>>,
                       current: nat, closed1: set<seq<int>>, nodes1: seq<SearchNode>, open1: seq<nat>)
    requires IsBest(nodes0, open0, current) && current < |nodes0|
    requires Coherent(n, nodes0[current].puzzle, nodes0[current].emptyPos) && !Solved(n, nodes0[current].puzzle)
    requires closed1 == closed0 + {nodes0[current].StateKey()}
    requires Expanded(n, heuristic, nodes0, Sort(nodes0, open0)[1..], closed1, current, nodes1, open1)
    requires ClosedUnderMoves(n, nodes0, open0, closed0) && ClosedUnsolved(n, closed0)
    ensures ClosedUnderMoves(n, nodes1, open1, closed1) && ClosedUnsolved(n, closed1)
  {
    var x := nodes0[current];
    forall g, e, t | Coherent(n, g, e) && Flatten(g) in closed1 && InBounds(n, t) && IsValidMove(e, t.row, t.col)
      ensures KeyCovered(nodes1, open1, closed1, Flatten(Slide(n, g, e, t)))
    {
      if Flatten(g) in closed0 {
        RoundKeepsKey(nodes0, open0, closed0, current, closed1, Neighbors(n, heuristic, x, current), nodes1, open1,
                      Flatten(Slide(n, g, e, t)));
      } else {
        KeyInjective(n, g, x.puzzle);
        BlankUnique(n, g, e, x.emptyPos);
        ExpandedBoardCovered(n, heuristic, nodes0, Sort(nodes0, open0)[1..], closed1, current, nodes1, open1, t);
      }
    }
    forall g | Shaped(n, g) && Flatten(g) in closed1
      ensures !Solved(n, g)
    {
      if Flatten(g) !in closed0 {
        KeyInjective(n, g, x.puzzle);
      }
    }
  }

  /** With nothing open, every board reachable from a closed board is closed. */
  lemma {:induction false} ClosedReach(n: nat, nodes: seq<SearchNode>, closed: set<seq<int>>, g: Grid, e: Pos, moves: seq<Move>)
    requires ClosedUnderMoves(n, nodes, [], closed) && Coherent(n, g, e) && Flatten(g) in closed
    ensures var r := Replay(n, g, e, moves); r.Some? ==> Coherent(n, r.value.0, r.value.1) && Flatten(r.value.0) in closed
    decreases |moves|
  {
    if moves != [] {
      var t := moves[0].to;
      if InBounds(n, t) && IsValidMove(e, t.row, t.col) {
        SlideCoherent(n, g, e, t);
        assert KeyCovered(nodes, [], closed, Flatten(Slide(n, g, e, t)));
        ClosedReach(n, nodes, closed, Slide(n, g, e, t), t, moves[1..]);
      }
    }
  }

  /**
   * An exhausted search proves the start unsolvable: with nothing open, the
   * start closed and no closed board solved, no list of moves solves the start.
   */
  lemma ExhaustedUnsolvable(n: nat, nodes: seq<SearchNode>, closed: set<seq<int>>, start: Grid, startEmpty: Pos)
    requires ClosedUnderMoves(n, nodes, [], closed) && ClosedUnsolved(n, closed)
    requires Coherent(n, start, startEmpty) && Flatten(start) in closed
    ensures NoPathSolves(n, start, startEmpty)
  {
    forall moves | Replay(n, start, startEmpty, moves).Some?
      ensures !Solved(n, Replay(n, start, startEmpty, moves).value.0)
    {
      ClosedReach(n, nodes, closed, start, startEmpty, moves);
    }
  }

  /** A search whose open list ran empty while keeping its frontier proves its start unsolvable. */
  lemma FrontierExhausted(s: Search)
    requires s.Valid() && s.Frontier() && |s.open| == 0
    ensures NoPathSolves(s.size, s.start, s.startEmpty)
  {
    ExhaustedUnsolvable(s.size, s.nodes, s.closed, s.start, s.startEmpty);
  }

  class Search {
    const size: nat
    const heuristic: string
    const start: Grid
    const startEmpty: Pos
    var nodes: seq<SearchNode>
    var open: seq<nat>
    var closed: set<seq<int>>

    ghost predicate Valid()
      reads this
    {
      size > 0 && heuristic != "euclidean" && Coherent(size, start, startEmpty) &&
      Grown(size, heuristic, start, startEmpty, nodes) &&
      OpenOk(nodes, open, closed)
    }

    /**
     * What the rounds of `aStar` keep, as long as no popped board is solved:
     * the start is closed (or still the one open node, before the first
     * round), every board one move from a closed board is closed or open, and
     * no closed board is solved.
     */
    ghost predicate Frontier()
      reads this
    {
      ClosedUnderMoves(size, nodes, open, closed) && ClosedUnsolved(size, closed) &&
      (Flatten(start) in closed || (open == [0] && |nodes| > 0 && nodes[0].puzzle == start))
    }

    /** The start of `aStar`: the start node (g = 0, f = h) alone in the open list, nothing closed. */
    constructor (size: nat, heuristic: string, puzzle: Grid, emptyPos: Pos)
      requires size > 0 && heuristic != "euclidean" && Coherent(size, puzzle, emptyPos)
      ensures Valid()
      ensures this.size == size && this.heuristic == heuristic && start == puzzle && startEmpty == emptyPos
      ensures nodes == [SearchNode(puzzle, emptyPos, None, None, 0, Heuristic(heuristic, size, puzzle), Heuristic(heuristic, size, puzzle))]
      ensures open == [0] && closed == {}
      ensures Frontier()
    {
      var h := CalculateHeuristic(heuristic, size, puzzle);
      this.size := size;
      this.heuristic := heuristic;
      start := puzzle;
      startEmpty := emptyPos;
      nodes := [SearchNode(puzzle, emptyPos, None, None, 0, h, 0 + h)];
      open := [0];
      closed := {};
      new;
      assert LinkOk(nodes, 0) && NodeOk(size, heuristic, start, startEmpty, nodes, 0);
    }

    /**
     * `openSet.sort(...)` then `openSet.shift()`: the popped node is the first,
     * in array order, of those with the least (fCost, hCost); the rest stays
     * open, sorted.
     */
    method PopBest() returns (current: nat)
      requires Valid() && |open| > 0
      modifies this
      ensures Valid() && nodes == old(nodes) && closed == old(closed)
      ensures Popped(nodes, old(open), current, open)
      ensures multiset(open) + multiset{current} == multiset(old(open))
      ensures current < |nodes| && current !in open
      ensures forall x :: x in open ==> nodes[x].StateKey() != nodes[current].StateKey()
    {
      SortPermutation(nodes, open);
      SortHead(nodes, open);
      open := Sort(nodes, open);
      current := open[0];
      assert open == [current] + open[1..];
      PopOk(nodes, old(open), closed, current, open[1..]);
      open := open[1..];
    }

    /** `openSet.find(node => node.stateKey === key)`: the first open position holding that key. */
    method FindOpen(key: seq<int>) returns (found: Option<nat>)
      requires Valid()
      ensures found.Some? ==> found.value < |open| && nodes[open[found.value]].StateKey() == key
      ensures found.Some? ==> forall j :: 0 <= j < found.value ==> nodes[open[j]].StateKey() != key
      ensures found.None? ==> forall j :: 0 <= j < |open| ==> nodes[open[j]].StateKey() != key
      ensures found == FirstWithKey(nodes, open, key)
    {
      for k := 0 to |open|
        invariant forall j :: 0 <= j < k ==> nodes[open[j]].StateKey() != key
      {
        if nodes[open[k]].StateKey() == key {
          return Some(k);
        }
      }
      return None;
    }

    /**
     * One neighbour of the body of `aStar`'s `for` loop: skipped when its key is
     * closed; pushed when no open node has its key; written over the open node with
     * its key when its g is strictly smaller; otherwise dropped.
     */
    method Offer(nb: SearchNode)
      requires Valid() && nb.parent.Some? && ChildOf(size, heuristic, nodes, nb.parent.value, nb)
      requires nb.parent.value !in open
      modifies this
      ensures Valid() && closed == old(closed)
      ensures Progressed(old(nodes), old(open), nodes, open)
      ensures nb.StateKey() in closed ==> nodes == old(nodes) && open == old(open)
      ensures nb.StateKey() !in closed && (forall x :: x in old(open) ==> old(nodes)[x].StateKey() != nb.StateKey()) ==>
        nodes == old(nodes) + [nb] && open == old(open) + [|old(nodes)|]
      ensures forall x :: x in old(open) && old(nodes)[x].StateKey() == nb.StateKey() ==>
        open == old(open) &&
        (nb.gCost < old(nodes)[x].gCost ==> nodes == old(nodes)[x := Relaxed(old(nodes)[x], nb)]) &&
        (nb.gCost >= old(nodes)[x].gCost ==> nodes == old(nodes))
      ensures (nodes, open) == OfferOne(old(nodes), old(open), closed, nb)
    {
      OfferOneCases(nodes, open, closed, nb);
      OfferOneProgressed(nodes, open, closed, nb);
      var key := nb.StateKey();
      if key in closed {
        return;
      }
      var existing := FindOpen(key);
      if existing.None? {
        Push(nb);
      } else {
        var x := open[existing.value];
        assert x in open;
        if nb.gCost < nodes[x].gCost {
          Relax(x, nb);
        }
      }
    }

    /** `openSet.push(neighbor)`. */
    method Push(nb: SearchNode)
      requires Valid() && nb.parent.Some? && ChildOf(size, heuristic, nodes, nb.parent.value, nb)
      requires nb.parent.value !in open && nb.StateKey() !in closed
      requires forall x :: x in open ==> nodes[x].StateKey() != nb.StateKey()
      modifies this
      ensures Valid() && closed == old(closed)
      ensures nodes == old(nodes) + [nb] && open == old(open) + [|old(nodes)|]
    {
      PushGrown(size, heuristic, start, startEmpty, nodes, nb.parent.value, nb);
      PushOk(nodes, open, closed, nb);
      nodes := nodes + [nb];
      open := open + [|nodes| - 1];
    }

    /** The "better path found" branch: `existingNode` takes the neighbour's g, f, parent and move. */
    method Relax(x: nat, nb: SearchNode)
      requires Valid() && nb.parent.Some? && ChildOf(size, heuristic, nodes, nb.parent.value, nb)
      requires nb.parent.value !in open && x in open && nodes[x].StateKey() == nb.StateKey()
      modifies this
      ensures Valid() && closed == old(closed) && open == old(open)
      ensures nodes == old(nodes)[x := Relaxed(old(nodes)[x], nb)]
    {
      assert forall i :: 0 <= i < |nodes| && nodes[i].parent.Some? ==> nodes[i].parent.value != x;
      RelaxGrown(size, heuristic, start, startEmpty, nodes, nb.parent.value, nb, x);
      RelaxOk(nodes, open, closed, x, nb);
      nodes := nodes[x := Relaxed(nodes[x], nb)];
    }

    /** `closedSet.add(current.stateKey)`. */
    method Close(current: nat)
      requires Valid() && current < |nodes| && current !in open
      requires forall x :: x in open ==> nodes[x].StateKey() != nodes[current].StateKey()
      modifies this
      ensures Valid() && nodes == old(nodes) && open == old(open)
      ensures closed == old(closed) + {nodes[current].StateKey()}
    {
      closed := closed + {nodes[current].StateKey()};
    }

    /**
     * The expansion of `current` in `aStar`: its key is closed, then each of its
     * neighbours is offered. Open nodes only gain lower g values; nodes outside
     * the open list are untouched; every neighbour ends up closed or open.
     */
    method Expand(current: nat)
      requires Valid() && current < |nodes| && current !in open
      requires forall x :: x in open ==> nodes[x].StateKey() != nodes[current].StateKey()
      modifies this
      ensures Valid()
      ensures closed == old(closed) + {old(nodes)[current].StateKey()}
      ensures |nodes| >= |old(nodes)|
      ensures forall i :: 0 <= i < |old(nodes)| && i !in old(open) ==> nodes[i] == old(nodes)[i]
      ensures forall i :: 0 <= i < |old(nodes)| ==>
        nodes[i].puzzle == old(nodes)[i].puzzle && nodes[i].gCost <= old(nodes)[i].gCost
      ensures Expanded(size, heuristic, old(nodes), old(open), closed, current, nodes, open)
    {
      Close(current);
      assert NodeOk(size, heuristic, start, startEmpty, nodes, current);
      var neighbors := GetNeighbors(size, heuristic, nodes[current], current);
      NeighborsAreChildren(size, heuristic, nodes, current);
      OfferEach(neighbors, current);
    }

    /**
     * The `for` loop over the neighbours of node `p`: each is offered in turn,
     * the closed set staying as it is.
     */
    method OfferEach(neighbors: seq<SearchNode>, p: nat)
      requires Valid() && p < |nodes| && p !in open
      requires forall k :: 0 <= k < |neighbors| ==> neighbors[k].parent.Some? && ChildOf(size, heuristic, nodes, p, neighbors[k])
      modifies this
      ensures Valid() && closed == old(closed) && p !in open
      ensures Progressed(old(nodes), old(open), nodes, open)
      ensures (nodes, open) == OfferAll(old(nodes), old(open), closed, neighbors)
    {
      for k := 0 to |neighbors|
        invariant Valid() && closed == old(closed)
        invariant Progressed(old(nodes), old(open), nodes, open) && p !in open
        invariant (nodes, open) == OfferAll(old(nodes), old(open), closed, neighbors[..k])
      {
        ghost var nodes1, open1 := nodes, open;
        ChildOfFrame(size, heuristic, old(nodes), nodes, p, neighbors[k]);
        Offer(neighbors[k]);
        ProgressedTrans(old(nodes), old(open), nodes1, open1, nodes, open);
        assert neighbors[..k + 1][..k] == neighbors[..k];
      }
      assert neighbors[..|neighbors|] == neighbors;
    }

    /**
     * One round of the `aStar` loop: the best node is popped and, unless its
     * board is solved, closed and expanded. `queued` is what is left in the
     * open list right after the pop.
     */
    method Step() returns (current: nat, queued: nat, solved: bool)
      requires Valid() && |open| > 0
      modifies this
      ensures Valid() && current < |old(nodes)| && current < |nodes| && queued + 1 == |old(open)|
      ensures solved <==> Solved(size, old(nodes)[current].puzzle)
      ensures solved ==> nodes == old(nodes) && closed == old(closed)
      ensures !solved ==> closed == old(closed) + {old(nodes)[current].StateKey()}
      ensures IsBest(old(nodes), old(open), current)
      ensures solved ==> Popped(old(nodes), old(open), current, open)
      ensures !solved ==> Expanded(size, heuristic, old(nodes), Sort(old(nodes), old(open))[1..], closed, current, nodes, open)
      ensures !solved && old(Frontier()) ==> Frontier()
    {
      current := PopBest();
      queued := |open|;
      assert |old(open)| == |multiset(old(open))| == |multiset(open)| + 1;
      assert NodeOk(size, heuristic, start, startEmpty, nodes, current);
      solved := IsSolved(size, nodes[current].puzzle);
      if !solved {
        Expand(current);
        if old(Frontier()) {
          ExpansionKeeps(size, heuristic, old(nodes), old(open), old(closed), current, closed, nodes, open);
          if Flatten(start) !in old(closed) {
            assert current == 0;
          }
        }
      }
    }
  }
}
