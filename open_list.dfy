/**
 * The order of the A* open list (a-star/script.js): `openSet.sort` with a
 * comparator on fCost, then hCost. Array.prototype.sort is stable, so the
 * result is fully determined: sorted by (fCost, hCost), a permutation of the
 * input, and with nodes of equal rank left in their original order. Sort is
 * that stable sort written as an insertion sort; the lemmas establish the
 * three properties, and that the head of the sorted list, the node `shift`
 * pops, is the first node of least rank in the unsorted list.
 *
 * The open list holds arena indices (see SearchNodes); the rank of an index
 * is that of the node it points at.
 */
module OpenList {
  import opened SearchNodes

  /** The comparator's "a comes no later than b": by fCost, ties broken by hCost. */
  predicate NotAfter(a: SearchNode, b: SearchNode) {
    a.fCost < b.fCost || (a.fCost == b.fCost && a.hCost <= b.hCost)
  }

  predicate HasRank(a: SearchNode, f: nat, h: nat) {
    a.fCost == f && a.hCost == h
  }

  /** Every entry of `s` points into the arena. */
  predicate Indexes(nodes: seq<SearchNode>, s: seq<nat>) {
    forall k :: 0 <= k < |s| ==> s[k] < |nodes|
  }

  predicate SortedBy(nodes: seq<SearchNode>, s: seq<nat>)
    requires Indexes(nodes, s)
  {
    forall a, b :: 0 <= a < b < |s| ==> NotAfter(nodes[s[a]], nodes[s[b]])
  }

  /** Inserts `x` after every entry that does not come after it. */
  function Insert(nodes: seq<SearchNode>, t: seq<nat>, x: nat): (r: seq<nat>)
    requires Indexes(nodes, t) && x < |nodes|
    ensures Indexes(nodes, r) && |r| == |t| + 1
    ensures multiset(r) == multiset(t) + multiset{x}
  {
    if t == [] || NotAfter(nodes[t[|t| - 1]], nodes[x]) then t + [x]
    else
      assert t == t[..|t| - 1] + [t[|t| - 1]];
      Insert(nodes, t[..|t| - 1], x) + [t[|t| - 1]]
  }

  /** The open list after `openSet.sort(...)`. */
  function Sort(nodes: seq<SearchNode>, s: seq<nat>): (r: seq<nat>)
    requires Indexes(nodes, s)
    ensures Indexes(nodes, r) && |r| == |s|
  {
    if s == [] then [] else Insert(nodes, Sort(nodes, s[..|s| - 1]), s[|s| - 1])
  }

  /** The entries of `s` of rank (f, h), in order. */
  function Filter(nodes: seq<SearchNode>, s: seq<nat>, f: nat, h: nat): seq<nat>
    requires Indexes(nodes, s)
  {
    if s == [] then []
    else Filter(nodes, s[..|s| - 1], f, h) + (if HasRank(nodes[s[|s| - 1]], f, h) then [s[|s| - 1]] else [])
  }

  /**
   * The position of the first entry of least rank: a left-to-right scan that
   * only moves on to a strictly smaller rank.
   */
  function MinIndex(nodes: seq<SearchNode>, s: seq<nat>): (m: nat)
    requires Indexes(nodes, s) && |s| > 0
    ensures m < |s|
    ensures forall j :: 0 <= j < |s| ==> NotAfter(nodes[s[m]], nodes[s[j]])
    ensures forall j :: 0 <= j < m ==> !NotAfter(nodes[s[j]], nodes[s[m]])
  {
    if |s| == 1 then 0
    else
      var m := MinIndex(nodes, s[..|s| - 1]);
      if NotAfter(nodes[s[m]], nodes[s[|s| - 1]]) then m else |s| - 1
  }

  /** `current` is the first entry of `s` of least rank: the one `popBest` takes. */
  predicate IsBest(nodes: seq<SearchNode>, s: seq<nat>, current: nat) {
    Indexes(nodes, s) && |s| > 0 && current == s[MinIndex(nodes, s)]
  }

  /** What `popBest` does to the open list `s`: it takes the best entry and leaves `rest`, the list sorted without its head. */
  predicate Popped(nodes: seq<SearchNode>, s: seq<nat>, current: nat, rest: seq<nat>) {
    IsBest(nodes, s, current) && rest == Sort(nodes, s)[1..]
  }

  // ---------------------------------------------------------------------------
  // Permutation

  lemma {:induction false} SortPermutation(nodes: seq<SearchNode>, s: seq<nat>)
    requires Indexes(nodes, s)
    ensures multiset(Sort(nodes, s)) == multiset(s)
  {
    if s != [] {
      SortPermutation(nodes, s[..|s| - 1]);
      assert s == s[..|s| - 1] + [s[|s| - 1]];
    }
  }

  // ---------------------------------------------------------------------------
  // Sortedness

  lemma {:induction false} InsertSorted(nodes: seq<SearchNode>, t: seq<nat>, x: nat)
    requires Indexes(nodes, t) && x < |nodes| && SortedBy(nodes, t)
    ensures SortedBy(nodes, Insert(nodes, t, x))
  {
    var r := Insert(nodes, t, x);
    if t == [] || NotAfter(nodes[t[|t| - 1]], nodes[x]) {
    } else {
      var t' := t[..|t| - 1];
      var last := t[|t| - 1];
      InsertSorted(nodes, t', x);
      var r' := Insert(nodes, t', x);
      assert r == r' + [last];
      forall a | 0 <= a < |r'|
        ensures NotAfter(nodes[r'[a]], nodes[last])
      {
        assert r'[a] in multiset(r');
        assert r'[a] == x || r'[a] in multiset(t');
        if r'[a] != x {
          var k :| 0 <= k < |t'| && t'[k] == r'[a];
          assert t[k] == t'[k];
        }
      }
    }
  }

  lemma {:induction false} SortSorted(nodes: seq<SearchNode>, s: seq<nat>)
    requires Indexes(nodes, s)
    ensures SortedBy(nodes, Sort(nodes, s))
  {
    if s != [] {
      SortSorted(nodes, s[..|s| - 1]);
      InsertSorted(nodes, Sort(nodes, s[..|s| - 1]), s[|s| - 1]);
    }
  }

  // ---------------------------------------------------------------------------
  // Stability

  lemma {:induction false} FilterAppend(nodes: seq<SearchNode>, s: seq<nat>, x: nat, f: nat, h: nat)
    requires Indexes(nodes, s) && x < |nodes|
    ensures Filter(nodes, s + [x], f, h) == Filter(nodes, s, f, h) + (if HasRank(nodes[x], f, h) then [x] else [])
  {
    assert (s + [x])[..|s|] == s;
  }

  lemma {:induction false} InsertFilter(nodes: seq<SearchNode>, t: seq<nat>, x: nat, f: nat, h: nat)
    requires Indexes(nodes, t) && x < |nodes| && SortedBy(nodes, t)
    ensures Filter(nodes, Insert(nodes, t, x), f, h) ==
      Filter(nodes, t, f, h) + (if HasRank(nodes[x], f, h) then [x] else [])
  {
    if t == [] || NotAfter(nodes[t[|t| - 1]], nodes[x]) {
      FilterAppend(nodes, t, x, f, h);
    } else {
      var t' := t[..|t| - 1];
      var last := t[|t| - 1];
      InsertFilter(nodes, t', x, f, h);
      FilterAppend(nodes, Insert(nodes, t', x), last, f, h);
      assert t == t' + [last];
      FilterAppend(nodes, t', last, f, h);
    }
  }

  /** The sort keeps the nodes of each rank in their original order. */
  lemma {:induction false} SortStable(nodes: seq<SearchNode>, s: seq<nat>, f: nat, h: nat)
    requires Indexes(nodes, s)
    ensures Filter(nodes, Sort(nodes, s), f, h) == Filter(nodes, s, f, h)
  {
    if s != [] {
      var s' := s[..|s| - 1];
      SortStable(nodes, s', f, h);
      SortSorted(nodes, s');
      InsertFilter(nodes, Sort(nodes, s'), s[|s| - 1], f, h);
    }
  }

  // ---------------------------------------------------------------------------
  // The popped node

  lemma {:induction false} InsertHead(nodes: seq<SearchNode>, t: seq<nat>, x: nat)
    requires Indexes(nodes, t) && x < |nodes| && SortedBy(nodes, t)
    ensures Insert(nodes, t, x)[0] == if t != [] && NotAfter(nodes[t[0]], nodes[x]) then t[0] else x
  {
    if t != [] && !NotAfter(nodes[t[|t| - 1]], nodes[x]) {
      var t' := t[..|t| - 1];
      if t' != [] {
        InsertHead(nodes, t', x);
      }
    }
  }

  /** `openSet.shift()` after the sort pops the first entry of least rank of the unsorted list. */
  lemma {:induction false} SortHead(nodes: seq<SearchNode>, s: seq<nat>)
    requires Indexes(nodes, s) && |s| > 0
    ensures Sort(nodes, s)[0] == s[MinIndex(nodes, s)]
  {
    var s' := s[..|s| - 1];
    if s' != [] {
      SortHead(nodes, s');
      SortSorted(nodes, s');
      InsertHead(nodes, Sort(nodes, s'), s[|s| - 1]);
    }
  }
}
