/**
 * The nodes the search builds, kept in an arena indexed by creation order, and the
 * specification-level views of the search's collections: the successors of a node,
 * the filter against the closed set, the open-list minimum, and the parent walk.
 */
module Arena {
  import opened Wrappers
  import opened Grid
  import opened Heuristic
  import opened Nodes

  /** The successor node move builds for offset (dx, dy) from the node at index `index`: zero or one of them. */
  function ChildIn(parent: Node, index: nat, dx: int, dy: int): (r: seq<Node>)
    ensures |r| <= 1
  {
    match Successor(parent.board, dx, dy)
    case None => []
    case Some(c) => [Node(c, parent.g + 1, Manhattan(c), Some(index))]
  }

  /**
   * What move promises for one offset: a successor exactly when the target cell is in
   * bounds, one step deeper, scored by the heuristic, pointing back at its parent, and,
   * from a permutation of 0..8, a permutation again reached by one blank swap whose
   * cost g + h is no lower than the parent's when the parent is scored too.
   */
  lemma ChildInShape(parent: Node, index: nat, dx: int, dy: int)
    requires IsOffset(dx, dy)
    ensures var z, r := Blank(parent.board), ChildIn(parent, index, dx, dy);
      (|r| == 1 <==> InBounds(z / 3 + dx, z % 3 + dy)) &&
      (|r| == 1 ==> r[0].g == parent.g + 1 && r[0].h == Manhattan(r[0].board) && r[0].parent == Some(index)) &&
      (|r| == 1 && ValidBoard(parent.board) ==>
        ValidBoard(r[0].board) && BlankSwap(parent.board, r[0].board) &&
        (parent.h == Manhattan(parent.board) ==> parent.Cost() <= r[0].Cost()))
  {
    var r := ChildIn(parent, index, dx, dy);
    if |r| == 1 && ValidBoard(parent.board) {
      assert Step(parent.board, r[0].board);
      StepIsBlankSwap(parent.board, r[0].board);
      StepConsistent(parent.board, r[0].board);
    }
  }

  /** The candidates makeAMove gathers, in the order left, right, up, down. */
  function Children(parent: Node, index: nat): (r: seq<Node>)
    ensures |r| <= 4
  {
    ChildIn(parent, index, 0, -1) + ChildIn(parent, index, 0, 1) +
    ChildIn(parent, index, -1, 0) + ChildIn(parent, index, 1, 0)
  }

  /** Appending the four candidates one move at a time appends Children. */
  lemma AppendChildren(nodes: seq<Node>, parent: Node, index: nat)
    ensures nodes + ChildIn(parent, index, 0, -1) + ChildIn(parent, index, 0, 1) +
      ChildIn(parent, index, -1, 0) + ChildIn(parent, index, 1, 0) == nodes + Children(parent, index)
  {
  }

  /** The arena indices lo, lo + 1, ..., hi - 1. */
  function Span(lo: nat, hi: nat): (r: seq<nat>)
    ensures |r| == if lo <= hi then hi - lo else 0
    ensures forall k :: 0 <= k < |r| ==> r[k] == lo + k
    decreases hi
  {
    if hi <= lo then [] else Span(lo, hi - 1) + [hi - 1]
  }

  lemma {:induction false} SpanConcat(a: nat, b: nat, c: nat)
    requires a <= b <= c
    ensures Span(a, b) + Span(b, c) == Span(a, c)
  {
  }

  /** Every entry is the index of a node of an arena of n nodes. */
  predicate InArena(entries: seq<nat>, n: nat) {
    forall k :: 0 <= k < |entries| ==> entries[k] < n
  }

  /** Removing one entry keeps the rest inside the arena. */
  lemma InArenaRemove(entries: seq<nat>, n: nat, at: nat)
    requires InArena(entries, n) && at < |entries|
    ensures InArena(entries[..at] + entries[at + 1..], n)
  {
    var rest := entries[..at] + entries[at + 1..];
    forall k | 0 <= k < |rest|
      ensures rest[k] < n
    {
      assert rest[k] == if k < at then entries[k] else entries[k + 1];
    }
  }

  /** The candidates whose board is not in the closed set, in their order: what makeAMove enqueues. */
  function Unvisited(cands: seq<nat>, nodes: seq<Node>, closed: set<Board>): (r: seq<nat>)
    requires InArena(cands, |nodes|)
    ensures |r| <= |cands| && InArena(r, |nodes|)
    ensures forall e :: e in r ==> e in cands && nodes[e].board !in closed
    ensures forall e :: e in cands && nodes[e].board !in closed ==> e in r
    decreases |cands|
  {
    if cands == [] then []
    else
      var rest := Unvisited(cands[..|cands| - 1], nodes, closed);
      var e := cands[|cands| - 1];
      if nodes[e].board in closed then rest else rest + [e]
  }

  /** r is the subsequence of cands at the strictly increasing positions idx. */
  predicate PicksInOrder(r: seq<nat>, cands: seq<nat>, idx: seq<nat>)
  {
    && |idx| == |r|
    && (forall k :: 0 <= k < |idx| ==> idx[k] < |cands| && r[k] == cands[idx[k]])
    && (forall k, l :: 0 <= k < l < |idx| ==> idx[k] < idx[l])
  }

  /** Picking from a prefix is picking from the whole, with or without the new last element. */
  lemma PicksSnoc(r: seq<nat>, front: seq<nat>, idx: seq<nat>, e: nat)
    requires PicksInOrder(r, front, idx)
    ensures PicksInOrder(r, front + [e], idx)
    ensures PicksInOrder(r + [e], front + [e], idx + [|front|])
  {
    var cands := front + [e];
    forall k | 0 <= k < |idx|
      ensures cands[idx[k]] == front[idx[k]]
    {
    }
  }

  /** The positions of cands, in increasing order, whose board is not in the closed set. */
  function Kept(cands: seq<nat>, nodes: seq<Node>, closed: set<Board>): (idx: seq<nat>)
    requires InArena(cands, |nodes|)
    decreases |cands|
  {
    if cands == [] then []
    else
      var front := cands[..|cands| - 1];
      Kept(front, nodes, closed) + if nodes[cands[|cands| - 1]].board in closed then [] else [|front|]
  }

  /** Unvisited keeps the order of its input and takes every candidate with an
      unclosed board exactly once, at its own position: so its length is the number
      of unclosed positions, and duplicates among the candidates survive as such. */
  lemma {:induction false} UnvisitedInOrder(cands: seq<nat>, nodes: seq<Node>, closed: set<Board>)
    requires InArena(cands, |nodes|)
    ensures PicksInOrder(Unvisited(cands, nodes, closed), cands, Kept(cands, nodes, closed))
    ensures forall j :: 0 <= j < |cands| && nodes[cands[j]].board !in closed ==> j in Kept(cands, nodes, closed)
    decreases |cands|
  {
    if cands != [] {
      var front, e := cands[..|cands| - 1], cands[|cands| - 1];
      assert cands == front + [e];
      var rest, idx0 := Unvisited(front, nodes, closed), Kept(front, nodes, closed);
      UnvisitedInOrder(front, nodes, closed);
      PicksSnoc(rest, front, idx0, e);
      var idx := Kept(cands, nodes, closed);
      forall j | 0 <= j < |cands| && nodes[cands[j]].board !in closed
        ensures j in idx
      {
        if j < |front| {
          assert front[j] == cands[j];
          assert j in idx0;
        }
      }
    }
  }

  /** The node at index i of the open list has the least cost of all entries. */
  predicate MinAt(open: seq<nat>, nodes: seq<Node>, i: int)
    requires InArena(open, |nodes|)
  {
    0 <= i < |open| && forall j :: 0 <= j < |open| ==> nodes[open[i]].Cost() <= nodes[open[j]].Cost()
  }

  /** A non-empty open list has an entry of least cost (what poll removes). */
  lemma {:induction false} MinimumExists(open: seq<nat>, nodes: seq<Node>)
    requires open != []
    requires InArena(open, |nodes|)
    ensures exists i :: MinAt(open, nodes, i)
  {
    if |open| == 1 {
      assert MinAt(open, nodes, 0);
    } else {
      var front := open[..|open| - 1];
      MinimumExists(front, nodes);
      var i :| MinAt(front, nodes, i);
      var last := |open| - 1;
      if nodes[open[last]].Cost() < nodes[open[i]].Cost() {
        assert MinAt(open, nodes, last);
      } else {
        assert MinAt(open, nodes, i);
      }
    }
  }

  /** The values the cells of any board reached from `start` can hold: those of `start`, and the blank. */
  function Alphabet(start: Board): set<int> {
    (set k | 0 <= k < 9 :: start[k]) + {0}
  }

  predicate InAlphabet(b: Board, alphabet: set<int>) {
    forall k :: 0 <= k < 9 ==> b[k] in alphabet
  }

  /** All words of length n over the alphabet: a finite set. */
  ghost function Words(alphabet: set<int>, n: nat): set<seq<int>>
  {
    if n == 0 then {[]} else set x, w | x in alphabet && w in Words(alphabet, n - 1) :: [x] + w
  }

  lemma {:induction false} InWords(alphabet: set<int>, w: seq<int>)
    requires forall k :: 0 <= k < |w| ==> w[k] in alphabet
    ensures w in Words(alphabet, |w|)
  {
    if |w| > 0 {
      var x, v := w[0], w[1..];
      InWords(alphabet, v);
      assert w == [x] + v;
      assert x in alphabet && v in Words(alphabet, |w| - 1);
    }
  }

  /** Every board the search can meet from `start`; the closed set stays inside it. */
  ghost function Universe(start: Board): set<seq<int>> {
    Words(Alphabet(start), |start|)
  }

  /** The boards of the universe that are not closed yet: the first half of solve's termination measure. */
  ghost function Unexplored(start: Board, closed: set<Board>): nat {
    |Universe(start) - closed|
  }

  /** A move writes only values already on the board and the blank. */
  lemma SuccessorInAlphabet(b: Board, alphabet: set<int>, dx: int, dy: int)
    requires InAlphabet(b, alphabet) && 0 in alphabet
    ensures Successor(b, dx, dy).Some? ==> InAlphabet(Successor(b, dx, dy).value, alphabet)
  {
  }

  /** Parent references point to earlier nodes, so the parent walk terminates. */
  predicate ParentsPrecede(nodes: seq<Node>) {
    forall i :: 0 <= i < |nodes| && nodes[i].parent.Some? ==> nodes[i].parent.value < i
  }

  /** Node i carries the heuristic of its board, whose cells hold values of the start board or the blank. */
  ghost predicate Scored(nodes: seq<Node>, start: Board, i: nat)
    requires i < |nodes|
  {
    nodes[i].h == Manhattan(nodes[i].board) && InAlphabet(nodes[i].board, Alphabet(start))
  }

  /** Node i > 0 was built by move from its parent. */
  ghost predicate Linked(nodes: seq<Node>, i: nat)
    requires i < |nodes|
  {
    nodes[i].parent.Some? && nodes[i].parent.value < i &&
    nodes[i].g == nodes[nodes[i].parent.value].g + 1 &&
    Step(nodes[nodes[i].parent.value].board, nodes[i].board)
  }

  /**
   * The arena of one search from `start`: node 0 is the start node (g = 0, no parent),
   * every node's h is the heuristic of its board, and every later node is a successor
   * of an earlier one with g one larger.
   */
  ghost predicate ArenaValid(nodes: seq<Node>, start: Board) {
    |nodes| >= 1 &&
    nodes[0] == Node(start, 0, Manhattan(start), None) &&
    ParentsPrecede(nodes) &&
    (forall i :: 0 <= i < |nodes| ==> Scored(nodes, start, i)) &&
    (forall i :: 0 < i < |nodes| ==> Linked(nodes, i))
  }

  /** Appending the successors of an arena node keeps the arena valid. */
  lemma {:induction false} ArenaExtend(nodes: seq<Node>, start: Board, current: nat, dx: int, dy: int)
    requires ArenaValid(nodes, start) && current < |nodes| && IsOffset(dx, dy)
    ensures ArenaValid(nodes + ChildIn(nodes[current], current, dx, dy), start)
  {
    var b := nodes[current].board;
    var more := ChildIn(nodes[current], current, dx, dy);
    var all := nodes + more;
    if more == [] {
      assert all == nodes;
    } else {
      var c := Successor(b, dx, dy).value;
      assert Scored(nodes, start, current);
      SuccessorInAlphabet(b, Alphabet(start), dx, dy);
      forall i | 0 <= i < |all|
        ensures Scored(all, start, i)
      {
        if i < |nodes| {
          assert Scored(nodes, start, i) && all[i] == nodes[i];
        }
      }
      assert all[|nodes|] == Node(c, nodes[current].g + 1, Manhattan(c), Some(current));
      assert Step(b, c);
      forall i | 0 < i < |all|
        ensures Linked(all, i)
      {
        if i < |nodes| {
          assert Linked(nodes, i);
          assert all[i] == nodes[i] && all[nodes[i].parent.value] == nodes[nodes[i].parent.value];
        }
      }
    }
  }

  /** Collections.reverse: the same boards in the opposite order. */
  function Reverse(s: seq<Board>): (r: seq<Board>)
    ensures |r| == |s|
    ensures forall k :: 0 <= k < |s| ==> r[k] == s[|s| - 1 - k]
    decreases |s|
  {
    if s == [] then [] else [s[|s| - 1]] + Reverse(s[..|s| - 1])
  }

  lemma ReverseSnoc(s: seq<Board>, b: Board)
    ensures Reverse(s + [b]) == [b] + Reverse(s)
  {
    assert (s + [b])[..|s|] == s;
  }

  /** The boards met walking parent references from node i back to the start, then reversed. */
  function PathTo(nodes: seq<Node>, i: nat): (path: seq<Board>)
    requires i < |nodes| && ParentsPrecede(nodes)
    ensures |path| >= 1 && path[|path| - 1] == nodes[i].board
    ensures |path| == 1 <==> nodes[i].parent.None?
    decreases i
  {
    match nodes[i].parent
    case None => [nodes[i].board]
    case Some(p) => PathTo(nodes, p) + [nodes[i].board]
  }

  /** One step of printSolution's walk: moving from node c to its parent and recording c's board keeps the walk on the path. */
  lemma WalkStep(nodes: seq<Node>, c: nat, trail: seq<Board>, whole: seq<Board>)
    requires c < |nodes| && ParentsPrecede(nodes)
    requires PathTo(nodes, c) + Reverse(trail) == whole
    ensures (if nodes[c].parent.Some? then PathTo(nodes, nodes[c].parent.value) else [])
      + Reverse(trail + [nodes[c].board]) == whole
  {
    var b := nodes[c].board;
    var before := if nodes[c].parent.Some? then PathTo(nodes, nodes[c].parent.value) else [];
    assert PathTo(nodes, c) == before + [b];
    ReverseSnoc(trail, b);
    assert before + ([b] + Reverse(trail)) == (before + [b]) + Reverse(trail);
  }

  /**
   * The reconstructed path of any node: it starts at the start board, ends at the node's
   * board, each step is one move, and it has g + 1 boards (path.size() - 1 == g).
   */
  lemma {:induction false} PathShape(nodes: seq<Node>, start: Board, i: nat)
    requires ArenaValid(nodes, start) && i < |nodes|
    ensures var p := PathTo(nodes, i);
      |p| == nodes[i].g + 1 && p[0] == start && p[|p| - 1] == nodes[i].board && IsPath(p)
    decreases i
  {
    if i > 0 {
      assert Linked(nodes, i);
      var q := nodes[i].parent.value;
      PathShape(nodes, start, q);
      var p := PathTo(nodes, i);
      assert p == PathTo(nodes, q) + [nodes[i].board];
      forall k | 0 <= k < |p| - 1
        ensures Step(p[k], p[k + 1])
      {
        if k < |p| - 2 {
          assert p[k] == PathTo(nodes, q)[k] && p[k + 1] == PathTo(nodes, q)[k + 1];
        }
      }
    }
  }

  /**
   * What printSolution's path p promises from start: it has g + 1 boards for the goal node's
   * g, runs from the start board to the goal, each step is one move, and when the start is
   * a permutation of 0..8 every board on it is one, each step is a blank swap, and the
   * start's heuristic is at most the number of steps.
   */
  ghost predicate SolutionShape(start: Board, g: int, p: seq<Board>) {
    |p| == g + 1 && |p| > 0 && p[0] == start && p[|p| - 1] == Goal && IsPath(p) &&
    (ValidBoard(start) ==>
      (forall k :: 0 <= k < |p| ==> ValidBoard(p[k])) &&
      (forall k :: 0 <= k < |p| - 1 ==> BlankSwap(p[k], p[k + 1])) &&
      Manhattan(start) <= |p| - 1)
  }

  /** The path to a goal node has the solution shape. */
  lemma GoalPath(nodes: seq<Node>, start: Board, i: nat)
    requires ArenaValid(nodes, start) && i < |nodes| && nodes[i].board == Goal
    ensures SolutionShape(start, nodes[i].g, PathTo(nodes, i))
  {
    PathShape(nodes, start, i);
    var p := PathTo(nodes, i);
    if ValidBoard(start) {
      PathValid(p);
      PathSwaps(p);
      Admissible(p);
    }
  }

  /**
   * From a permutation of 0..8 every arena board is one as well, and the priority never
   * decreases from a node to its successor (g + 1 + h' >= g + h).
   */
  lemma CostNeverDecreases(nodes: seq<Node>, start: Board, i: nat)
    requires ArenaValid(nodes, start) && ValidBoard(start) && 0 < i < |nodes|
    ensures ValidBoard(nodes[i].board)
    ensures nodes[i].parent.Some? && nodes[nodes[i].parent.value].Cost() <= nodes[i].Cost()
  {
    assert Linked(nodes, i);
    var q := nodes[i].parent.value;
    PathShape(nodes, start, q);
    PathValid(PathTo(nodes, q));
    assert Scored(nodes, start, i) && Scored(nodes, start, q);
    StepConsistent(nodes[q].board, nodes[i].board);
    StepIsBlankSwap(nodes[q].board, nodes[i].board);
  }

  /** Closing a board that was not closed before leaves fewer boards to close. */
  lemma CloseNewBoard(universe: set<seq<int>>, closed: set<Board>, b: Board)
    requires b in universe && b !in closed
    ensures |universe - (closed + {b})| < |universe - closed|
  {
    assert universe - closed == (universe - (closed + {b})) + {b};
  }

  /** Closing a board that is already closed changes nothing (HashSet.add of a present element). */
  lemma CloseOldBoard(closed: set<Board>, b: Board)
    requires b in closed
    ensures closed + {b} == closed
  {
  }

  /**
   * A round of solve that polled a board already closed: the entry is gone, the entries
   * expand adds are not stale, so the number of stale entries drops.
   */
  lemma StaleRound(open: seq<nat>, nodes: seq<Node>, more: seq<Node>, closed: set<Board>, at: nat, added: seq<nat>)
    requires InArena(open, |nodes|) && at < |open| && nodes[open[at]].board in closed
    requires InArena(added, |nodes + more|)
    requires forall k :: 0 <= k < |added| ==> (nodes + more)[added[k]].board !in closed
    ensures Stale(open[..at] + open[at + 1..] + added, nodes + more, closed) < Stale(open, nodes, closed)
  {
    var removed := open[..at] + open[at + 1..];
    InArenaRemove(open, |nodes|, at);
    StaleRemove(open, nodes, closed, at);
    StaleExtend(removed, nodes, more, closed);
    StaleNone(added, nodes + more, closed);
    StaleConcat(removed, added, nodes + more, closed);
  }

  /** How many open-list entries name a node whose board is already closed. */
  ghost function Stale(open: seq<nat>, nodes: seq<Node>, closed: set<Board>): nat
  {
    if open == [] then 0
    else (if open[0] < |nodes| && nodes[open[0]].board in closed then 1 else 0) + Stale(open[1..], nodes, closed)
  }

  lemma {:induction false} StaleConcat(a: seq<nat>, b: seq<nat>, nodes: seq<Node>, closed: set<Board>)
    ensures Stale(a + b, nodes, closed) == Stale(a, nodes, closed) + Stale(b, nodes, closed)
  {
    if a == [] {
      assert a + b == b;
    } else {
      assert (a + b)[0] == a[0] && (a + b)[1..] == a[1..] + b;
      StaleConcat(a[1..], b, nodes, closed);
    }
  }

  lemma {:induction false} StaleExtend(open: seq<nat>, nodes: seq<Node>, more: seq<Node>, closed: set<Board>)
    requires InArena(open, |nodes|)
    ensures Stale(open, nodes + more, closed) == Stale(open, nodes, closed)
  {
    if open != [] {
      assert (nodes + more)[open[0]] == nodes[open[0]];
      StaleExtend(open[1..], nodes, more, closed);
    }
  }

  lemma {:induction false} StaleNone(open: seq<nat>, nodes: seq<Node>, closed: set<Board>)
    requires InArena(open, |nodes|)
    requires forall k :: 0 <= k < |open| ==> nodes[open[k]].board !in closed
    ensures Stale(open, nodes, closed) == 0
  {
    if open != [] {
      StaleNone(open[1..], nodes, closed);
    }
  }

  /** Removing a stale entry lowers the count by one. */
  lemma StaleRemove(open: seq<nat>, nodes: seq<Node>, closed: set<Board>, at: nat)
    requires at < |open| && open[at] < |nodes| && nodes[open[at]].board in closed
    ensures Stale(open[..at] + open[at + 1..], nodes, closed) + 1 == Stale(open, nodes, closed)
  {
    assert open == open[..at] + ([open[at]] + open[at + 1..]);
    StaleConcat(open[..at], [open[at]] + open[at + 1..], nodes, closed);
    StaleConcat([open[at]], open[at + 1..], nodes, closed);
    StaleConcat(open[..at], open[at + 1..], nodes, closed);
  }
}
