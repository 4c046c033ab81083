/**
 * The A* solver of class Puzzle: the open list, the closed set, the two counters and
 * the methods that find the blank, copy and swap, score, expand, poll and walk back.
 */
module Search {
  import opened Wrappers
  import opened Grid
  import opened Heuristic
  import opened Nodes
  import opened Arena

  /** How solve ends: the goal node and its reconstructed path, or "No Solution found". */
  datatype Outcome = Solved(goalNode: nat, path: seq<Board>) | NoSolution

  /** The effect of one call to move(current, dx, dy) on the arena, the counter and the returned list. */
  ghost predicate Moved(before: seq<Node>, after: seq<Node>, generatedBefore: int, generatedAfter: int,
                        current: nat, dx: int, dy: int, moves: seq<nat>)
    requires current < |before|
  {
    after == before + ChildIn(before[current], current, dx, dy) &&
    moves == Span(|before|, |after|) &&
    generatedAfter == generatedBefore + |after| - |before|
  }

  /**
   * The state of a search from `start`: a valid arena, open entries that name arena nodes,
   * closed boards drawn from the finite universe, at most one closed board per expansion,
   * and the counter identity: every node is counted once when move builds it and once more
   * when it is enqueued (the start node only once), so
   * nodesGenerated == |nodes| + |openList| + nodesExpanded - 1.
   */
  ghost predicate SearchValid(start: Board, nodes: seq<Node>, open: seq<nat>, closed: set<Board>,
                              expanded: int, generated: int)
  {
    ArenaValid(nodes, start) &&
    InArena(open, |nodes|) &&
    closed <= Universe(start) &&
    |closed| <= expanded &&
    generated == |nodes| + |open| + expanded - 1
  }

  /** Polling entry `at`, counting it as expanded and closing its board keeps the search state valid. */
  lemma PollKeeps(start: Board, nodes: seq<Node>, open: seq<nat>, closed: set<Board>,
                  expanded: int, generated: int, at: nat, openAfter: seq<nat>, closedAfter: set<Board>,
                  expandedAfter: int)
    requires SearchValid(start, nodes, open, closed, expanded, generated) && at < |open|
    requires openAfter == open[..at] + open[at + 1..]
    requires closedAfter == closed + {nodes[open[at]].board}
    requires expandedAfter == expanded + 1
    ensures SearchValid(start, nodes, openAfter, closedAfter, expandedAfter, generated)
  {
    InArenaRemove(open, |nodes|, at);
    var b := nodes[open[at]].board;
    assert Scored(nodes, start, open[at]);
    InWords(Alphabet(start), b);
  }

  /** Adding valid successors and enqueuing some of them, with the counter raised by both, keeps it valid. */
  lemma ExpandKeeps(start: Board, nodes: seq<Node>, nodesAfter: seq<Node>, open: seq<nat>, openAfter: seq<nat>,
                    closed: set<Board>, expanded: int, generated: int, generatedAfter: int, added: seq<nat>)
    requires SearchValid(start, nodes, open, closed, expanded, generated)
    requires ArenaValid(nodesAfter, start) && |nodes| <= |nodesAfter| && InArena(added, |nodesAfter|)
    requires openAfter == open + added
    requires generatedAfter == generated + |nodesAfter| - |nodes| + |added|
    ensures SearchValid(start, nodesAfter, openAfter, closed, expanded, generatedAfter)
  {
    forall k | 0 <= k < |openAfter|
      ensures openAfter[k] < |nodesAfter|
    {
      assert openAfter[k] == if k < |open| then open[k] else added[k - |open|];
    }
  }

  /**
   * Each round of solve makes progress: either it closes a board not closed before, or the
   * polled entry's board was already closed and the number of open entries naming closed
   * boards drops, since every entry added names a board that is not closed.
   */
  lemma RoundProgress(start: Board, nodes: seq<Node>, nodesAfter: seq<Node>, open: seq<nat>, openAfter: seq<nat>,
                      closed: set<Board>, closedAfter: set<Board>, at: nat, added: seq<nat>)
    requires InArena(open, |nodes|) && at < |open| && nodes <= nodesAfter
    requires nodes[open[at]].board in Universe(start)
    requires closedAfter == closed + {nodes[open[at]].board}
    requires openAfter == open[..at] + open[at + 1..] + added
    requires InArena(added, |nodesAfter|)
    requires forall k :: 0 <= k < |added| ==> nodesAfter[added[k]].board !in closedAfter
    ensures Unexplored(start, closedAfter) < Unexplored(start, closed) ||
      (Unexplored(start, closedAfter) == Unexplored(start, closed) &&
       Stale(openAfter, nodesAfter, closedAfter) < Stale(open, nodes, closed))
  {
    var b := nodes[open[at]].board;
    var more := nodesAfter[|nodes|..];
    assert nodes + more == nodesAfter;
    if b in closed {
      CloseOldBoard(closed, b);
      StaleRound(open, nodes, more, closed, at, added);
    } else {
      CloseNewBoard(Universe(start), closed, b);
    }
  }

  class Puzzle {
    /** The start board (currentState), read by userInput. */
    const currentState: Board
    /** Every State the search has built, the start node first; parent references are indices. */
    var nodes: seq<Node>
    /** The open list: arena indices, polled by least cost. */
    var openList: seq<nat>
    /** The boards already expanded. */
    var closedList: set<Board>
    var nodesExpanded: int
    var nodesGenerated: int

    /** The state of a search once the start node exists. */
    ghost predicate Valid()
      reads this`nodes, this`openList, this`closedList, this`nodesExpanded, this`nodesGenerated
    {
      SearchValid(currentState, nodes, openList, closedList, nodesExpanded, nodesGenerated)
    }

    /** Puzzle() followed by userInput with `start` as the board read. */
    constructor (start: Board)
      ensures currentState == start
      ensures nodes == [] && openList == [] && closedList == {}
      ensures nodesExpanded == 0 && nodesGenerated == 0
    {
      currentState := start;
      nodes := [];
      openList := [];
      closedList := {};
      nodesExpanded := 0;
      nodesGenerated := 0;
    }

    /** calculateSumOfError: the nested scan with a running sum computes the Manhattan heuristic. */
    method CalculateSumOfError(board: Board) returns (heuristic: int)
      ensures heuristic == Manhattan(board)
    {
      heuristic := 0;
      var i := 0;
      while i < 3
        invariant 0 <= i <= 3
        invariant heuristic == PartialSum(board, 3 * i)
      {
        var j := 0;
        while j < 3
          invariant 0 <= j <= 3
          invariant heuristic == PartialSum(board, 3 * i + j)
        {
          var value := board[3 * i + j];
          TileDistanceAt(i, j, value);
          if value != 0 {
            var targetX := TruncDiv(value - 1, 3);
            var targetY := TruncRem(value - 1, 3);
            heuristic := heuristic + Abs(i - targetX) + Abs(j - targetY);
          }
          assert heuristic == PartialSum(board, 3 * i + j + 1);
          j := j + 1;
        }
        i := i + 1;
      }
    }

    /** The blank-finding scan of move: the last 0 in row-major order, (0, 0) when there is none. */
    method FindBlank(board: Board) returns (zeroX: int, zeroY: int)
      ensures 0 <= zeroX < 3 && 0 <= zeroY < 3
      ensures 3 * zeroX + zeroY == Blank(board)
    {
      zeroX, zeroY := 0, 0;
      var i := 0;
      while i < 3
        invariant 0 <= i <= 3
        invariant 0 <= zeroX < 3 && 0 <= zeroY < 3
        invariant 3 * zeroX + zeroY == BlankBefore(board, 3 * i)
      {
        var j := 0;
        while j < 3
          invariant 0 <= j <= 3
          invariant 0 <= zeroX < 3 && 0 <= zeroY < 3
          invariant 3 * zeroX + zeroY == BlankBefore(board, 3 * i + j)
        {
          if board[3 * i + j] == 0 {
            zeroX := i;
            zeroY := j;
          }
          j := j + 1;
        }
        i := i + 1;
      }
    }

    /** deepCopy: a fresh array holding the board, filled row by row. */
    method DeepCopy(original: Board) returns (copy: array<int>)
      ensures fresh(copy) && copy[..] == original
    {
      copy := new int[9];
      var i := 0;
      while i < 3
        invariant 0 <= i <= 3
        invariant forall k :: 0 <= k < 3 * i ==> copy[k] == original[k]
      {
        copy[3 * i], copy[3 * i + 1], copy[3 * i + 2] := original[3 * i], original[3 * i + 1], original[3 * i + 2];
        i := i + 1;
      }
      assert copy[..] == original;
    }

    /**
     * move(current, x, y): when the blank shifted by (x, y) stays on the grid, a copy of the
     * board with the blank and the target swapped becomes a new node with g + 1, its own
     * heuristic and `current` as parent, and nodesGenerated rises by one.
     */
    method Move(current: nat, x: int, y: int) returns (moves: seq<nat>)
      requires current < |nodes|
      modifies this`nodes, this`nodesGenerated
      ensures Moved(old(nodes), nodes, old(nodesGenerated), nodesGenerated, current, x, y, moves)
    {
      ghost var child := ChildIn(nodes[current], current, x, y);
      var board := nodes[current].board;
      var zeroX, zeroY := FindBlank(board);
      CellOf(zeroX, zeroY);
      var newX := zeroX + x;
      var newY := zeroY + y;
      moves := [];
      if newX >= 0 && newX < 3 && newY >= 0 && newY < 3 {
        var newBoard := DeepCopy(board);
        newBoard[3 * zeroX + zeroY] := newBoard[3 * newX + newY];
        newBoard[3 * newX + newY] := 0;
        assert newBoard[..] == board[3 * zeroX + zeroY := board[3 * newX + newY]][3 * newX + newY := 0];
        assert Successor(board, x, y) == Some(newBoard[..]);
        var h := CalculateSumOfError(newBoard[..]);
        assert child == [Node(newBoard[..], nodes[current].g + 1, h, Some(current))];
        moves := [|nodes|];
        nodes := nodes + [Node(newBoard[..], nodes[current].g + 1, h, Some(current))];
        nodesGenerated := nodesGenerated + 1;
      } else {
        assert child == [];
      }
      assert nodes == old(nodes) + child;
    }

    method MoveLeft(current: nat) returns (moves: seq<nat>)
      requires ArenaValid(nodes, currentState) && current < |nodes|
      modifies this`nodes, this`nodesGenerated
      ensures Moved(old(nodes), nodes, old(nodesGenerated), nodesGenerated, current, 0, -1, moves)
      ensures ArenaValid(nodes, currentState)
    {
      ArenaExtend(nodes, currentState, current, 0, -1);
      moves := Move(current, 0, -1);
    }

    method MoveRight(current: nat) returns (moves: seq<nat>)
      requires ArenaValid(nodes, currentState) && current < |nodes|
      modifies this`nodes, this`nodesGenerated
      ensures Moved(old(nodes), nodes, old(nodesGenerated), nodesGenerated, current, 0, 1, moves)
      ensures ArenaValid(nodes, currentState)
    {
      ArenaExtend(nodes, currentState, current, 0, 1);
      moves := Move(current, 0, 1);
    }

    method MoveUp(current: nat) returns (moves: seq<nat>)
      requires ArenaValid(nodes, currentState) && current < |nodes|
      modifies this`nodes, this`nodesGenerated
      ensures Moved(old(nodes), nodes, old(nodesGenerated), nodesGenerated, current, -1, 0, moves)
      ensures ArenaValid(nodes, currentState)
    {
      ArenaExtend(nodes, currentState, current, -1, 0);
      moves := Move(current, -1, 0);
    }

    method MoveDown(current: nat) returns (moves: seq<nat>)
      requires ArenaValid(nodes, currentState) && current < |nodes|
      modifies this`nodes, this`nodesGenerated
      ensures Moved(old(nodes), nodes, old(nodesGenerated), nodesGenerated, current, 1, 0, moves)
      ensures ArenaValid(nodes, currentState)
    {
      ArenaExtend(nodes, currentState, current, 1, 0);
      moves := Move(current, 1, 0);
    }

    /**
     * The loop of makeAMove over the gathered neighbors: each one whose board is not in the
     * closed set is appended to the open list and counted in nodesGenerated.
     */
    method EnqueueUnvisited(neighbors: seq<nat>)
      requires InArena(neighbors, |nodes|)
      modifies this`openList, this`nodesGenerated
      ensures openList == old(openList) + Unvisited(neighbors, nodes, closedList)
      ensures nodesGenerated == old(nodesGenerated) + |Unvisited(neighbors, nodes, closedList)|
    {
      var i := 0;
      while i < |neighbors|
        invariant 0 <= i <= |neighbors|
        invariant openList == old(openList) + Unvisited(neighbors[..i], nodes, closedList)
        invariant nodesGenerated == old(nodesGenerated) + |Unvisited(neighbors[..i], nodes, closedList)|
      {
        var neighbor := neighbors[i];
        assert neighbors[..i + 1][..i] == neighbors[..i];
        if nodes[neighbor].board !in closedList {
          openList := openList + [neighbor];
          nodesGenerated := nodesGenerated + 1;
        }
        i := i + 1;
      }
      assert neighbors[..i] == neighbors;
    }

    /**
     * The first half of makeAMove: the successors in the order left, right, up, down are
     * built and added to the arena, and their arena indices are returned in that order.
     */
    method Neighbors(current: nat) returns (neighbors: seq<nat>)
      requires ArenaValid(nodes, currentState) && current < |nodes|
      modifies this`nodes, this`nodesGenerated
      ensures ArenaValid(nodes, currentState)
      ensures nodes == old(nodes) + Children(old(nodes)[current], current)
      ensures neighbors == Span(|old(nodes)|, |nodes|)
      ensures nodesGenerated == old(nodesGenerated) + |nodes| - |old(nodes)|
    {
      ghost var parent := nodes[current];
      ghost var n0, n1, n2, n3 := |nodes|, 0, 0, 0;
      var left := MoveLeft(current);
      n1 := |nodes|;
      assert nodes[current] == parent;
      var right := MoveRight(current);
      n2 := |nodes|;
      assert nodes[current] == parent;
      var up := MoveUp(current);
      n3 := |nodes|;
      assert nodes[current] == parent;
      var down := MoveDown(current);
      assert nodes == old(nodes) + ChildIn(parent, current, 0, -1) + ChildIn(parent, current, 0, 1)
        + ChildIn(parent, current, -1, 0) + ChildIn(parent, current, 1, 0);
      AppendChildren(old(nodes), parent, current);
      SpanConcat(n0, n1, n2);
      SpanConcat(n0, n2, n3);
      SpanConcat(n0, n3, |nodes|);
      neighbors := left + right + up + down;
    }

    /**
     * makeAMove: the successors in the order left, right, up, down are added to the arena,
     * those whose board is not closed are appended to the open list, and nodesGenerated
     * rises once per successor and once more per enqueued one.
     */
    method MakeAMove(current: nat)
      requires ArenaValid(nodes, currentState) && current < |nodes|
      modifies this`nodes, this`openList, this`nodesGenerated
      ensures ArenaValid(nodes, currentState)
      ensures nodes == old(nodes) + Children(old(nodes)[current], current)
      ensures openList == old(openList) + Unvisited(Span(|old(nodes)|, |nodes|), nodes, closedList)
      ensures nodesGenerated ==
        old(nodesGenerated) + |nodes| - |old(nodes)| + |Unvisited(Span(|old(nodes)|, |nodes|), nodes, closedList)|
    {
      var neighbors := Neighbors(current);
      EnqueueUnvisited(neighbors);
    }

    /**
     * openList.poll(): removes and returns an entry of least cost. Ties are left open: any
     * entry of least cost may be the one removed. `at` is its position in the old list.
     */
    method Poll() returns (current: nat, ghost at: nat)
      requires openList != [] && InArena(openList, |nodes|)
      modifies this`openList
      ensures at < |old(openList)| && current == old(openList)[at]
      ensures MinAt(old(openList), nodes, at)
      ensures openList == old(openList)[..at] + old(openList)[at + 1..]
    {
      MinimumExists(openList, nodes);
      var i :| MinAt(openList, nodes, i);
      current, at := openList[i], i;
      openList := openList[..i] + openList[i + 1..];
    }

    /**
     * The path-building half of printSolution: follow parent references from `goal` until
     * there is none, collecting boards, then reverse the list.
     */
    method SolutionPath(goal: nat) returns (path: seq<Board>)
      requires ParentsPrecede(nodes) && goal < |nodes|
      ensures path == PathTo(nodes, goal)
    {
      var trail: seq<Board> := [];
      var current: Option<nat> := Some(goal);
      while current.Some?
        invariant current.Some? ==> current.value < |nodes|
        invariant (if current.Some? then PathTo(nodes, current.value) else []) + Reverse(trail) == PathTo(nodes, goal)
        decreases if current.Some? then current.value + 1 else 0
      {
        var c := current.value;
        WalkStep(nodes, c, trail, PathTo(nodes, goal));
        trail := trail + [nodes[c].board];
        current := nodes[c].parent;
      }
      path := Reverse(trail);
    }

    /**
     * The opening of solve: the start node, with g = 0 and the heuristic of the start board,
     * is built and becomes the only entry of the open list, and nodesGenerated is 1.
     */
    method Start()
      requires nodes == [] && openList == [] && closedList == {}
      requires nodesExpanded == 0 && nodesGenerated == 0
      modifies this`nodes, this`openList, this`nodesGenerated
      ensures nodes == [Node(currentState, 0, Manhattan(currentState), None)]
      ensures openList == [0] && nodesGenerated == 1
      ensures Valid()
    {
      var h := CalculateSumOfError(currentState);
      nodes := [Node(currentState, 0, h, None)];
      openList := openList + [0];
      nodesGenerated := nodesGenerated + 1;
      assert InAlphabet(currentState, Alphabet(currentState)) by {
        forall k | 0 <= k < 9
          ensures currentState[k] in Alphabet(currentState)
        {
        }
      }
    }

    /**
     * solve: A* from currentState. The start node (g = 0) is the only entry at first and
     * nodesGenerated is 1; each round polls a least-cost entry, counts it as expanded, closes
     * its board and either stops at the goal or expands it. A popped board is not checked
     * against the closed set, so a board can be expanded more than once. The loop always
     * ends: each round either closes a new board, or removes an entry whose board was
     * already closed and adds only entries whose board is not.
     */
    method Solve() returns (result: Outcome)
      requires nodes == [] && openList == [] && closedList == {}
      requires nodesExpanded == 0 && nodesGenerated == 0
      modifies this`nodes, this`openList, this`closedList, this`nodesExpanded, this`nodesGenerated
      ensures Valid()
      ensures result.Solved? <==> Goal in closedList
      ensures result.NoSolution? ==> openList == []
      ensures result.Solved? ==>
        result.goalNode < |nodes| && nodes[result.goalNode].board == Goal &&
        result.path == PathTo(nodes, result.goalNode) &&
        SolutionShape(currentState, nodes[result.goalNode].g, result.path)
    {
      Start();
      while openList != []
        invariant Valid()
        invariant Goal !in closedList
        decreases Unexplored(currentState, closedList), Stale(openList, nodes, closedList)
      {
        ghost var nodes0, open0, closed0 := nodes, openList, closedList;
        ghost var expanded0, generated0 := nodesExpanded, nodesGenerated;
        var current, at := Poll();
        nodesExpanded := nodesExpanded + 1;
        closedList := closedList + {nodes[current].board};
        PollKeeps(currentState, nodes, open0, closed0, expanded0, nodesGenerated, at, openList, closedList, nodesExpanded);
        if nodes[current].board == Goal {
          var path := SolutionPath(current);
          GoalPath(nodes, currentState, current);
          return Solved(current, path);
        }
        ghost var open1 := openList;
        MakeAMove(current);
        ghost var added := Unvisited(Span(|nodes0|, |nodes|), nodes, closedList);
        ExpandKeeps(currentState, nodes0, nodes, open1, openList, closedList, nodesExpanded, generated0,
                    nodesGenerated, added);
        RoundProgress(currentState, nodes0, nodes, open0, openList, closed0, closedList, at, added);
      }
      return NoSolution;
    }
  }
}
