# 8-puzzle A* solver, modelled in Dafny

`Puzzle.java` solves the 3×3 sliding-tile puzzle with A*. A board holds the tiles 1..8 and a
blank (0), and the goal is `1 2 3 / 4 5 6 / 7 8 0`. The search keeps three things:

- An open priority queue of `State` nodes, ordered by cost g + h. Here g is the number of
  moves from the start, and h is the Manhattan-distance sum over the non-blank tiles.
- A closed set of boards that have already been expanded.
- Two counters, `nodesExpanded` and `nodesGenerated`.

Each round polls a cheapest node, counts it as expanded and closes its board. If that board is
the goal, the round walks the parent references back to the start. Otherwise it moves the
blank left, right, up and down, and enqueues every successor whose board is not closed.

The model has these modules:

- `Wrappers`: `Option`.
- `Grid`: boards as row-major sequences of nine integers (cell (r, c) is index 3r + c), the
  goal, the blank scan, one move (`Successor`), and paths of moves.
- `Heuristic`: the Manhattan sum. Java's `/` and `%` truncate toward zero, and the model does
  the same (`TruncDiv`, `TruncRem`).
- `Nodes`: `State` as the value `Node`, with `getCost`, `equals` and `hashCode`. `hashCode`
  uses Java's 32-bit wrap-around (`ToInt32`).
- `Arena`: every node the search builds lives in one sequence (the arena), in creation order. A
  parent reference is an index into it, and `None` stands for the start node's `null`. This
  module holds the specification functions for the successors, the closed-set filter, the
  minimum of the open list, the parent walk and its reverse, and the arena invariant.
- `Search`: the class `Puzzle`, whose fields are the arena, the open list, the closed set and
  the counters. Its methods follow the Java methods: `Solve`, `MakeAMove`, `Move` and its four
  wrappers, `DeepCopy`, `CalculateSumOfError`, and the path walk of `printSolution`
  (`SolutionPath`). `Poll` stands for the library call `openList.poll()`: it removes any entry
  of least cost. Four methods stand for one block each of a Java method:
  - `Start` is the opening of `solve`.
  - `FindBlank` is the blank scan of `move`.
  - `Neighbors` is the gathering half of `makeAMove`.
  - `EnqueueUnvisited` is its enqueue loop.

The search's collections are represented as follows:

- The open list is a sequence of arena indices.
- The closed set is a `set` of boards, because Java's `HashSet<State>` compares states by
  their board alone.

How the model matches the code, quirk by quirk:

- **Double counting.** A successor is counted once when `move` builds it and once more when
  `makeAMove` enqueues it.
- **The invariant on the counters.** As a result, `nodesGenerated` equals arena size +
  open-list length + `nodesExpanded` − 1 throughout the search.
- **No re-check on poll.** A polled board is not re-checked against the closed set, so a board
  can be expanded twice. The model keeps that.
- **The loop always stops.**
  - The open list only ever holds boards made of the start board's own values and 0, and there
    are finitely many such boards.
  - Each round either closes a board not yet closed, or removes an entry whose board is already
    closed and adds only entries whose board is not.
- **Any input board.** The Java code searches whatever board it is given and never checks it.
  - The model accepts any nine integers, and with them the code's behaviour when a board has
    no blank:
    - the scan's default (0, 0) is used as the blank;
    - when a board has more than one blank, the last one found is used.
  - Properties that need a permutation of 0..8 (`ValidBoard`) take it as a hypothesis.

## Model

| member | source | states |
|---|---|---|
| Grid.BlankBefore | Puzzle.java:140-149 | the scan over the first n cells gives the last cell holding 0, or 0 when none does; no later cell holds 0 |
| Grid.Blank | Puzzle.java:136-149 | the blank position is a cell index below 9 that holds 0 whenever the board has a 0 |
| Grid.Successor | Puzzle.java:152-162 | move builds a successor exactly when the target cell, the blank's row plus dx and column plus dy, lies inside the 3×3 grid |
| Grid.SuccessorSwapsBlank | Puzzle.java:152-162 | no successor exactly when the target cell is outside the 3×3 grid; otherwise the blank cell gets the target's value, the target gets 0, the two cells are adjacent for a unit offset, and every other cell is unchanged |
| Grid.SuccessorValid | Puzzle.java:156-162 | from a permutation of 0..8, a move gives a permutation of 0..8 |
| Grid.StepIsBlankSwap | Puzzle.java:116-162 | each of the four moves from a permutation gives a permutation, reached by swapping the blank with an adjacent cell |
| Grid.PathValid | Puzzle.java:216-230 | every board on a path of moves that starts at a permutation is a permutation |
| Grid.PathTail | Puzzle.java:216-230 | dropping the first board of a path of moves leaves a path of moves, and the first two boards are one move apart |
| Grid.PathSwaps | Puzzle.java:216-230 | consecutive boards on such a path differ by one adjacent blank swap |
| Heuristic.TruncDiv | Puzzle.java:188 | Java's int `/`: the quotient has the sign of the dividend and the magnitude of the dividend's magnitude divided by the divisor, rounded down |
| Heuristic.TruncRem | Puzzle.java:189 | Java's int `%`: the Euclidean remainder of the dividend's magnitude, carrying the dividend's sign, so below the divisor in magnitude |
| Heuristic.TileDistance | Puzzle.java:184-190 | a cell's term is never negative, and the blank contributes 0 |
| Heuristic.TileDistanceAt | Puzzle.java:182-190 | the term of cell (i, j) is the row distance plus the column distance from (i, j) to the target computed with Java's `/` and `%` |
| Heuristic.PartialSum | Puzzle.java:182-196 | the running Manhattan sum over the first n cells is never negative |
| Heuristic.Manhattan | Puzzle.java:177-213 | calculateSumOfError is never negative |
| Heuristic.TileDistanceZero | Puzzle.java:186-190 | a tile's distance term is 0 exactly when the tile sits in its goal cell |
| Heuristic.PartialSumZero | Puzzle.java:182-196 | the sum over n cells is 0 exactly when every term is 0 |
| Heuristic.ManhattanGoal | Puzzle.java:8-12 | calculateSumOfError(goalState) is 0 |
| Heuristic.TilesHome | Puzzle.java:182-196 | a zero heuristic puts every tile in its own goal cell |
| Heuristic.HomeIsGoal | Puzzle.java:8-12 | a permutation of 0..8 whose tiles all sit in their goal cells is the goal |
| Heuristic.ManhattanZeroIff | Puzzle.java:8-12 | on a permutation of 0..8 the heuristic is 0 exactly at the goal (both directions) |
| Heuristic.PartialSumTwoCells | Puzzle.java:182-196 | on two boards that differ in only two cells, the sums differ by exactly those cells' terms |
| Heuristic.TileDistanceAdjacent | Puzzle.java:188-190 | moving a tile one cell changes its distance term by at most 1 |
| Heuristic.StepConsistent | Puzzle.java:177-196 | one move changes the heuristic by at most 1 in either direction |
| Heuristic.Admissible | Puzzle.java:177-196 | the heuristic never exceeds the number of moves on any path to the goal |
| Nodes.Equals | Puzzle.java:309-321 | two states are equal exactly when their boards agree cell by cell, whatever their g, h and parent |
| Nodes.Node.Cost | Puzzle.java:302-306 | getCost is at least g when h is not negative, and at least h when g is not negative |
| Nodes.ToInt32 | Puzzle.java:323-326 | the result is a 32-bit int congruent to its argument modulo 2^32 |
| Nodes.ArrayHash | Puzzle.java:323-326 | Arrays.hashCode of an int array is a 32-bit int |
| Nodes.HashCode | Puzzle.java:323-326 | Arrays.deepHashCode of the board is a 32-bit int |
| Nodes.RowHashReduced | Puzzle.java:323-326 | the hash of one row, with wrap-around after every step, equals one reduction of that row's polynomial |
| Nodes.HashCodeClosedForm | Puzzle.java:323-326 | the hash with wrap-around after every step equals one reduction of the exact polynomial over the nine cells |
| Nodes.HashAgreesWithEquals | Puzzle.java:309-326 | equal states have equal hash codes |
| Nodes.ContainsIsBoardMembership | Puzzle.java:309-326 | the membership test of line 103 (some stored state with the same hashCode that equals the probe) holds exactly when the probe's board is one of the stored boards, so the closed set is a set of boards |
| Arena.ChildIn | Puzzle.java:152-170 | move gives at most one successor |
| Arena.ChildInShape | Puzzle.java:152-170 | a successor exists exactly when the target is in bounds; it has g one more than its parent, h the heuristic of its own board, and a reference to its parent; from a permutation it is a permutation one blank swap away, and its cost is no lower than its parent's |
| Arena.Children | Puzzle.java:90-97 | makeAMove gathers at most four candidates |
| Arena.Span | Puzzle.java:94-97 | the indices of the newly built nodes are consecutive |
| Arena.Unvisited | Puzzle.java:101-108 | every enqueued entry is a candidate whose board is not closed, every such candidate is enqueued, and no more entries than candidates are enqueued |
| Arena.UnvisitedInOrder | Puzzle.java:101-108 | the enqueued entries are the candidates at the positions whose board is not closed, in increasing order of position, each exactly once; so the count added to nodesGenerated is the number of unclosed candidates, repeats included |
| Arena.MinimumExists | Puzzle.java:65 | a non-empty open list has an entry of least cost |
| Arena.ArenaExtend | Puzzle.java:166 | adding a move's successor keeps the arena invariant: each node's h is the heuristic of its board, and each non-start node's parent precedes it, has g one less and is one move away |
| Arena.Reverse | Puzzle.java:230 | Collections.reverse: the same length, with element k taken from the mirrored position |
| Arena.PathTo | Puzzle.java:218-230 | the parent walk, reversed, ends at the node's own board, and holds that board alone exactly when the node has no parent |
| Arena.WalkStep | Puzzle.java:222-226 | one iteration of the walk, recording the current board and moving to the parent, keeps what is recorded plus what is left equal to the whole path |
| Arena.PathShape | Puzzle.java:216-239 | the parent walk from any node, reversed, has g + 1 boards, starts at the start board, ends at the node's board, and is a path of moves |
| Arena.GoalPath | Puzzle.java:216-239 | the path to a goal node ends at the goal and has g + 1 boards; from a permutation every step is a blank swap, and the start's heuristic is at most its number of steps |
| Arena.CostNeverDecreases | Puzzle.java:302-306 | from a permutation, a node's getCost is never below its parent's, since each successor has g one more than its parent (line 166) |
| Search.Puzzle.constructor | Puzzle.java:21-26 | the open list and the closed set start empty and both counters start at 0 |
| Search.Puzzle.CalculateSumOfError | Puzzle.java:177-213 | the nested loops compute exactly the Manhattan sum |
| Search.Puzzle.FindBlank | Puzzle.java:136-149 | the row and column found are within the grid and name the blank position |
| Search.Puzzle.DeepCopy | Puzzle.java:259-270 | the copy is a fresh array with the same cells, so the parent's board is never changed |
| Search.Puzzle.Move | Puzzle.java:133-173 | the arena grows by exactly the successor for the offset (nothing when the target is off the grid), the returned list holds the new node's index, and the counter rises once per successor built |
| Search.Puzzle.MoveLeft | Puzzle.java:116-118 | move with offset (0, -1); the arena invariant is kept |
| Search.Puzzle.MoveRight | Puzzle.java:120-122 | move with offset (0, 1); the arena invariant is kept |
| Search.Puzzle.MoveUp | Puzzle.java:124-126 | move with offset (-1, 0); the arena invariant is kept |
| Search.Puzzle.MoveDown | Puzzle.java:128-130 | move with offset (1, 0); the arena invariant is kept |
| Search.Puzzle.EnqueueUnvisited | Puzzle.java:101-108 | the open list grows by exactly the unclosed candidates, and the counter rises once per enqueued one |
| Search.Puzzle.Neighbors | Puzzle.java:90-97 | the four successors in the order left, right, up and down are added to the arena; their indices are returned, and the counter rises once per successor |
| Search.Puzzle.MakeAMove | Puzzle.java:88-113 | the arena grows by the candidates, the open list by the unclosed ones, and nodesGenerated by one per candidate plus one per enqueued one; the arena invariant is kept |
| Search.Puzzle.Start | Puzzle.java:57-60 | the only node is the start node with g = 0, h its heuristic and no parent; it is the only open entry, nodesGenerated is 1, and the search invariant holds |
| Search.Puzzle.Poll | Puzzle.java:65 | one entry of least cost is removed, and the rest keep their order |
| Search.Puzzle.SolutionPath | Puzzle.java:216-230 | the walk from the goal node through parent references, reversed, is the parent-walk path |
| Search.PollKeeps | Puzzle.java:65-67 | polling, counting and closing keep the search invariant |
| Search.ExpandKeeps | Puzzle.java:88-113 | expanding keeps the search invariant, including the counter identity |
| Search.RoundProgress | Puzzle.java:63-76 | every round either closes a board not yet closed, or lowers the number of open entries whose board is closed |
| Search.Puzzle.Solve | Puzzle.java:55-85 | the loop always ends and keeps the invariant; it reports a solution exactly when the goal board was closed, and otherwise the open list is empty; a solution's path has g + 1 boards, from the start to the goal, joined by moves; from a permutation, each move is a blank swap, and the start's heuristic is at most the number of steps |

## Left out

- `userInput`, which reads stdin, is left out. The start board is the constructor's parameter.
- The heuristic choice read there, the never-read `useManhattan` flag and the commented-out misplaced-tiles heuristic are left out; only the Manhattan sum is live.
- All console output is left out: `printBoard`, the printing in `printSolution` (including the step count and counters it prints), and "No Solution found".
- `State`'s three-argument constructor (no parent) is not modelled separately. It is the start node, with parent `None`.
- Which of several least-cost entries `PriorityQueue.poll` returns is not modelled. `Poll` may remove any of them.
- `HashSet` internals are not modelled. The closed set is a mathematical set of boards.
- The model does not show that a path found is the shortest. It does not show that the search exhausts only on unsolvable boards, or any other global optimality or completeness fact about A*. It proves instead that every round keeps the invariant, that the loop ends, and what shape the returned path has.
- Java's 32-bit `int` is modelled only in `hashCode`. Everywhere else (g, h, the cell values, the counters, `Math.abs`) the model uses unbounded integers. Sums that would wrap in Java need inputs far outside a 3×3 puzzle.
- 2-D arrays: the board is one row-major sequence of nine cells, not a `int[3][3]` of row arrays. `DeepCopy`'s result shares nothing with its argument, as the row clones guarantee.
- Search.Puzzle.Solve requires a `Puzzle` whose collections and counters are still empty, as they are after the constructor. The Java code does not stop a second `solve` call on the same object.
- The open list's entries are arena indices, not references. Aliasing between `State` objects, which Java never mutates after construction, is not modelled.
