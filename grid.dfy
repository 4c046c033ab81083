/**
 * The 3x3 board of the 8-puzzle, its goal layout and the blank-sliding move.
 * A board is stored row-major: the cell in row r and column c is index 3 * r + c.
 */
module Grid {
  import opened Wrappers

  /** Nine cells; the value 0 is the blank. */
  type Board = b: seq<int> | |b| == 9 witness [1, 2, 3, 4, 5, 6, 7, 8, 0]

  /** The goal layout 1 2 3 / 4 5 6 / 7 8 0. */
  const Goal: Board := [1, 2, 3, 4, 5, 6, 7, 8, 0]

  function Abs(x: int): (r: int)
    ensures r >= 0 && (r == x || r == -x)
  {
    if x < 0 then -x else x
  }

  /** A permutation of 0..8: every cell holds one of 0..8 and each of 0..8 occurs. */
  predicate ValidBoard(b: Board) {
    (forall k :: 0 <= k < 9 ==> 0 <= b[k] <= 8) &&
    (forall v :: 0 <= v <= 8 ==> v in b)
  }

  /**
   * Where the row-major scan of the first n cells leaves the blank position:
   * the last cell holding 0, or cell 0 (the scan's initial (0, 0)) when none does.
   */
  function BlankBefore(b: Board, n: nat): (z: nat)
    requires n <= 9
    ensures z < 9 && (n > 0 ==> z < n)
    ensures (exists k :: 0 <= k < n && b[k] == 0) ==> b[z] == 0 && forall k :: z < k < n ==> b[k] != 0
    ensures (forall k :: 0 <= k < n ==> b[k] != 0) ==> z == 0
  {
    if n == 0 then 0 else if b[n - 1] == 0 then n - 1 else BlankBefore(b, n - 1)
  }

  /** The blank position that Puzzle.move works from. */
  function Blank(b: Board): (z: nat)
    ensures z < 9
    ensures 0 in b ==> b[z] == 0
  {
    BlankBefore(b, |b|)
  }

  /** Row i, column j of the grid is index 3 * i + j. */
  lemma CellOf(i: int, j: int)
    requires InBounds(i, j)
    ensures (3 * i + j) / 3 == i && (3 * i + j) % 3 == j
  {
  }

  predicate InBounds(row: int, col: int) {
    0 <= row < 3 && 0 <= col < 3
  }

  /** The four offsets (row, column) that moveLeft, moveRight, moveUp and moveDown pass to move. */
  predicate IsOffset(dx: int, dy: int) {
    (dx == 0 && (dy == -1 || dy == 1)) || (dy == 0 && (dx == -1 || dx == 1))
  }

  /** Two cells that share a side. */
  predicate Adjacent(z: int, t: int) {
    0 <= z < 9 && 0 <= t < 9 && Abs(z / 3 - t / 3) + Abs(z % 3 - t % 3) == 1
  }

  /**
   * The board move(current, dx, dy) builds: the target cell's value is copied
   * into the blank's cell and the target cell becomes 0; None when the target
   * lies outside the grid.
   */
  function Successor(b: Board, dx: int, dy: int): (r: Option<Board>)
    ensures r.Some? <==> InBounds(Blank(b) / 3 + dx, Blank(b) % 3 + dy)
  {
    var z := Blank(b);
    var newX, newY := z / 3 + dx, z % 3 + dy;
    if InBounds(newX, newY) then
      var t := 3 * newX + newY;
      var c: Board := b[z := b[t]][t := 0];
      Some(c)
    else
      None
  }

  /** One move of the generator, in any of the four directions. */
  predicate Step(a: Board, b: Board) {
    Successor(a, 0, -1) == Some(b) || Successor(a, 0, 1) == Some(b) ||
    Successor(a, -1, 0) == Some(b) || Successor(a, 1, 0) == Some(b)
  }

  /** b is a with the blank swapped with a cell next to it. */
  ghost predicate BlankSwap(a: Board, b: Board) {
    exists z, t :: Adjacent(z, t) && a[z] == 0 && b == a[z := a[t]][t := 0]
  }

  /** Consecutive boards are related by one move. */
  predicate IsPath(p: seq<Board>) {
    forall k :: 0 <= k < |p| - 1 ==> Step(p[k], p[k + 1])
  }

  /**
   * move's outcome for offset (dx, dy) on a board that has a blank: nothing when the
   * target is out of bounds, otherwise the blank and the target cell are swapped and
   * every other cell is unchanged.
   */
  lemma SuccessorSwapsBlank(b: Board, dx: int, dy: int)
    requires 0 in b
    ensures var z := Blank(b);
      var newX, newY := z / 3 + dx, z % 3 + dy;
      var t := 3 * newX + newY;
      match Successor(b, dx, dy)
      case None => !InBounds(newX, newY)
      case Some(c) =>
        InBounds(newX, newY) && b[z] == 0 && c[z] == b[t] && c[t] == 0 &&
        (IsOffset(dx, dy) ==> Adjacent(z, t)) &&
        forall k :: 0 <= k < 9 && k != z && k != t ==> c[k] == b[k]
  {
  }

  /** A move keeps a permutation of 0..8 a permutation of 0..8. */
  lemma SuccessorValid(b: Board, dx: int, dy: int)
    requires ValidBoard(b)
    requires IsOffset(dx, dy)
    ensures Successor(b, dx, dy).Some? ==> ValidBoard(Successor(b, dx, dy).value)
  {
    if Successor(b, dx, dy).Some? {
      var c := Successor(b, dx, dy).value;
      var z := Blank(b);
      var t := 3 * (z / 3 + dx) + (z % 3 + dy);
      SuccessorSwapsBlank(b, dx, dy);
      forall v | 0 <= v <= 8
        ensures v in c
      {
        assert v in b;
        var k :| 0 <= k < 9 && b[k] == v;
        if k == z {
          assert c[t] == v;
        } else if k == t {
          assert c[z] == v;
        } else {
          assert c[k] == v;
        }
      }
    }
  }

  /** On a permutation of 0..8 every move is an adjacent blank swap and yields a permutation again. */
  lemma StepIsBlankSwap(a: Board, b: Board)
    requires ValidBoard(a)
    requires Step(a, b)
    ensures ValidBoard(b) && BlankSwap(a, b)
  {
    var d: (int, int) :=
      if Successor(a, 0, -1) == Some(b) then (0, -1)
      else if Successor(a, 0, 1) == Some(b) then (0, 1)
      else if Successor(a, -1, 0) == Some(b) then (-1, 0)
      else (1, 0);
    var dx, dy := d.0, d.1;
    assert Successor(a, dx, dy) == Some(b);
    SuccessorSwapsBlank(a, dx, dy);
    SuccessorValid(a, dx, dy);
    var z := Blank(a);
    var t := 3 * (z / 3 + dx) + (z % 3 + dy);
    assert Adjacent(z, t) && a[z] == 0 && b == a[z := a[t]][t := 0];
  }

  /** Dropping the first board of a path leaves a path. */
  lemma PathTail(p: seq<Board>)
    requires |p| > 1 && IsPath(p)
    ensures Step(p[0], p[1]) && IsPath(p[1..])
  {
    var q := p[1..];
    forall k | 0 <= k < |q| - 1
      ensures Step(q[k], q[k + 1])
    {
      assert q[k] == p[k + 1] && q[k + 1] == p[k + 2];
    }
  }

  /** Every board on a path that starts from a permutation of 0..8 is one. */
  lemma {:induction false} PathValid(p: seq<Board>)
    requires |p| > 0 && ValidBoard(p[0]) && IsPath(p)
    ensures forall k :: 0 <= k < |p| ==> ValidBoard(p[k])
  {
    if |p| > 1 {
      PathTail(p);
      StepIsBlankSwap(p[0], p[1]);
      var q := p[1..];
      PathValid(q);
      forall k | 1 <= k < |p|
        ensures ValidBoard(p[k])
      {
        assert p[k] == q[k - 1];
      }
    }
  }

  /** Along a path that starts from a permutation of 0..8, each step swaps the blank with a neighbouring cell. */
  lemma PathSwaps(p: seq<Board>)
    requires |p| > 0 && ValidBoard(p[0]) && IsPath(p)
    ensures forall k :: 0 <= k < |p| - 1 ==> BlankSwap(p[k], p[k + 1])
  {
    PathValid(p);
    forall k | 0 <= k < |p| - 1
      ensures BlankSwap(p[k], p[k + 1])
    {
      StepIsBlankSwap(p[k], p[k + 1]);
    }
  }
}
