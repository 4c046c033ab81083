/** The search node of class State: a board, its path cost g, its heuristic h and a parent reference. */
module Nodes {
  import opened Wrappers
  import opened Grid

  /**
   * A State. The parent reference is the parent's index in the arena of all nodes
   * the search has built; None stands for the start node's null parent.
   */
  datatype Node = Node(board: Board, g: int, h: int, parent: Option<nat>) {
    /** getCost: the priority f = g + h that the open list orders by; never below either part when the other is not negative. */
    function Cost(): (f: int)
      ensures h >= 0 ==> f >= g
      ensures g >= 0 ==> f >= h
    {
      g + h
    }
  }

  /** State.equals: two states are equal exactly when their boards agree cell by cell. */
  function Equals(a: Node, b: Node): (r: bool)
    ensures r <==> forall k :: 0 <= k < 9 ==> a.board[k] == b.board[k]
  {
    a.board == b.board
  }

  /** Reduction to Java's 32-bit two's-complement int. */
  function ToInt32(x: int): (r: int)
    ensures -0x8000_0000 <= r < 0x8000_0000
    ensures (x - r) % 0x1_0000_0000 == 0
  {
    (x + 0x8000_0000) % 0x1_0000_0000 - 0x8000_0000
  }

  /** Arrays.hashCode on an int[]: start from 1, then result = 31 * result + element, in 32-bit int arithmetic. */
  function ArrayHash(s: seq<int>): (r: int)
    ensures -0x8000_0000 <= r < 0x8000_0000
  {
    if s == [] then 1 else ToInt32(ToInt32(31 * ArrayHash(s[..|s| - 1])) + s[|s| - 1])
  }

  /** Row r of the board, the int[] board[r] of the source. */
  function Row(b: Board, r: nat): (row: seq<int>)
    requires r < 3
    ensures |row| == 3 && forall j :: 0 <= j < 3 ==> row[j] == b[3 * r + j]
  {
    b[3 * r..3 * r + 3]
  }

  /** State.hashCode, that is Arrays.deepHashCode of the board: ArrayHash over the three row hashes. */
  function HashCode(n: Node): (r: int)
    ensures -0x8000_0000 <= r < 0x8000_0000
  {
    ArrayHash([ArrayHash(Row(n.board, 0)), ArrayHash(Row(n.board, 1)), ArrayHash(Row(n.board, 2))])
  }

  /** The unreduced polynomial 31 * (31 * (31 + a) + b) + c of one row. */
  function RowHash(b: Board, row: nat): int
    requires row < 3
  {
    (31 + b[3 * row]) * 31 * 31 + b[3 * row + 1] * 31 + b[3 * row + 2]
  }

  /** How many times ToInt32 wraps x around: x leaves that many multiples of 2^32 behind. */
  function Wraps(x: int): int {
    (x + 0x8000_0000) / 0x1_0000_0000
  }

  lemma Quotient(x: int)
    ensures x == ToInt32(x) + Wraps(x) * 0x1_0000_0000
  {
  }

  /** ToInt32 depends only on the residue modulo 2^32. */
  lemma Congruent(x: int, y: int, k: int)
    requires x == y + k * 0x1_0000_0000
    ensures ToInt32(x) == ToInt32(y)
  {
    ModShift(y + 0x8000_0000, k);
  }

  lemma ModShift(a: int, k: int)
    ensures (a + k * 0x1_0000_0000) % 0x1_0000_0000 == a % 0x1_0000_0000
  {
  }

  /** One hash step on an exact accumulator: reducing the product first changes nothing. */
  lemma StepExact(acc: int, e: int)
    ensures ToInt32(ToInt32(31 * acc) + e) == ToInt32(31 * acc + e)
  {
    Quotient(31 * acc);
    Congruent(31 * acc + e, ToInt32(31 * acc) + e, Wraps(31 * acc));
  }

  /** One hash step on a reduced accumulator gives the reduction of the exact step. */
  lemma StepReduce(x: int, y: int)
    ensures ToInt32(ToInt32(31 * ToInt32(x)) + y) == ToInt32(31 * x + y)
  {
    var r, k := ToInt32(x), Wraps(x);
    Quotient(x);
    assert 31 * x + y == 31 * r + y + (31 * k) * 0x1_0000_0000;
    Congruent(31 * x + y, 31 * r + y, 31 * k);
    StepExact(r, y);
  }

  /** Appending one element to an array is one more step of the fold: multiply by 31, add, wrap. */
  lemma ArrayHashSnoc(s: seq<int>, e: int)
    ensures ArrayHash(s + [e]) == ToInt32(ToInt32(31 * ArrayHash(s)) + e)
  {
    assert (s + [e])[..|s|] == s;
  }

  lemma ArrayHashOne(a: int)
    ensures ArrayHash([a]) == ToInt32(31 + a)
  {
    ArrayHashSnoc([], a);
    assert [] + [a] == [a];
    StepExact(1, a);
  }

  lemma ArrayHashPair(a: int, b: int)
    ensures ArrayHash([a, b]) == ToInt32(31 * (31 + a) + b)
  {
    ArrayHashOne(a);
    ArrayHashSnoc([a], b);
    assert [a] + [b] == [a, b];
    StepReduce(31 + a, b);
  }

  /** The hash of a three-element array is the reduced cubic polynomial. */
  lemma ArrayHashTriple(a: int, b: int, c: int)
    ensures ArrayHash([a, b, c]) == ToInt32((31 + a) * 31 * 31 + b * 31 + c)
  {
    ArrayHashPair(a, b);
    ArrayHashSnoc([a, b], c);
    assert [a, b] + [c] == [a, b, c];
    StepReduce(31 * (31 + a) + b, c);
    assert 31 * (31 * (31 + a) + b) + c == (31 + a) * 31 * 31 + b * 31 + c;
  }

  /** Arrays.hashCode of a row is the reduced row polynomial. */
  lemma RowHashReduced(b: Board, r: nat)
    requires r < 3
    ensures ArrayHash(Row(b, r)) == ToInt32(RowHash(b, r))
  {
    assert Row(b, r) == [b[3 * r], b[3 * r + 1], b[3 * r + 2]];
    ArrayHashTriple(b[3 * r], b[3 * r + 1], b[3 * r + 2]);
  }

  lemma ReduceRows(a: int, b: int, c: int)
    ensures ToInt32((31 + ToInt32(a)) * 31 * 31 + ToInt32(b) * 31 + ToInt32(c)) ==
      ToInt32((31 + a) * 31 * 31 + b * 31 + c)
  {
    var ra, rb, rc := ToInt32(a), ToInt32(b), ToInt32(c);
    var ka, kb, kc := Wraps(a), Wraps(b), Wraps(c);
    Quotient(a);
    Quotient(b);
    Quotient(c);
    assert (31 + a) * 31 * 31 + b * 31 + c ==
      (31 + ra) * 31 * 31 + rb * 31 + rc + (ka * 961 + kb * 31 + kc) * 0x1_0000_0000;
    Congruent((31 + a) * 31 * 31 + b * 31 + c, (31 + ra) * 31 * 31 + rb * 31 + rc, ka * 961 + kb * 31 + kc);
  }

  /**
   * The step-by-step 32-bit hash equals one reduction of the exact polynomial over all
   * nine cells: wrap-around anywhere in between does not change the result.
   */
  lemma HashCodeClosedForm(n: Node)
    ensures HashCode(n) == ToInt32((31 + RowHash(n.board, 0)) * 31 * 31 + RowHash(n.board, 1) * 31 + RowHash(n.board, 2))
  {
    var b := n.board;
    RowHashReduced(b, 0);
    RowHashReduced(b, 1);
    RowHashReduced(b, 2);
    ArrayHashTriple(ArrayHash(Row(b, 0)), ArrayHash(Row(b, 1)), ArrayHash(Row(b, 2)));
    ReduceRows(RowHash(b, 0), RowHash(b, 1), RowHash(b, 2));
  }

  /** hashCode agrees with equals. */
  lemma HashAgreesWithEquals(a: Node, b: Node)
    requires Equals(a, b)
    ensures HashCode(a) == HashCode(b)
  {
  }

  /**
   * HashSet<State>.contains finds a stored state with the same hash code that equals the
   * probe exactly when the probe's board is among the stored states' boards: so a set
   * of boards stands for the closed set.
   */
  lemma ContainsIsBoardMembership(stored: set<Node>, n: Node)
    ensures (exists m :: m in stored && HashCode(m) == HashCode(n) && Equals(m, n)) <==>
      n.board in (set m | m in stored :: m.board)
  {
    if n.board in (set m | m in stored :: m.board) {
      var m :| m in stored && m.board == n.board;
      HashAgreesWithEquals(m, n);
    }
  }
}
