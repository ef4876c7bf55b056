/**
 * The board model of the Othello engine: cell states, the two players, the
 * flat 64-cell board indexed row * 8 + column, the eight ray directions
 * with their column-edge rules, and piece counts.
 */
module BoardModel {

  datatype Option<T> = None | Some(value: T)

  /** Number of cells on the board (8 rows of 8); a cell's index is row * 8 + col. */
  const CellCount: int := 64

  datatype Player = Black | White

  /** EMPTY, or a piece of one of the two players. */
  datatype Cell = Empty | Stone(owner: Player)

  /** The board is always exactly 64 cells. */
  type Board = b: seq<Cell> | |b| == 64 witness seq(64, _ => Empty)

  function Opponent(p: Player): (q: Player)
    ensures q != p
  {
    if p == White then Black else White
  }

  /** Every cell is Empty or holds a piece of p or of p's opponent. */
  lemma CellCases(c: Cell, p: Player)
    ensures c == Empty || c == Stone(p) || c == Stone(Opponent(p))
  {
  }

  predicate OnBoard(i: int) {
    0 <= i < 64
  }

  function Row(i: int): int {
    i / 8
  }

  function Col(i: int): int {
    i % 8
  }

  /** The eight ray offsets, in the order the rule engine scans them. */
  const Directions: seq<int> := [-9, -8, -7, -1, 1, 7, 8, 9]

  predicate IsDirection(d: int) {
    d in Directions
  }

  /** The direction list is strictly ascending, so no direction is scanned twice. */
  lemma DirectionsAscending()
    ensures forall j, k | 0 <= j < k < |Directions| :: Directions[j] < Directions[k]
  {
  }

  /** Row component of a direction: -1 (up), 0 or 1 (down). */
  function DRow(d: int): int {
    if d <= -7 then -1 else if d >= 7 then 1 else 0
  }

  /** Column component of a direction: -1 (left), 0 or 1 (right). */
  function DCol(d: int): int {
    if d == -9 || d == -1 || d == 7 then -1
    else if d == -8 || d == 8 then 0
    else 1
  }

  /** The directions with a leftward column component. */
  predicate Leftward(d: int) {
    d == -1 || d == -9 || d == 7
  }

  /** The directions with a rightward column component. */
  predicate Rightward(d: int) {
    d == 1 || d == 9 || d == -7
  }

  /**
   * The column-edge guard: a ray in direction d may not step on from `cell`
   * when that would leave column 0 leftwards or column 7 rightwards.
   */
  predicate StopsAt(d: int, cell: int) {
    (Leftward(d) && cell % 8 == 0) || (Rightward(d) && cell % 8 == 7)
  }

  /** b is the geometric neighbour of a in direction d: one row and one column step, both on the board. */
  predicate Step(a: int, b: int, d: int) {
    OnBoard(a) && OnBoard(b) && Row(b) == Row(a) + DRow(d) && Col(b) == Col(a) + DCol(d)
  }

  lemma DirectionComponents(d: int)
    requires IsDirection(d)
    ensures d == 8 * DRow(d) + DCol(d)
    ensures Leftward(d) <==> DCol(d) == -1
    ensures Rightward(d) <==> DCol(d) == 1
    ensures DRow(d) != 0 || DCol(d) != 0
  {
  }

  /** A cell is determined by its row and column. */
  lemma RowColDetermine(a: int, b: int)
    requires OnBoard(a) && OnBoard(b) && Row(a) == Row(b) && Col(a) == Col(b)
    ensures a == b
  {
    assert a == 8 * Row(a) + Col(a);
    assert b == 8 * Row(b) + Col(b);
  }

  /** A geometric step in direction d always moves the index by exactly d. */
  lemma StepIsOffset(a: int, b: int, d: int)
    requires IsDirection(d) && Step(a, b, d)
    ensures b == a + d
  {
    DirectionComponents(d);
    assert a == 8 * Row(a) + Col(a);
    assert b == 8 * Row(b) + Col(b);
  }

  /**
   * The ray guards are exactly right: from an on-board cell, moving the index
   * by d is a geometric step iff the target is on the board and the column
   * guard does not fire.
   */
  lemma StepIff(a: int, d: int)
    requires OnBoard(a) && IsDirection(d)
    ensures Step(a, a + d, d) <==> OnBoard(a + d) && !StopsAt(d, a)
  {
    DirectionComponents(d);
    assert a == 8 * Row(a) + Col(a);
    if OnBoard(a + d) {
      assert a + d == 8 * Row(a + d) + Col(a + d);
    }
  }

  /** The set of indices holding cell state c. */
  function CellsHolding(b: seq<Cell>, c: Cell): set<int> {
    set k | 0 <= k < |b| && b[k] == c
  }

  /** The number of cells of b holding c. */
  function Count(b: seq<Cell>, c: Cell): nat {
    |CellsHolding(b, c)|
  }

  /** Counting a board one cell longer adds one for the last cell when it holds c. */
  lemma CountSnoc(b: seq<Cell>, c: Cell)
    requires b != []
    ensures Count(b, c) == Count(b[..|b| - 1], c) + (if b[|b| - 1] == c then 1 else 0)
  {
    var n := |b| - 1;
    assert CellsHolding(b, c) == CellsHolding(b[..n], c) + (if b[n] == c then {n} else {});
    assert n !in CellsHolding(b[..n], c);
  }

  /** Every cell is Empty, Black or White: the three counts add up to the board size. */
  lemma {:induction false} CountsPartition(b: seq<Cell>)
    ensures Count(b, Empty) + Count(b, Stone(Black)) + Count(b, Stone(White)) == |b|
    decreases |b|
  {
    if b != [] {
      CountsPartition(b[..|b| - 1]);
      CountSnoc(b, Empty);
      CountSnoc(b, Stone(Black));
      CountSnoc(b, Stone(White));
      match b[|b| - 1]
      case Empty =>
      case Stone(Black) =>
      case Stone(White) =>
    }
  }

  /** Strictly ascending, hence free of duplicates. */
  predicate StrictlyAscending(s: seq<int>) {
    forall a, b | 0 <= a < b < |s| :: s[a] < s[b]
  }

  /** In an ascending sequence, whatever occurs up to position j is at most s[j]. */
  lemma AscendingPrefixBound(s: seq<int>, j: int, x: int)
    requires StrictlyAscending(s) && 0 <= j < |s|
    ensures x in s[..j + 1] ==> x <= s[j]
  {
    if x in s[..j + 1] {
      var i :| 0 <= i < j + 1 && s[..j + 1][i] == x;
      assert s[i] == x;
    }
  }

  /** Two strictly ascending sequences with the same elements are equal. */
  lemma {:induction false} AscendingDetermined(s: seq<int>, t: seq<int>)
    requires StrictlyAscending(s) && StrictlyAscending(t)
    requires forall x :: x in s <==> x in t
    ensures s == t
    decreases |s|
  {
    if s != [] {
      assert s[0] in s;
      assert s[0] in t;
    }
    if t != [] {
      assert t[0] in t;
      assert t[0] in s;
    }
    if s != [] && t != [] {
      // The first element of an ascending sequence is its least element.
      assert s[0] == t[0];
      var s', t' := s[1..], t[1..];
      forall x
        ensures x in s' <==> x in t'
      {
        if x in s' {
          assert x in t && x != t[0];
        }
        if x in t' {
          assert x in s && x != s[0];
        }
      }
      AscendingDetermined(s', t');
      assert s == [s[0]] + s' && t == [t[0]] + t';
    }
  }

  /** No index occurs twice. */
  predicate Distinct(s: seq<int>) {
    forall a, b | 0 <= a < b < |s| :: s[a] != s[b]
  }

  /** A sequence without duplicates has as many elements as its set. */
  lemma {:induction false} DistinctCardinality(s: seq<int>)
    requires Distinct(s)
    ensures |set x | x in s| == |s|
    decreases |s|
  {
    if s != [] {
      var n := |s| - 1;
      var init := s[..n];
      assert Distinct(init);
      DistinctCardinality(init);
      assert (set x | x in s) == (set x | x in init) + {s[n]};
      assert s[n] !in init;
    }
  }
}
