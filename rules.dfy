/**
 * The Othello capture rule as specification functions over a board value:
 * the walk of one ray, the flips of one direction, the flips of a move in
 * the fixed direction order, the ascending list of legal moves, and the
 * board after a move. The lemmas state what these promise: bracketing in
 * both directions, straight rays that never wrap around a column edge,
 * only opponent cells and no duplicates, the exact legal-move list, and the
 * effect of a legal move on the piece counts.
 */
module MoveRules {
  import opened BoardModel

  /**
   * The walk of a ray in direction d from `cur` on. Some(run) when the walk
   * meets the opponent's cells `run` and then a cell of p; None when it
   * meets an Empty cell, leaves the board, or would cross a column edge
   * after an opponent cell, before a cell of p.
   */
  function Run(b: Board, p: Player, d: int, cur: int): Option<seq<int>>
    requires IsDirection(d)
    decreases if d > 0 then CellCount - cur else cur + 1
  {
    if !OnBoard(cur) then None
    else if b[cur] == Stone(Opponent(p)) then
      if StopsAt(d, cur) then None
      else match Run(b, p, d, cur + d)
        case None => None
        case Some(rest) => Some([cur] + rest)
    else if b[cur] == Stone(p) then Some([])
    else None
  }

  /** The cells one direction contributes to a move at `index`. */
  function RayFlips(b: Board, p: Player, index: int, d: int): seq<int>
    requires OnBoard(index) && IsDirection(d)
  {
    if StopsAt(d, index) then []
    else match Run(b, p, d, index + d)
      case Some(run) => run
      case None => []
  }

  /** The committed rays of the first k directions, in direction-list order. */
  function FlipsUpTo(b: Board, p: Player, index: int, k: int): seq<int>
    requires OnBoard(index) && 0 <= k <= |Directions|
    decreases k
  {
    if k == 0 then [] else FlipsUpTo(b, p, index, k - 1) + RayFlips(b, p, index, Directions[k - 1])
  }

  /**
   * The opponent cells a piece of p placed at `index` would flip: nothing on
   * an occupied cell, otherwise the committed rays of all eight directions.
   */
  function Flips(b: Board, p: Player, index: int): seq<int>
    requires OnBoard(index)
  {
    if b[index] != Empty then [] else FlipsUpTo(b, p, index, |Directions|)
  }

  /**
   * `run` is a bracketed line leaving `origin` in direction d: each cell of
   * run is the geometric neighbour of the one before it (the first, of
   * `origin`) and holds the opponent's colour, and the neighbour after the
   * last holds p's.
   */
  predicate Bracketed(b: Board, p: Player, origin: int, d: int, run: seq<int>)
    decreases |run|
  {
    if run == [] then Step(origin, origin + d, d) && b[origin + d] == Stone(p)
    else Step(origin, run[0], d) && b[run[0]] == Stone(Opponent(p)) && Bracketed(b, p, run[0], d, run[1..])
  }

  /** Unfolding a nonempty bracketed run: its head is the next cell along d and holds an opponent piece. */
  lemma BracketedCons(b: Board, p: Player, origin: int, d: int, run: seq<int>)
    requires IsDirection(d) && run != [] && Bracketed(b, p, origin, d, run)
    ensures run[0] == origin + d && OnBoard(run[0]) && b[run[0]] == Stone(Opponent(p))
    ensures Bracketed(b, p, run[0], d, run[1..])
  {
    StepIsOffset(origin, run[0], d);
  }

  /** An empty bracketed run ends at once on a piece of p's own. */
  lemma BracketedNil(b: Board, p: Player, origin: int, d: int)
    requires IsDirection(d) && Bracketed(b, p, origin, d, [])
    ensures OnBoard(origin + d) && b[origin + d] == Stone(p)
  {
  }

  lemma {:induction false} RunBracketed(b: Board, p: Player, d: int, prev: int, r: seq<int>)
    requires IsDirection(d) && Step(prev, prev + d, d)
    requires Run(b, p, d, prev + d) == Some(r)
    ensures Bracketed(b, p, prev, d, r)
    decreases |r|
  {
    var cur := prev + d;
    if b[cur] == Stone(Opponent(p)) {
      var rest := Run(b, p, d, cur + d).value;
      assert r == [cur] + rest;
      StepIff(cur, d);
      RunBracketed(b, p, d, cur, rest);
      assert r[0] == cur && r[1..] == rest;
    } else {
      assert r == [];
    }
  }

  lemma {:induction false} RunComplete(b: Board, p: Player, d: int, prev: int, r: seq<int>)
    requires IsDirection(d) && Bracketed(b, p, prev, d, r)
    ensures Run(b, p, d, prev + d) == Some(r)
    decreases |r|
  {
    if r == [] {
      assert b[prev + d] == Stone(p);
    } else {
      var cur, rest := r[0], r[1..];
      StepIsOffset(prev, cur, d);
      RunComplete(b, p, d, cur, rest);
      var next := if rest == [] then cur + d else rest[0];
      assert Step(cur, next, d);
      StepIsOffset(cur, next, d);
      StepIff(cur, d);
      assert r == [cur] + rest;
    }
  }

  /** What one direction contributes is bracketed, when it is not empty. */
  lemma RayFlipsBracketed(b: Board, p: Player, index: int, d: int)
    requires OnBoard(index) && IsDirection(d) && RayFlips(b, p, index, d) != []
    ensures Bracketed(b, p, index, d, RayFlips(b, p, index, d))
  {
    StepIff(index, d);
    RunBracketed(b, p, d, index, RayFlips(b, p, index, d));
  }

  /**
   * Bracketing in both directions: a non-empty run is what direction d
   * contributes iff it is a bracketed line from `index`.
   */
  lemma RayFlipsIff(b: Board, p: Player, index: int, d: int, run: seq<int>)
    requires OnBoard(index) && IsDirection(d) && run != []
    ensures RayFlips(b, p, index, d) == run <==> Bracketed(b, p, index, d, run)
  {
    if RayFlips(b, p, index, d) == run {
      RayFlipsBracketed(b, p, index, d);
    }
    if Bracketed(b, p, index, d, run) {
      StepIsOffset(index, run[0], d);
      StepIff(index, d);
      RunComplete(b, p, d, index, run);
    }
  }

  /**
   * A ray that meets an Empty cell, the board's end or a column edge before
   * a cell of p brackets nothing: unless the adjacent cells of the ray form
   * a bracketed line, the direction contributes nothing.
   */
  lemma RayFlipsEmptyUnlessBracketed(b: Board, p: Player, index: int, d: int)
    requires OnBoard(index) && IsDirection(d)
    requires forall run :: run != [] ==> !Bracketed(b, p, index, d, run)
    ensures RayFlips(b, p, index, d) == []
  {
    if RayFlips(b, p, index, d) != [] {
      RayFlipsBracketed(b, p, index, d);
      assert false;
    }
  }

  /**
   * The j-th cell of a bracketed line lies j + 1 whole steps from its
   * origin, in row and in column, and holds the opponent's colour.
   */
  lemma {:induction false} BracketedLine(b: Board, p: Player, origin: int, d: int, run: seq<int>, j: int)
    requires IsDirection(d) && Bracketed(b, p, origin, d, run) && 0 <= j < |run|
    ensures OnBoard(run[j]) && b[run[j]] == Stone(Opponent(p))
    ensures Row(run[j]) == Row(origin) + (j + 1) * DRow(d)
    ensures Col(run[j]) == Col(origin) + (j + 1) * DCol(d)
    decreases |run|
  {
    if j > 0 {
      BracketedLine(b, p, run[0], d, run[1..], j - 1);
      assert run[1..][j - 1] == run[j];
      assert (j + 1) * DRow(d) == j * DRow(d) + DRow(d);
      assert (j + 1) * DCol(d) == j * DCol(d) + DCol(d);
    }
  }

  /**
   * No wraparound: the j-th flipped cell of direction d lies exactly j + 1
   * rows and columns away from `index` along d's row and column components,
   * so a ray never leaves column 0 leftwards or column 7 rightwards.
   */
  lemma RayFlipsStraight(b: Board, p: Player, index: int, d: int, j: int)
    requires OnBoard(index) && IsDirection(d) && 0 <= j < |RayFlips(b, p, index, d)|
    ensures OnBoard(RayFlips(b, p, index, d)[j])
    ensures b[RayFlips(b, p, index, d)[j]] == Stone(Opponent(p))
    ensures Row(RayFlips(b, p, index, d)[j]) == Row(index) + (j + 1) * DRow(d)
    ensures Col(RayFlips(b, p, index, d)[j]) == Col(index) + (j + 1) * DCol(d)
  {
    RayFlipsBracketed(b, p, index, d);
    BracketedLine(b, p, index, d, RayFlips(b, p, index, d), j);
  }

  /** Two moves of m1 and m2 whole steps reach the same offset only in the same direction with m1 == m2. */
  lemma OffsetsDetermineStep(d1: int, m1: int, d2: int, m2: int)
    requires IsDirection(d1) && IsDirection(d2) && m1 >= 1 && m2 >= 1
    requires m1 * DRow(d1) == m2 * DRow(d2) && m1 * DCol(d1) == m2 * DCol(d2)
    ensures d1 == d2 && m1 == m2
  {
    DirectionComponents(d1);
    DirectionComponents(d2);
    var r1, c1, r2, c2 := DRow(d1), DCol(d1), DRow(d2), DCol(d2);
    assert -1 <= r1 <= 1 && -1 <= c1 <= 1 && -1 <= r2 <= 1 && -1 <= c2 <= 1;
    if r1 != 0 {
      assert r1 == 1 || r1 == -1;
      assert r2 != 0;
      assert r1 == r2 by {
        if r1 == 1 { assert m1 * r1 > 0; } else { assert m1 * r1 < 0; }
      }
      assert m1 == m2;
    } else {
      assert c1 == 1 || c1 == -1;
      assert r2 == 0;
      assert c2 != 0;
      assert c1 == c2 by {
        if c1 == 1 { assert m1 * c1 > 0; } else { assert m1 * c1 < 0; }
      }
      assert m1 == m2;
    }
  }

  lemma RayFlipsDistinct(b: Board, p: Player, index: int, d: int)
    requires OnBoard(index) && IsDirection(d)
    ensures Distinct(RayFlips(b, p, index, d))
  {
    var r := RayFlips(b, p, index, d);
    forall j1, j2 | 0 <= j1 < j2 < |r|
      ensures r[j1] != r[j2]
    {
      RayFlipsStraight(b, p, index, d, j1);
      RayFlipsStraight(b, p, index, d, j2);
      if r[j1] == r[j2] {
        OffsetsDetermineStep(d, j1 + 1, d, j2 + 1);
      }
    }
  }

  /** Rays of two different directions share no cell. */
  lemma RaysDisjoint(b: Board, p: Player, index: int, d1: int, d2: int, x: int)
    requires OnBoard(index) && IsDirection(d1) && IsDirection(d2) && d1 != d2
    requires x in RayFlips(b, p, index, d1)
    ensures x !in RayFlips(b, p, index, d2)
  {
    var r1, r2 := RayFlips(b, p, index, d1), RayFlips(b, p, index, d2);
    var j1 :| 0 <= j1 < |r1| && r1[j1] == x;
    if x in r2 {
      var j2 :| 0 <= j2 < |r2| && r2[j2] == x;
      RayFlipsStraight(b, p, index, d1, j1);
      RayFlipsStraight(b, p, index, d2, j2);
      OffsetsDetermineStep(d1, j1 + 1, d2, j2 + 1);
    }
  }

  /** Every cell of FlipsUpTo comes from the ray of one of the first k directions. */
  lemma {:induction false} FlipsUpToMember(b: Board, p: Player, index: int, k: int, x: int)
    requires OnBoard(index) && 0 <= k <= |Directions| && x in FlipsUpTo(b, p, index, k)
    ensures exists j :: 0 <= j < k && x in RayFlips(b, p, index, Directions[j])
    decreases k
  {
    if x !in RayFlips(b, p, index, Directions[k - 1]) {
      FlipsUpToMember(b, p, index, k - 1, x);
    }
  }

  /** Every cell of the ray of the j-th direction is in FlipsUpTo for k > j. */
  lemma {:induction false} RayInFlipsUpTo(b: Board, p: Player, index: int, k: int, j: int, x: int)
    requires OnBoard(index) && 0 <= j < k <= |Directions| && x in RayFlips(b, p, index, Directions[j])
    ensures x in FlipsUpTo(b, p, index, k)
    decreases k
  {
    if j < k - 1 {
      RayInFlipsUpTo(b, p, index, k - 1, j, x);
    }
  }

  lemma DistinctConcat(s: seq<int>, t: seq<int>)
    requires Distinct(s) && Distinct(t)
    requires forall x | x in s :: x !in t
    ensures Distinct(s + t)
  {
    var u := s + t;
    forall a, c | 0 <= a < c < |u|
      ensures u[a] != u[c]
    {
      if a < |s| && c >= |s| {
        assert u[a] in s && u[c] == t[c - |s|];
      }
    }
  }

  /** The rays of the first k directions share no cell with the ray of the next one. */
  lemma FlipsUpToDisjointRay(b: Board, p: Player, index: int, k: int)
    requires OnBoard(index) && 0 <= k < |Directions|
    ensures forall x | x in FlipsUpTo(b, p, index, k) :: x !in RayFlips(b, p, index, Directions[k])
  {
    DirectionsAscending();
    forall x | x in FlipsUpTo(b, p, index, k)
      ensures x !in RayFlips(b, p, index, Directions[k])
    {
      FlipsUpToMember(b, p, index, k, x);
      var j :| 0 <= j < k && x in RayFlips(b, p, index, Directions[j]);
      RaysDisjoint(b, p, index, Directions[j], Directions[k], x);
    }
  }

  lemma {:induction false} FlipsUpToDistinct(b: Board, p: Player, index: int, k: int)
    requires OnBoard(index) && 0 <= k <= |Directions|
    ensures Distinct(FlipsUpTo(b, p, index, k))
    decreases k
  {
    if k > 0 {
      FlipsUpToDistinct(b, p, index, k - 1);
      RayFlipsDistinct(b, p, index, Directions[k - 1]);
      FlipsUpToDisjointRay(b, p, index, k - 1);
      DistinctConcat(FlipsUpTo(b, p, index, k - 1), RayFlips(b, p, index, Directions[k - 1]));
    }
  }

  /** One more direction appends its contribution. */
  lemma FlipsUpToStep(b: Board, p: Player, index: int, k: int)
    requires OnBoard(index) && 0 <= k < |Directions|
    ensures FlipsUpTo(b, p, index, k + 1) == FlipsUpTo(b, p, index, k) + RayFlips(b, p, index, Directions[k])
  {
  }

  /** The first four directions' contributions, in order. */
  lemma FlipsUpToFour(b: Board, p: Player, index: int)
    requires OnBoard(index)
    ensures FlipsUpTo(b, p, index, 4) ==
      RayFlips(b, p, index, -9) + RayFlips(b, p, index, -8) + RayFlips(b, p, index, -7) + RayFlips(b, p, index, -1)
  {
    var first := RayFlips(b, p, index, -9);
    FlipsUpToStep(b, p, index, 0);
    assert [] + first == first;
    FlipsUpToStep(b, p, index, 1);
    FlipsUpToStep(b, p, index, 2);
    FlipsUpToStep(b, p, index, 3);
  }

  /**
   * On an Empty cell the flips are the eight rays' contributions concatenated
   * in the order -9, -8, -7, -1, 1, 7, 8, 9 (each ray nearest cell first, by
   * RayFlipsStraight).
   */
  lemma FlipsInDirectionOrder(b: Board, p: Player, index: int)
    requires OnBoard(index) && b[index] == Empty
    ensures Flips(b, p, index) ==
      RayFlips(b, p, index, -9) + RayFlips(b, p, index, -8) + RayFlips(b, p, index, -7) + RayFlips(b, p, index, -1) +
      RayFlips(b, p, index, 1) + RayFlips(b, p, index, 7) + RayFlips(b, p, index, 8) + RayFlips(b, p, index, 9)
  {
    FlipsUpToFour(b, p, index);
    FlipsUpToStep(b, p, index, 4);
    FlipsUpToStep(b, p, index, 5);
    FlipsUpToStep(b, p, index, 6);
    FlipsUpToStep(b, p, index, 7);
  }

  /** A ray flips nothing when its first cell is off the board, Empty, or p's own, or the column guard stops it. */
  lemma RayFlipsBlocked(b: Board, p: Player, index: int, d: int)
    requires OnBoard(index) && IsDirection(d)
    requires StopsAt(d, index) || !OnBoard(index + d) || b[index + d] == Empty || b[index + d] == Stone(p)
    ensures RayFlips(b, p, index, d) == []
  {
  }

  /** A ray whose first cell is the opponent's and whose second is p's flips exactly that first cell. */
  lemma RayFlipsOne(b: Board, p: Player, index: int, d: int)
    requires OnBoard(index) && IsDirection(d) && !StopsAt(d, index)
    requires OnBoard(index + d) && b[index + d] == Stone(Opponent(p)) && !StopsAt(d, index + d)
    requires OnBoard(index + d + d) && b[index + d + d] == Stone(p)
    ensures RayFlips(b, p, index, d) == [index + d]
  {
    assert Run(b, p, d, index + d + d) == Some([]);
  }

  lemma FlipsWellFormed(b: Board, p: Player, index: int)
    requires OnBoard(index)
    ensures b[index] != Empty ==> Flips(b, p, index) == []
    ensures forall k | 0 <= k < |Flips(b, p, index)| ::
      OnBoard(Flips(b, p, index)[k]) && b[Flips(b, p, index)[k]] == Stone(Opponent(p))
    ensures Distinct(Flips(b, p, index))
  {
    if b[index] == Empty {
      var f := Flips(b, p, index);
      forall k | 0 <= k < |f|
        ensures OnBoard(f[k]) && b[f[k]] == Stone(Opponent(p))
      {
        FlipsUpToMember(b, p, index, |Directions|, f[k]);
        var i :| 0 <= i < |Directions| && f[k] in RayFlips(b, p, index, Directions[i]);
        var d := Directions[i];
        var r := RayFlips(b, p, index, d);
        var j :| 0 <= j < |r| && r[j] == f[k];
        RayFlipsStraight(b, p, index, d, j);
      }
      FlipsUpToDistinct(b, p, index, |Directions|);
    }
  }

  /**
   * A move is legal (flips something) iff its cell is Empty and some
   * direction holds a non-empty bracketed line from it.
   */
  lemma LegalIff(b: Board, p: Player, index: int)
    requires OnBoard(index)
    ensures Flips(b, p, index) != [] <==>
      b[index] == Empty && exists d, run :: IsDirection(d) && run != [] && Bracketed(b, p, index, d, run)
  {
    if Flips(b, p, index) != [] {
      var x := Flips(b, p, index)[0];
      FlipsUpToMember(b, p, index, |Directions|, x);
      var j :| 0 <= j < |Directions| && x in RayFlips(b, p, index, Directions[j]);
      RayFlipsBracketed(b, p, index, Directions[j]);
    }
    if b[index] == Empty && exists d, run :: IsDirection(d) && run != [] && Bracketed(b, p, index, d, run) {
      var d, run :| IsDirection(d) && run != [] && Bracketed(b, p, index, d, run);
      RayFlipsIff(b, p, index, d, run);
      assert run[0] in RayFlips(b, p, index, d);
      var j :| 0 <= j < |Directions| && Directions[j] == d;
      RayInFlipsUpTo(b, p, index, |Directions|, j, run[0]);
    }
  }

  /** The indices below n whose mask entry is set, in ascending order. */
  function IndicesWhere(mask: seq<bool>, n: int): seq<int>
    requires 0 <= n <= |mask|
    decreases n
  {
    if n == 0 then [] else IndicesWhere(mask, n - 1) + (if mask[n - 1] then [n - 1] else [])
  }

  lemma {:induction false} IndicesWhereSpec(mask: seq<bool>, n: int)
    requires 0 <= n <= |mask|
    ensures StrictlyAscending(IndicesWhere(mask, n))
    ensures forall k | 0 <= k < |IndicesWhere(mask, n)| :: IndicesWhere(mask, n)[k] < n
    ensures forall i :: i in IndicesWhere(mask, n) <==> 0 <= i < n && mask[i]
    decreases n
  {
    if n > 0 {
      IndicesWhereSpec(mask, n - 1);
    }
  }

  /** p may place at i: the cell is Empty and the move flips something. */
  predicate IsLegal(b: Board, p: Player, i: int)
    requires OnBoard(i)
  {
    b[i] == Empty && Flips(b, p, i) != []
  }

  /** For each cell, whether p may place there. */
  function LegalMask(b: Board, p: Player): seq<bool> {
    seq(64, i requires 0 <= i < 64 => IsLegal(b, p, i))
  }

  /** All legal moves of p, ascending by index. */
  function LegalMoves(b: Board, p: Player): seq<int> {
    IndicesWhere(LegalMask(b, p), CellCount)
  }

  /** The legal-move list is strictly ascending. */
  lemma LegalMovesAscending(b: Board, p: Player)
    ensures StrictlyAscending(LegalMoves(b, p))
  {
    IndicesWhereSpec(LegalMask(b, p), CellCount);
  }

  /** Every entry of the legal-move list is a cell of the board. */
  lemma LegalMovesOnBoard(b: Board, p: Player)
    ensures forall k | 0 <= k < |LegalMoves(b, p)| :: OnBoard(LegalMoves(b, p)[k])
  {
    var moves := LegalMoves(b, p);
    IndicesWhereSpec(LegalMask(b, p), CellCount);
    forall k | 0 <= k < |moves|
      ensures OnBoard(moves[k])
    {
      assert moves[k] in moves;
    }
  }

  /**
   * The legal-move list is strictly ascending and holds exactly the Empty
   * cells at which p would flip something.
   */
  lemma LegalMovesSpec(b: Board, p: Player)
    ensures StrictlyAscending(LegalMoves(b, p))
    ensures forall i :: i in LegalMoves(b, p) <==> OnBoard(i) && b[i] == Empty && Flips(b, p, i) != []
  {
    IndicesWhereSpec(LegalMask(b, p), CellCount);
  }
  /** Membership of one cell in the legal-move list, without a quantifier. */
  lemma LegalMoveAt(b: Board, p: Player, i: int)
    ensures i in LegalMoves(b, p) <==> OnBoard(i) && b[i] == Empty && Flips(b, p, i) != []
  {
    LegalMovesSpec(b, p);
  }
  /** A bracketed line from an Empty cell makes that cell a legal move. */
  lemma BracketedIsLegal(b: Board, p: Player, i: int, d: int, run: seq<int>)
    requires OnBoard(i) && b[i] == Empty && IsDirection(d) && run != [] && Bracketed(b, p, i, d, run)
    ensures i in LegalMoves(b, p)
  {
    RayFlipsIff(b, p, i, d, run);
    var j :| 0 <= j < |Directions| && Directions[j] == d;
    assert run[0] in RayFlips(b, p, i, Directions[j]);
    RayInFlipsUpTo(b, p, i, |Directions|, j, run[0]);
    LegalMoveAt(b, p, i);
  }



  /** The board after p places at `index` and flips `flips`. */
  function Applied(b: Board, p: Player, index: int, flips: seq<int>): Board {
    seq(CellCount, k requires 0 <= k < CellCount => if k == index || k in flips then Stone(p) else b[k])
  }

  /** Painting the cells s with p's colour adds s to p's cells and removes it from every other state's. */
  lemma PaintCells(b: Board, a: Board, p: Player, s: set<int>)
    requires forall k | 0 <= k < 64 :: a[k] == (if k in s then Stone(p) else b[k])
    requires forall k | k in s :: OnBoard(k)
    ensures CellsHolding(a, Stone(p)) == CellsHolding(b, Stone(p)) + s
    ensures forall c | c != Stone(p) :: CellsHolding(a, c) == CellsHolding(b, c) - s
  {
  }

  lemma CardDisjointUnion(x: set<int>, y: set<int>)
    requires x * y == {}
    ensures |x + y| == |x| + |y|
  {
  }

  lemma CardDifference(x: set<int>, y: set<int>)
    ensures |x - y| == |x| - |x * y|
  {
    assert x == (x - y) + (x * y);
    assert (x - y) * (x * y) == {};
  }

  /**
   * Placing at an Empty cell and flipping `flips`, distinct cells of the
   * opponent, adds 1 + |flips| pieces to p, takes |flips| from the opponent
   * and fills one Empty cell.
   */
  lemma ApplyCountsFor(b: Board, p: Player, index: int, flips: seq<int>)
    requires OnBoard(index) && b[index] == Empty && Distinct(flips)
    requires forall k | 0 <= k < |flips| :: OnBoard(flips[k]) && b[flips[k]] == Stone(Opponent(p))
    ensures Count(Applied(b, p, index, flips), Stone(p)) == Count(b, Stone(p)) + 1 + |flips|
    ensures Count(Applied(b, p, index, flips), Stone(Opponent(p))) == Count(b, Stone(Opponent(p))) - |flips|
    ensures Count(Applied(b, p, index, flips), Empty) == Count(b, Empty) - 1
  {
    var a := Applied(b, p, index, flips);
    var q := Opponent(p);
    var fs := set x | x in flips;
    var s := {index} + fs;
    DistinctCardinality(flips);
    assert index !in fs;
    CardDisjointUnion({index}, fs);
    PaintCells(b, a, p, s);
    var mine, theirs, empty := CellsHolding(b, Stone(p)), CellsHolding(b, Stone(q)), CellsHolding(b, Empty);
    assert mine * s == {};
    CardDisjointUnion(mine, s);
    assert theirs * s == fs;
    CardDifference(theirs, s);
    assert empty * s == {index};
    CardDifference(empty, s);
  }

  /** A move at an Empty cell, with the flips the rule computes, changes the counts as ApplyCountsFor says. */
  lemma ApplyCounts(b: Board, p: Player, index: int)
    requires OnBoard(index) && b[index] == Empty
    ensures Count(Applied(b, p, index, Flips(b, p, index)), Stone(p)) == Count(b, Stone(p)) + 1 + |Flips(b, p, index)|
    ensures Count(Applied(b, p, index, Flips(b, p, index)), Stone(Opponent(p))) == Count(b, Stone(Opponent(p))) - |Flips(b, p, index)|
    ensures Count(Applied(b, p, index, Flips(b, p, index)), Empty) == Count(b, Empty) - 1
  {
    FlipsWellFormed(b, p, index);
    ApplyCountsFor(b, p, index, Flips(b, p, index));
  }

  /** A legal move flips at least one piece and changes the counts as ApplyCounts says. */
  lemma LegalMoveGains(b: Board, p: Player, m: int)
    requires m in LegalMoves(b, p)
    ensures OnBoard(m) && |Flips(b, p, m)| >= 1
    ensures Count(Applied(b, p, m, Flips(b, p, m)), Stone(p)) >= Count(b, Stone(p)) + 2
    ensures Count(Applied(b, p, m, Flips(b, p, m)), Stone(Opponent(p))) < Count(b, Stone(Opponent(p)))
  {
    LegalMovesSpec(b, p);
    ApplyCounts(b, p, m);
  }

  /** A legal move needs an Empty cell: on a full board nobody can move. */
  lemma MovesNeedEmptyCells(b: Board, p: Player)
    ensures LegalMoves(b, p) != [] ==> Count(b, Empty) > 0
  {
    LegalMovesSpec(b, p);
    if LegalMoves(b, p) != [] {
      var m := LegalMoves(b, p)[0];
      assert m in LegalMoves(b, p);
      assert m in CellsHolding(b, Empty);
    }
  }
}
