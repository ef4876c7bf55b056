/**
 * The engine's imperative operations, written as the loops they are and
 * proved against the rule functions: the ray casting of getFlips, the
 * ascending scan of getValidMoves, the in-place update of makeMove, the
 * search of the cached move list and the bot's greedy choice.
 */
module Engine {
  import opened BoardModel
  import opened MoveRules

  /** A walk result with `prefix` gathered in front of it; no walk stays no walk. */
  function Prepend(prefix: seq<int>, r: Option<seq<int>>): Option<seq<int>> {
    match r
    case None => None
    case Some(rest) => Some(prefix + rest)
  }

  lemma PrependNothing(r: Option<seq<int>>)
    ensures Prepend([], r) == r
  {
    if r.Some? {
      assert [] + r.value == r.value;
    }
  }

  /** Walking past one opponent cell moves it from the rest of the walk to the gathered prefix. */
  lemma WalkPastOpponent(b: Board, p: Player, d: int, cur: int, gathered: seq<int>)
    requires IsDirection(d) && OnBoard(cur) && b[cur] == Stone(Opponent(p)) && !StopsAt(d, cur)
    ensures Prepend(gathered, Run(b, p, d, cur)) == Prepend(gathered + [cur], Run(b, p, d, cur + d))
  {
    var r := Run(b, p, d, cur + d);
    if r.Some? {
      assert gathered + ([cur] + r.value) == (gathered + [cur]) + r.value;
    }
  }

  /** A walk that reaches a cell of p ends there with exactly the gathered cells. */
  lemma WalkEndsOwn(b: Board, p: Player, d: int, cur: int, gathered: seq<int>)
    requires IsDirection(d) && OnBoard(cur) && b[cur] == Stone(p)
    ensures Prepend(gathered, Run(b, p, d, cur)) == Some(gathered)
  {
    assert gathered + [] == gathered;
  }

  /** A walk that reaches an Empty cell, or an opponent cell on the edge it may not cross, fails. */
  lemma WalkFails(b: Board, p: Player, d: int, cur: int, gathered: seq<int>)
    requires IsDirection(d) && OnBoard(cur)
    requires b[cur] == Empty || (b[cur] == Stone(Opponent(p)) && StopsAt(d, cur))
    ensures Prepend(gathered, Run(b, p, d, cur)) == None
  {
  }

  /** A walk that leaves the board fails. */
  lemma WalkLeaves(b: Board, p: Player, d: int, cur: int, gathered: seq<int>)
    requires IsDirection(d) && !OnBoard(cur)
    ensures Prepend(gathered, Run(b, p, d, cur)) == None
  {
  }

  /** A direction the column guard skips adds nothing to the flips gathered so far. */
  lemma DirectionSkipped(b: Board, p: Player, index: int, k: int)
    requires OnBoard(index) && 0 <= k < |Directions| && StopsAt(Directions[k], index)
    ensures FlipsUpTo(b, p, index, k + 1) == FlipsUpTo(b, p, index, k)
  {
    assert FlipsUpTo(b, p, index, k) + [] == FlipsUpTo(b, p, index, k);
  }

  /** A direction whose walk from the first neighbour ends with `outcome` adds the cells that outcome names. */
  lemma DirectionWalked(b: Board, p: Player, index: int, k: int, outcome: Option<seq<int>>)
    requires OnBoard(index) && 0 <= k < |Directions| && !StopsAt(Directions[k], index)
    requires Run(b, p, Directions[k], index + Directions[k]) == outcome
    ensures outcome.Some? ==> FlipsUpTo(b, p, index, k + 1) == FlipsUpTo(b, p, index, k) + outcome.value
    ensures outcome.None? ==> FlipsUpTo(b, p, index, k + 1) == FlipsUpTo(b, p, index, k)
  {
    assert FlipsUpTo(b, p, index, k) + [] == FlipsUpTo(b, p, index, k);
  }

  /**
   * The inner loop of getFlips for one direction that the column guard lets
   * through: gather opponent cells from index + dir on, and report them when
   * a cell of p closes the line (None when the walk ends any other way).
   */
  method WalkRay(b: Board, p: Player, opponent: Player, index: int, dir: int) returns (outcome: Option<seq<int>>)
    requires OnBoard(index) && IsDirection(dir) && !StopsAt(dir, index) && opponent == Opponent(p)
    ensures outcome == Run(b, p, dir, index + dir)
  {
    var inDir: seq<int> := [];
    var current := index + dir;
    PrependNothing(Run(b, p, dir, current));
    while 0 <= current < 64
      invariant Run(b, p, dir, index + dir) == Prepend(inDir, Run(b, p, dir, current))
      decreases if dir > 0 then 64 - current else current + 1
    {
      ghost var gathered := inDir;
      CellCases(b[current], p);
      if b[current] == Stone(opponent) {
        inDir := inDir + [current];
      } else if b[current] == Stone(p) {
        WalkEndsOwn(b, p, dir, current, inDir);
        return Some(inDir);
      } else {
        WalkFails(b, p, dir, current, inDir);
        return None;
      }
      if (dir == -1 || dir == -9 || dir == 7) && current % 8 == 0 {
        WalkFails(b, p, dir, current, gathered);
        return None;
      }
      if (dir == 1 || dir == 9 || dir == -7) && current % 8 == 7 {
        WalkFails(b, p, dir, current, gathered);
        return None;
      }
      WalkPastOpponent(b, p, dir, current, gathered);
      current := current + dir;
    }
    WalkLeaves(b, p, dir, current, inDir);
    return None;
  }

  /**
   * getFlips: scans the eight directions in order, skipping those the column
   * guard rules out, and appends each direction's closed line.
   */
  method GetFlips(b: Board, p: Player, index: int) returns (flips: seq<int>)
    requires OnBoard(index)
    ensures flips == Flips(b, p, index)
  {
    if b[index] != Empty {
      return [];
    }
    var opponent := White;
    if p == White {
      opponent := Black;
    }
    assert opponent == Opponent(p);
    var c := index % 8;
    flips := [];
    for k := 0 to |Directions|
      invariant flips == FlipsUpTo(b, p, index, k)
    {
      var dir := Directions[k];
      if (dir == -1 || dir == -9 || dir == 7) && c == 0 {
        DirectionSkipped(b, p, index, k);
        continue;
      }
      if (dir == 1 || dir == 9 || dir == -7) && c == 7 {
        DirectionSkipped(b, p, index, k);
        continue;
      }
      var inDir := WalkRay(b, p, opponent, index, dir);
      DirectionWalked(b, p, index, k, inDir);
      if inDir.Some? {
        flips := flips + inDir.value;
      }
    }
  }

  /** getValidMoves: scans the cells in ascending order and keeps the Empty ones with at least one flip. */
  method GetValidMoves(b: Board, p: Player) returns (moves: seq<int>)
    ensures moves == LegalMoves(b, p)
  {
    moves := [];
    for i := 0 to 64
      invariant moves == IndicesWhere(LegalMask(b, p), i)
    {
      if b[i] == Empty {
        var flips := GetFlips(b, p, i);
        if |flips| > 0 {
          moves := moves + [i];
        }
      }
    }
  }

  /** makeMove: places p's piece at `index` and turns every cell of `flips` to p, in place. */
  method MakeMove(board: array<Cell>, p: Player, index: int, flips: seq<int>)
    requires board.Length == 64 && OnBoard(index)
    requires forall k | 0 <= k < |flips| :: OnBoard(flips[k])
    modifies board
    ensures board[..] == Applied(old(board[..]), p, index, flips)
  {
    board[index] := Stone(p);
    for j := 0 to |flips|
      invariant forall k | 0 <= k < 64 :: board[k] == if k == index || k in flips[..j] then Stone(p) else old(board[k])
    {
      assert flips[..j + 1] == flips[..j] + [flips[j]];
      board[flips[j]] := Stone(p);
    }
    assert flips[..|flips|] == flips;
  }

  /** The move-list search of the human's move: whether `index` is one of `moves`. */
  method ContainsMove(moves: seq<int>, index: int) returns (found: bool)
    ensures found <==> index in moves
  {
    found := false;
    for k := 0 to |moves|
      invariant forall j | 0 <= j < k :: moves[j] != index
    {
      if moves[k] == index {
        found := true;
        break;
      }
    }
  }

  /** The number of pieces each move of `moves` would flip, in list order. */
  function FlipCounts(b: Board, p: Player, moves: seq<int>): (counts: seq<int>)
    requires forall k | 0 <= k < |moves| :: OnBoard(moves[k])
    ensures |counts| == |moves|
  {
    if moves == [] then [] else FlipCounts(b, p, moves[..|moves| - 1]) + [|Flips(b, p, moves[|moves| - 1])|]
  }

  /** Counting one more move appends its flip count. */
  lemma FlipCountsSnoc(b: Board, p: Player, moves: seq<int>, k: int)
    requires forall j | 0 <= j < |moves| :: OnBoard(moves[j])
    requires 0 <= k < |moves|
    ensures FlipCounts(b, p, moves[..k + 1]) == FlipCounts(b, p, moves[..k]) + [|Flips(b, p, moves[k])|]
  {
    assert moves[..k + 1][..k] == moves[..k];
  }

  /** Extending the move list keeps the earlier flip counts. */
  lemma FlipCountsPrefix(b: Board, p: Player, moves: seq<int>, j: int)
    requires forall k | 0 <= k < |moves| :: OnBoard(moves[k])
    requires 0 <= j < |moves| - 1
    ensures FlipCounts(b, p, moves)[j] == FlipCounts(b, p, moves[..|moves| - 1])[j]
  {
  }

  /** The last flip count belongs to the last move. */
  lemma FlipCountsLast(b: Board, p: Player, moves: seq<int>)
    requires forall k | 0 <= k < |moves| :: OnBoard(moves[k])
    requires moves != []
    ensures FlipCounts(b, p, moves)[|moves| - 1] == |Flips(b, p, moves[|moves| - 1])|
  {
  }

  /** Entry j of the flip counts is the number of pieces moves[j] would flip. */
  lemma {:induction false} FlipCountsAt(b: Board, p: Player, moves: seq<int>, j: int)
    requires forall k | 0 <= k < |moves| :: OnBoard(moves[k])
    requires 0 <= j < |moves|
    ensures FlipCounts(b, p, moves)[j] == |Flips(b, p, moves[j])|
    decreases |moves|
  {
    var n := |moves| - 1;
    if j < n {
      var init := moves[..n];
      FlipCountsAt(b, p, init, j);
      assert init[j] == moves[j];
      FlipCountsPrefix(b, p, moves, j);
    } else {
      FlipCountsLast(b, p, moves);
    }
  }

  /**
   * Position `at` holds the first maximum of counts: nothing is larger, and
   * everything before it is strictly smaller.
   */
  predicate FirstMaximum(counts: seq<int>, at: int) {
    && 0 <= at < |counts|
    && (forall j | 0 <= j < |counts| :: counts[j] <= counts[at])
    && (forall j | 0 <= j < at :: counts[j] < counts[at])
  }

  /** A sequence has at most one first maximum. */
  lemma FirstMaximumUnique(counts: seq<int>, at1: int, at2: int)
    requires FirstMaximum(counts, at1) && FirstMaximum(counts, at2)
    ensures at1 == at2
  {
    assert counts[at1] <= counts[at2] && counts[at2] <= counts[at1];
  }

  /** A one-element sequence has its first maximum at 0. */
  lemma FirstMaximumSingle(x: int)
    ensures FirstMaximum([x], 0)
  {
  }

  /**
   * Appending x moves the first maximum to the new last position exactly
   * when x is strictly larger; a tie leaves it where it was.
   */
  lemma FirstMaximumExtend(s: seq<int>, at: int, x: int)
    requires FirstMaximum(s, at)
    ensures x > s[at] ==> FirstMaximum(s + [x], |s|)
    ensures x <= s[at] ==> FirstMaximum(s + [x], at)
  {
  }

  /** m is the bot's greedy choice among `moves`: the move at the first maximum of the flip counts. */
  predicate IsGreedyChoice(b: Board, p: Player, moves: seq<int>, m: int)
    requires forall k | 0 <= k < |moves| :: OnBoard(moves[k])
  {
    exists at | 0 <= at < |moves| :: FirstMaximum(FlipCounts(b, p, moves), at) && moves[at] == m
  }

  /**
   * The bot's choice: the first move of `moves` with the largest flip count
   * (a later move replaces the best only when it flips strictly more), or -1
   * when there are no moves.
   */
  method ChooseBotMove(b: Board, p: Player, moves: seq<int>) returns (best: int)
    requires forall k | 0 <= k < |moves| :: OnBoard(moves[k])
    ensures moves == [] ==> best == -1
    ensures moves != [] ==> best in moves && IsGreedyChoice(b, p, moves, best)
  {
    best := -1;
    var maxFlips := -1;
    ghost var seen: seq<int> := [];
    ghost var at := -1;
    for k := 0 to |moves|
      invariant seen == FlipCounts(b, p, moves[..k])
      invariant k == 0 ==> best == -1 && maxFlips == -1
      invariant k > 0 ==> FirstMaximum(seen, at) && best == moves[at] && maxFlips == seen[at]
    {
      var flips := GetFlips(b, p, moves[k]);
      FlipCountsSnoc(b, p, moves, k);
      if k == 0 {
        FirstMaximumSingle(|flips|);
      } else {
        FirstMaximumExtend(seen, at, |flips|);
      }
      if |flips| > maxFlips {
        maxFlips := |flips|;
        best := moves[k];
        at := k;
      }
      seen := seen + [|flips|];
    }
    assert moves[..|moves|] == moves;
  }

  /** The greedy choice is unique: the bot's move is determined by the board and the move list. */
  lemma GreedyChoiceUnique(b: Board, p: Player, moves: seq<int>, m1: int, m2: int)
    requires forall k | 0 <= k < |moves| :: OnBoard(moves[k])
    requires IsGreedyChoice(b, p, moves, m1) && IsGreedyChoice(b, p, moves, m2)
    ensures m1 == m2
  {
    var counts := FlipCounts(b, p, moves);
    var at1 :| 0 <= at1 < |moves| && FirstMaximum(counts, at1) && moves[at1] == m1;
    var at2 :| 0 <= at2 < |moves| && FirstMaximum(counts, at2) && moves[at2] == m2;
    FirstMaximumUnique(counts, at1, at2);
  }

  /**
   * What the greedy choice means: m is one of the moves, no move flips more
   * than m does, and every move that flips as many comes at or after m.
   */
  lemma GreedyChoiceMeaning(b: Board, p: Player, moves: seq<int>, m: int)
    requires forall k | 0 <= k < |moves| :: OnBoard(moves[k])
    requires IsGreedyChoice(b, p, moves, m)
    ensures m in moves
    ensures forall j | 0 <= j < |moves| :: |Flips(b, p, moves[j])| <= |Flips(b, p, m)|
    ensures forall j | 0 <= j < |moves| && |Flips(b, p, moves[j])| == |Flips(b, p, m)| :: m in moves[..j + 1]
  {
    var counts := FlipCounts(b, p, moves);
    var at :| 0 <= at < |moves| && FirstMaximum(counts, at) && moves[at] == m;
    FlipCountsAt(b, p, moves, at);
    forall j | 0 <= j < |moves|
      ensures |Flips(b, p, moves[j])| <= |Flips(b, p, m)|
      ensures |Flips(b, p, moves[j])| == |Flips(b, p, m)| ==> m in moves[..j + 1]
    {
      FlipCountsAt(b, p, moves, j);
      if j < at {
        assert counts[j] < counts[at];
      } else {
        assert moves[..j + 1][at] == m;
      }
    }
  }
}
