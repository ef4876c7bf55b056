/**
 * The start position set up by newGame: the four centre pieces, the
 * counts they give, and Black's four legal first moves.
 */
module StartPosition {
  import opened BoardModel
  import opened MoveRules

  /** White on 27 (d4) and 36 (e5), Black on 28 (e4) and 35 (d5), all else Empty. */
  function Opening(): Board {
    seq(64, i requires 0 <= i < 64 =>
      if i == 27 || i == 36 then Stone(White)
      else if i == 28 || i == 35 then Stone(Black)
      else Empty)
  }

  /** Each side starts with two pieces, leaving 60 Empty cells. */
  lemma OpeningCounts()
    ensures Count(Opening(), Stone(Black)) == 2 && Count(Opening(), Stone(White)) == 2
    ensures Count(Opening(), Empty) == 60
  {
    assert CellsHolding(Opening(), Stone(Black)) == {28, 35};
    assert CellsHolding(Opening(), Stone(White)) == {27, 36};
    CountsPartition(Opening());
  }

  /**
   * At the opening, a bracketing run for Black is a single White piece, and
   * the only cells it can start from are 19, 26, 37 and 44.
   */
  lemma OpeningBrackets(i: int, d: int, run: seq<int>)
    requires IsDirection(d) && run != [] && Bracketed(Opening(), Black, i, d, run)
    ensures i == 19 || i == 26 || i == 37 || i == 44
  {
    var b := Opening();
    BracketedCons(b, Black, i, d, run);
    var rest := run[1..];
    if rest == [] {
      BracketedNil(b, Black, run[0], d);
    } else {
      BracketedCons(b, Black, run[0], d, rest);
      assert false;
    }
  }

  /** Black at d3 (19) flips d4 (27), closed by d5 (35) straight below. */
  lemma OpeningFlips19(b: Board)
    requires b == Opening()
    ensures Flips(b, Black, 19) == [27]
  {
    assert b[19] == Empty;
    RayFlipsBlocked(b, Black, 19, -9);
    RayFlipsBlocked(b, Black, 19, -8);
    RayFlipsBlocked(b, Black, 19, -7);
    RayFlipsBlocked(b, Black, 19, -1);
    RayFlipsBlocked(b, Black, 19, 1);
    RayFlipsBlocked(b, Black, 19, 7);
    RayFlipsOne(b, Black, 19, 8);
    RayFlipsBlocked(b, Black, 19, 9);
    FlipsInDirectionOrder(b, Black, 19);
  }

  /** After Black opens at d3 (19), Black has four pieces, White one, and 59 cells are Empty. */
  lemma OpeningD3Counts(b: Board)
    requires b == Opening()
    ensures Count(Applied(b, Black, 19, Flips(b, Black, 19)), Stone(Black)) == 4
    ensures Count(Applied(b, Black, 19, Flips(b, Black, 19)), Stone(White)) == 1
    ensures Count(Applied(b, Black, 19, Flips(b, Black, 19)), Empty) == 59
  {
    OpeningFlips19(b);
    OpeningCounts();
    ApplyCounts(b, Black, 19);
  }

  /** Every legal first move of Black is one of 19, 26, 37, 44. */
  lemma OpeningMovesWithin(x: int)
    requires x in LegalMoves(Opening(), Black)
    ensures x == 19 || x == 26 || x == 37 || x == 44
  {
    var b := Opening();
    LegalMoveAt(b, Black, x);
    LegalIff(b, Black, x);
    var d, run :| IsDirection(d) && run != [] && Bracketed(b, Black, x, d, run);
    OpeningBrackets(x, d, run);
  }

  /** Each of 19, 26, 37, 44 is a legal first move of Black. */
  lemma OpeningMovesLegal(x: int)
    requires x == 19 || x == 26 || x == 37 || x == 44
    ensures x in LegalMoves(Opening(), Black)
  {
    var b := Opening();
    if x == 19 {
      BracketedIsLegal(b, Black, 19, 8, [27]);
    } else if x == 26 {
      BracketedIsLegal(b, Black, 26, 1, [27]);
    } else if x == 37 {
      BracketedIsLegal(b, Black, 37, -1, [36]);
    } else {
      BracketedIsLegal(b, Black, 44, -8, [36]);
    }
  }

  /** x is a legal first move for Black exactly when it is one of 19, 26, 37, 44. */
  lemma OpeningMoveIff(x: int)
    ensures x in LegalMoves(Opening(), Black) <==> x == 19 || x == 26 || x == 37 || x == 44
  {
    if x in LegalMoves(Opening(), Black) {
      OpeningMovesWithin(x);
    }
    if x == 19 || x == 26 || x == 37 || x == 44 {
      OpeningMovesLegal(x);
    }
  }

  /** The only ascending list holding exactly the four opening moves. */
  lemma OpeningListDetermined(moves: seq<int>)
    requires StrictlyAscending(moves)
    requires forall x :: x in moves <==> x in [19, 26, 37, 44]
    ensures moves == [19, 26, 37, 44]
  {
    AscendingDetermined(moves, [19, 26, 37, 44]);
  }

  /** newGame's ValidMoves: Black's legal moves at the opening are [19, 26, 37, 44], in that order. */
  lemma OpeningMoves(b: Board)
    requires b == Opening()
    ensures LegalMoves(b, Black) == [19, 26, 37, 44]
  {
    LegalMovesAscending(b, Black);
    forall x
      ensures x in LegalMoves(b, Black) <==> x in [19, 26, 37, 44]
    {
      OpeningMoveIff(x);
    }
    OpeningListDetermined(LegalMoves(b, Black));
  }
}
