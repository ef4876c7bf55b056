/**
 * The game loop's state and the steps one command takes: the human (Black)
 * places a piece or passes, the bot (White) answers with its greedy move or
 * passes, and the stored move list and the game's status are recomputed.
 */
module Game {
  import opened BoardModel
  import opened MoveRules
  import opened Engine
  import opened Coordinates
  import opened StartPosition

  /** Who wins a finished game, by piece count. */
  datatype Outcome = HumanWins | BotWins | Draw

  /**
   * What the loop announces after a command: the game is over with the
   * final score, the human has no move and must pass, or the human moves.
   */
  datatype Status = GameOver(black: int, white: int, outcome: Outcome) | HumanMustPass | HumanToMove

  /** A command read from the prompt: "pass", or anything else, read as a coordinate. */
  datatype Command = PassTurn | Place(input: seq<byte>)

  /** The loop's answer: the command was refused and nothing changed, or it ran, the bot replied and the status is known. */
  datatype Reply = Refused | Answered(bot: Option<int>, status: Status)

  /** The winner by score: more pieces wins, equal counts draw. */
  function Decide(black: int, white: int): (o: Outcome)
    ensures o == HumanWins <==> black > white
    ensures o == BotWins <==> white > black
    ensures o == Draw <==> black == white
  {
    if black > white then HumanWins else if white > black then BotWins else Draw
  }

  /** The status of board b once the human is to move again. */
  function StatusOf(b: Board): Status {
    if LegalMoves(b, Black) == [] && LegalMoves(b, White) == [] then
      GameOver(Count(b, Stone(Black)), Count(b, Stone(White)), Decide(Count(b, Stone(Black)), Count(b, Stone(White))))
    else if LegalMoves(b, Black) == [] then HumanMustPass
    else HumanToMove
  }

  /**
   * The game ends exactly when neither side has a legal move, the final
   * scores account for every piece on the board, and a full board always
   * ends the game.
   */
  lemma StatusOfSpec(b: Board)
    ensures StatusOf(b).GameOver? <==> LegalMoves(b, Black) == [] && LegalMoves(b, White) == []
    ensures StatusOf(b).HumanMustPass? <==> LegalMoves(b, Black) == [] && LegalMoves(b, White) != []
    ensures StatusOf(b).GameOver? ==>
      StatusOf(b).black + StatusOf(b).white == CellCount - Count(b, Empty) <= CellCount
    ensures Count(b, Empty) == 0 ==> StatusOf(b).GameOver?
  {
    CountsPartition(b);
    MovesNeedEmptyCells(b, Black);
    MovesNeedEmptyCells(b, White);
  }

  /** m is the move the bot picks on b for player p: the greedy choice among p's legal moves. */
  predicate GreedyMove(b: Board, p: Player, m: int) {
    && (forall k | 0 <= k < |LegalMoves(b, p)| :: OnBoard(LegalMoves(b, p)[k]))
    && IsGreedyChoice(b, p, LegalMoves(b, p), m)
  }

  /**
   * The bot's move is legal, flips at least as many pieces as any other
   * legal move, and flips strictly more than every legal move at a lower index.
   */
  lemma GreedyMoveMeaning(b: Board, p: Player, m: int)
    requires GreedyMove(b, p, m)
    ensures m in LegalMoves(b, p)
    ensures forall j | 0 <= j < |LegalMoves(b, p)| :: |Flips(b, p, LegalMoves(b, p)[j])| <= |Flips(b, p, m)|
    ensures forall j | 0 <= j < |LegalMoves(b, p)| && LegalMoves(b, p)[j] < m ::
      |Flips(b, p, LegalMoves(b, p)[j])| < |Flips(b, p, m)|
  {
    var moves := LegalMoves(b, p);
    LegalMovesAscending(b, p);
    GreedyChoiceMeaning(b, p, moves, m);
    forall j | 0 <= j < |moves| && moves[j] < m
      ensures |Flips(b, p, moves[j])| < |Flips(b, p, m)|
    {
      AscendingPrefixBound(moves, j, m);
    }
  }

  /**
   * The bot's reply on board `before`, leaving board `after`: a pass when it
   * has no legal move, otherwise its greedy move with that move's flips.
   */
  predicate BotAnswer(before: Board, played: Option<int>, after: Board) {
    match played
    case None => LegalMoves(before, White) == [] && after == before
    case Some(m) =>
      && OnBoard(m)
      && GreedyMove(before, White, m)
      && after == Applied(before, White, m, Flips(before, White, m))
  }

  /**
   * The bot passes exactly when it has no legal move; when it moves, it
   * flips at least one piece, gains one piece plus its flips, and Black
   * loses the flipped pieces.
   */
  lemma BotAnswerMeaning(before: Board, played: Option<int>, after: Board)
    requires BotAnswer(before, played, after)
    ensures played.None? <==> LegalMoves(before, White) == []
    ensures played.Some? ==>
      && |Flips(before, White, played.value)| >= 1
      && Count(after, Stone(White)) == Count(before, Stone(White)) + 1 + |Flips(before, White, played.value)|
      && Count(after, Stone(Black)) == Count(before, Stone(Black)) - |Flips(before, White, played.value)|
  {
    if played.Some? {
      var m := played.value;
      GreedyMoveMeaning(before, White, m);
      LegalMoveGains(before, White, m);
      LegalMovesSpec(before, White);
      ApplyCounts(before, White, m);
    }
  }

  /** The human refuses to move on: "pass" while a move exists, or a coordinate that does not parse or is not in the list. */
  predicate Refuses(moves: seq<int>, c: Command) {
    match c
    case PassTurn => moves != []
    case Place(input) => ParseCoord(input).None? || ParseCoord(input).value !in moves
  }

  /** The board after the human's accepted command: unchanged on a pass, the placement applied otherwise. */
  function AfterHuman(b: Board, c: Command): Board {
    match c
    case PassTurn => b
    case Place(input) =>
      match ParseCoord(input)
      case None => b
      case Some(i) => Applied(b, Black, i, Flips(b, Black, i))
  }

  /**
   * Against the true move list, a command is refused exactly when it is a
   * pass while Black can move, or names no cell, or names a cell that is
   * occupied or would flip nothing.
   */
  lemma RefusesMeaning(b: Board, c: Command)
    ensures Refuses(LegalMoves(b, Black), c) <==>
      match c
      case PassTurn => exists i | OnBoard(i) :: b[i] == Empty && Flips(b, Black, i) != []
      case Place(input) =>
        ParseCoord(input).None? || b[ParseCoord(input).value] != Empty || Flips(b, Black, ParseCoord(input).value) == []
  {
    LegalMovesSpec(b, Black);
    var moves := LegalMoves(b, Black);
    if c.PassTurn? && moves != [] {
      assert moves[0] in moves;
    }
  }

  /** newGame's board: every cell Empty but the four centre pieces. */
  method NewBoard() returns (cells: array<Cell>)
    ensures fresh(cells) && cells.Length == CellCount && cells[..] == Opening()
  {
    cells := new Cell[64](_ => Empty);
    cells[27] := Stone(White);
    cells[28] := Stone(Black);
    cells[35] := Stone(Black);
    cells[36] := Stone(White);
    assert forall i | 0 <= i < 64 :: cells[i] == Opening()[i];
  }

  class GameState {
    var board: array<Cell>
    var turn: Player
    var validMoves: seq<int>

    /** Between commands: 64 cells, and the stored list is Black's legal-move list for them. */
    ghost predicate Valid()
      reads this, board
    {
      board.Length == CellCount && validMoves == LegalMoves(board[..], Black)
    }

    /** newGame: the opening position, Black to move, with its four legal moves. */
    constructor ()
      ensures Valid() && fresh(board)
      ensures board[..] == Opening() && turn == Black && validMoves == [19, 26, 37, 44]
    {
      var cells := NewBoard();
      var moves := GetValidMoves(cells[..], Black);
      OpeningMoves(cells[..]);
      board := cells;
      turn := Black;
      validMoves := moves;
    }

    /** "pass": accepted only when the stored list is empty, and then it is White's turn. */
    method Pass() returns (accepted: bool)
      modifies this
      ensures board == old(board) && validMoves == old(validMoves)
      ensures accepted <==> validMoves == []
      ensures turn == (if accepted then White else old(turn))
    {
      if |validMoves| > 0 {
        return false;
      }
      turn := White;
      return true;
    }

    /**
     * A coordinate: accepted only when it is in the stored list; then Black's
     * piece goes there with its flips and it is White's turn. A refused move
     * changes nothing.
     */
    method Play(index: int) returns (accepted: bool)
      requires board.Length == CellCount && OnBoard(index)
      modifies this, board
      ensures board == old(board) && validMoves == old(validMoves)
      ensures accepted <==> index in validMoves
      ensures accepted ==>
        && board[..] == Applied(old(board[..]), Black, index, Flips(old(board[..]), Black, index))
        && turn == White
      ensures !accepted ==> board[..] == old(board[..]) && turn == old(turn)
    {
      var isValidMove := ContainsMove(validMoves, index);
      if !isValidMove {
        return false;
      }
      var cells := board[..];
      var flips := GetFlips(cells, Black, index);
      FlipsWellFormed(cells, Black, index);
      MakeMove(board, Black, index, flips);
      turn := White;
      return true;
    }

    /**
     * The bot's turn: with no legal move it passes, otherwise it plays its
     * greedy choice with that move's flips. Either way Black is next.
     */
    method BotTurn() returns (played: Option<int>)
      requires board.Length == CellCount && turn == White
      modifies this, board
      ensures board == old(board) && validMoves == old(validMoves) && turn == Black
      ensures BotAnswer(old(board[..]), played, board[..])
    {
      played := None;
      ghost var start: Board := board[..];
      while turn == White
        invariant board == old(board) && validMoves == old(validMoves)
        invariant turn == White ==> board[..] == start && played.None?
        invariant turn == Black ==> BotAnswer(start, played, board[..])
        decreases if turn == White then 1 else 0
      {
        var cells := board[..];
        var botMoves := GetValidMoves(cells, White);
        if |botMoves| == 0 {
          turn := Black;
          break;
        }
        LegalMovesOnBoard(cells, White);
        var bestMove := ChooseBotMove(cells, White, botMoves);
        var flips := GetFlips(cells, White, bestMove);
        FlipsWellFormed(cells, White, bestMove);
        MakeMove(board, White, bestMove, flips);
        played := Some(bestMove);
        turn := Black;
      }
    }

    /** The final tally: the number of Black and of White pieces, which together never exceed 64. */
    method Score() returns (black: int, white: int)
      requires board.Length == CellCount
      ensures black == Count(board[..], Stone(Black)) && white == Count(board[..], Stone(White))
      ensures black + white <= CellCount
    {
      black, white := 0, 0;
      assert CellsHolding(board[..0], Stone(Black)) == {};
      assert CellsHolding(board[..0], Stone(White)) == {};
      for k := 0 to 64
        invariant black == Count(board[..k], Stone(Black)) && white == Count(board[..k], Stone(White))
      {
        assert board[..k + 1][..k] == board[..k];
        CountSnoc(board[..k + 1], Stone(Black));
        CountSnoc(board[..k + 1], Stone(White));
        if board[k] == Stone(Black) {
          black := black + 1;
        }
        if board[k] == Stone(White) {
          white := white + 1;
        }
      }
      assert board[..64] == board[..];
      CountsPartition(board[..]);
    }

    /**
     * After each command: store Black's fresh move list, then report the
     * game over (with score and winner) when neither side can move, or that
     * the human must pass, or that the human is to move.
     */
    method Conclude() returns (status: Status)
      requires board.Length == CellCount
      modifies this
      ensures board == old(board) && turn == old(turn)
      ensures Valid()
      ensures status == StatusOf(board[..])
    {
      validMoves := GetValidMoves(board[..], Black);
      var botMoves := GetValidMoves(board[..], White);
      if |validMoves| == 0 && |botMoves| == 0 {
        var black, white := Score();
        var outcome := Decide(black, white);
        status := GameOver(black, white, outcome);
      } else if |validMoves| == 0 {
        status := HumanMustPass;
      } else {
        status := HumanToMove;
      }
    }

    /**
     * One pass of the input loop for "pass" or a coordinate: a refused
     * command changes nothing; an accepted one is applied, the bot answers,
     * and the move list and status are brought up to date.
     */
    method HumanTurn(c: Command) returns (reply: Reply, ghost mid: Board)
      requires Valid() && turn == Black
      modifies this, board
      ensures Valid() && turn == Black && board == old(board)
      ensures reply.Refused? <==> Refuses(old(validMoves), c)
      ensures reply.Refused? ==> board[..] == old(board[..])
      ensures reply.Answered? ==>
        && mid == AfterHuman(old(board[..]), c)
        && BotAnswer(mid, reply.bot, board[..])
        && reply.status == StatusOf(board[..])
    {
      mid := board[..];
      match c {
        case PassTurn =>
          var ok := Pass();
          if !ok {
            return Refused, mid;
          }
        case Place(input) =>
          var parsed := ParseCoord(input);
          if parsed.None? {
            return Refused, mid;
          }
          var ok := Play(parsed.value);
          if !ok {
            return Refused, mid;
          }
      }
      mid := board[..];
      var bot := BotTurn();
      var status := Conclude();
      reply := Answered(bot, status);
    }
  }
}
