# Othello engine: a verified Dafny model

This project models the rule engine and game loop of a command-line Othello
game played by a human (Black) against a greedy bot (White). The board is 64
cells, numbered row * 8 + column. The model covers:

- the capture rule: walk each of the eight directions −9, −8, −7, −1, 1, 7, 8, 9
  and collect the opponent pieces that a piece of one's own closes off;
- the guards that keep a ray from wrapping around a column edge;
- the ascending list of legal moves and the effect of a move on the board;
- the parsing of a typed coordinate such as `d3`;
- the start position and its four legal moves;
- one pass of the input loop: a human pass or placement, the bot's greedy
  reply, and the recomputed move list and game status (game over with score
  and winner, human must pass, or human to move).

Modules, following the program's structure:

- `BoardModel` (board.dfy): cells, players, board indexing, directions,
  column-edge rules and piece counts.
- `MoveRules` (rules.dfy): the capture rule as specification functions (`Run`,
  `RayFlips`, `FlipsUpTo`, `Flips`, `LegalMoves`, `Applied`) and their lemmas.
- `Engine` (engine.dfy): getFlips, getValidMoves, makeMove, the move-list
  search and the bot's choice. Each is written as an imperative method with the
  source's loops and proved equal to the specification functions.
- `Coordinates` (coord.dfy): parseCoord on bytes, and the bot's printed
  coordinate.
- `StartPosition` (opening.dfy): newGame's board and Black's opening moves.
- `Game` (game.dfy): the `GameState` class (board array, turn, stored move
  list) and the steps of one loop iteration.

## Model

| member | source | states |
|---|---|---|
| BoardModel.Opponent | main.go:96-99 | the opponent of a player is the other player |
| BoardModel.StepIff | main.go:104-105 | from an on-board cell, adding d is a one-row/one-column step in d's direction exactly when the target is on the board and the column guard does not fire: the guards rule out every wrap-around and nothing else |
| BoardModel.CountsPartition | main.go:255-259 | the Empty, Black and White counts of a board add up to its size |
| MoveRules.RunBracketed | main.go:106-120 | when the walk of a ray ends on one's own piece, the gathered cells form a bracketed line: consecutive geometric neighbours, all the opponent's, followed by one's own piece |
| MoveRules.RunComplete | main.go:106-120 | conversely, every bracketed line is exactly what the walk returns |
| MoveRules.RayFlipsIff | main.go:103-120 | a direction contributes the nonempty run r exactly when r is bracketed from the target cell in that direction |
| MoveRules.RayFlipsEmptyUnlessBracketed | main.go:103-120 | a direction with no bracketed line contributes nothing |
| MoveRules.BracketedLine | main.go:106-120 | the j-th cell of a bracketed line holds the opponent's piece and lies j+1 rows and columns away along the direction: the line is straight |
| MoveRules.RayFlipsStraight | main.go:103-120 | each flipped cell of a direction is on the board, holds the opponent's piece, and is the (j+1)-th cell along that direction in order |
| MoveRules.RayFlipsDistinct | main.go:106-120 | one direction never lists a cell twice |
| MoveRules.RaysDisjoint | main.go:103-121 | two different directions never share a flipped cell |
| MoveRules.FlipsUpToDistinct | main.go:103-121 | the collected flips of the first k directions have no duplicates |
| MoveRules.FlipsInDirectionOrder | main.go:100-122 | the flips are the eight directions' contributions concatenated in the order −9, −8, −7, −1, 1, 7, 8, 9 |
| MoveRules.FlipsWellFormed | main.go:92-122 | an occupied target flips nothing; every flipped cell is on the board and holds the opponent's piece; no cell is flipped twice |
| MoveRules.LegalIff | main.go:92-123 | the flips are nonempty exactly when the target is Empty and some direction has a bracketed line from it |
| MoveRules.RayFlipsBlocked | main.go:108-116 | a ray whose first cell is off the board, Empty or one's own, or whose guard stops it, flips nothing |
| MoveRules.RayFlipsOne | main.go:108-113 | a ray with one opponent piece followed by one's own flips exactly that piece |
| MoveRules.LegalMovesSpec | main.go:125-135 | the legal-move list is strictly ascending and holds exactly the Empty cells whose flips are nonempty |
| MoveRules.LegalMovesAscending | main.go:127-131 | the legal-move list is strictly ascending |
| MoveRules.LegalMovesOnBoard | main.go:127-131 | every listed move is a cell of the board |
| MoveRules.LegalMoveAt | main.go:128-130 | one cell is listed exactly when it is Empty and would flip something |
| MoveRules.BracketedIsLegal | main.go:125-135 | an Empty cell with a bracketed line is a legal move |
| MoveRules.ApplyCountsFor | main.go:137-142 | placing at an Empty cell with distinct opponent flips raises the mover's count by 1 + the number of flips, lowers the opponent's by the number of flips, and the Empty count by one |
| MoveRules.ApplyCounts | main.go:137-142 | the same count changes for a move with the flips the rule computes |
| MoveRules.LegalMoveGains | main.go:125-142 | a legal move flips at least one piece; the mover gains at least two pieces and the opponent loses at least one |
| MoveRules.MovesNeedEmptyCells | main.go:125-135 | on a board without Empty cells nobody has a legal move |
| Engine.WalkRay | main.go:106-120 | the inner loop's outcome equals the walk `Run` of that ray: the gathered opponent cells when one's own piece closes the line, nothing otherwise |
| Engine.GetFlips | main.go:92-123 | the returned list equals `Flips` of the board, player and target |
| Engine.GetValidMoves | main.go:125-135 | the returned list equals `LegalMoves` |
| Engine.MakeMove | main.go:137-142 | afterwards the board array is `Applied`: the target and every listed flip hold the mover's piece, all other cells are unchanged |
| Engine.ContainsMove | main.go:210-216 | the search reports true exactly when the index is in the list |
| Engine.FlipCountsAt | main.go:237-238 | entry j of the flip counts is the number of flips of the j-th move |
| Engine.FirstMaximumExtend | main.go:239-242 | replacing the best only on a strictly larger count keeps the first maximum |
| Engine.ChooseBotMove | main.go:235-243 | with no moves the result is −1; otherwise it is a listed move at the first maximum of the flip counts |
| Engine.GreedyChoiceMeaning | main.go:235-243 | the greedy choice is a listed move; no listed move flips more; every listed move that ties comes at or after it |
| Engine.GreedyChoiceUnique | main.go:235-243 | the greedy choice is unique |
| Coordinates.ParseCoord | main.go:144-154 | an accepted coordinate names a cell of the board |
| Coordinates.ParseCoordAccepts | main.go:144-154 | a string is accepted exactly when it has two bytes, 'a'..'h' then '1'..'8'; the cell then has that column and row |
| Coordinates.ParseFormat | main.go:246-247 | the coordinate the bot prints for a cell parses back to that cell |
| Coordinates.FormatParse | main.go:144-154 | an accepted string prints back as exactly itself: parsing is one-to-one |
| StartPosition.OpeningCounts | main.go:156-161 | the opening has two Black pieces, two White pieces and 60 Empty cells |
| StartPosition.OpeningBrackets | main.go:156-161 | at the opening, Black can bracket only from cells 19, 26, 37 and 44 |
| StartPosition.OpeningFlips19 | main.go:156-161 | Black's move at d3 (19) flips exactly d4 (27) |
| StartPosition.OpeningD3Counts | main.go:137-142 | after Black opens at d3, Black has 4 pieces, White 1, and 59 cells are Empty |
| StartPosition.OpeningMovesWithin | main.go:156-162 | each of Black's opening moves is one of 19, 26, 37, 44 |
| StartPosition.OpeningMovesLegal | main.go:156-162 | each of 19, 26, 37, 44 is a legal opening move for Black |
| StartPosition.OpeningMoveIff | main.go:156-162 | a cell is a legal opening move for Black exactly when it is 19, 26, 37 or 44 |
| StartPosition.OpeningMoves | main.go:156-163 | newGame's stored move list is [19, 26, 37, 44] in this order |
| Game.Decide | main.go:262-268 | Black (the human) wins exactly with more pieces, White (the bot) exactly with more pieces, a draw exactly on equal counts |
| Game.StatusOfSpec | main.go:250-275 | the game is over exactly when neither side can move; the human must pass exactly when only the bot can move; the final scores add up to the occupied cells, at most 64; a full board ends the game |
| Game.GreedyMoveMeaning | main.go:235-243 | the bot's move is legal, flips at least as many pieces as any legal move, and strictly more than every legal move at a lower index |
| Game.BotAnswerMeaning | main.go:226-249 | the bot passes exactly when it has no legal move; its move flips at least one piece, gains 1 + flips pieces and takes the flips from Black |
| Game.RefusesMeaning | main.go:196-221 | against the true move list, a command is refused exactly when it is a pass while Black can move, or a coordinate that does not parse, is occupied, or would flip nothing |
| Game.NewBoard | main.go:157-161 | the new board array is the opening position |
| Game.GameState.constructor | main.go:156-164 | the opening position, Black to move, with stored move list [19, 26, 37, 44] |
| Game.GameState.Pass | main.go:196-202 | a pass is accepted exactly when the stored list is empty; then it is White's turn; a refused pass changes nothing |
| Game.GameState.Play | main.go:210-224 | a placement is accepted exactly when the index is in the stored list; then the board is the move applied with its flips and it is White's turn; a refused placement changes nothing |
| Game.GameState.BotTurn | main.go:226-249 | the bot passes exactly when it has no legal move, and otherwise plays its greedy move with that move's flips; Black is to move afterwards |
| Game.GameState.Score | main.go:255-259 | the tallies are the Black and White piece counts, together at most 64 |
| Game.GameState.Conclude | main.go:250-275 | the stored list becomes Black's legal moves, and the status is game over with score and winner, human must pass, or human to move, as `StatusOf` defines |
| Game.GameState.HumanTurn | main.go:196-275 | a refused pass or placement changes nothing; an accepted one is applied, the bot replies on the resulting board, and the stored list and the status are brought up to date; the state stays consistent between commands |

## Left out

- Rendering the board as an image (`generateOthelloImage`, main.go:33-90) and its font loading: output only, no effect on the board or the turn.
- Saving the image after every command (main.go:87-88, called at main.go:252): when `othello.png` cannot be written, `log.Fatalf` ends the session. The model assumes every save succeeds, so it does not capture a session cut short this way.
- Console I/O: the prompt, the messages and reading lines with the scanner. `HumanTurn` receives the command already read; a `Place` command carries the line's bytes after `strings.ToLower` and `strings.TrimSpace` (main.go:181), which are not modelled.
- The blank-line, `exit`/`keluar` and `new` commands (main.go:182-195): they only restart or end the loop. A new game is the `GameState` constructor.
- `time.Sleep` before the bot's move and `rand.Seed` at start-up: timing only; the random source is never used.
- Engine.GetFlips: requires the target to be on the board. Go would panic on an out-of-range index, and every caller passes 0..63.
- Engine.MakeMove: requires the target and every listed flip to be on the board. Go would panic on an out-of-range index. The callers pass a parsed or listed move and the flips `getFlips` computed, and `MoveRules.FlipsWellFormed` proves those are on the board.
- Engine.ChooseBotMove: requires every listed move to be on the board, because it computes the flips of each. Go would panic otherwise. Its only list comes from `getValidMoves`, and `MoveRules.LegalMovesOnBoard` proves that list is on the board.
- Game.GameState.Play: requires an on-board index; the source calls it only after `parseCoord` accepted the input, which `HumanTurn` models.
- Board cells: Go's `int` cells hold only 0, 1 or 2, which are modelled as `Empty`, `Stone(Black)` and `Stone(White)`. A board passed by value is a 64-element sequence; the game's board that `makeMove` updates is an array.
