# Hexapawn rules, three front-ends

Hexapawn (mini-chess) is played on a 3x3 board. Each side has three pawns.
A pawn steps one square forward onto an empty square, or one square
diagonally forward to capture. The repository has three browser front-ends,
and each one carries its own copy of the rules. The copies differ, so each
is modelled as its own module over a shared board type.

- `grid.dfy`, module `Grid`: the shared `Board` (three rows of three
  `Piece`s, indexed `board[y][x]`).
  - `Moved`: what moving a piece does to the board.
  - Piece counts.
  - `Lists`: what it means to list the squares holding a piece in row-major
    order, and proof that only one such listing exists.
- `isometric.dfy`, module `Isometric`: the isometric canvas game.
  - The rules functions: move generation, piece listing, the game-over test
    and the winner it records.
  - Click-to-select and click-to-move, as the value function `Click`.
  - Class `Game`: the module's global state, with the board as an array
    updated in place. Its methods follow the source's own code:
    - `GetValidMoves` with its offset loop;
    - `ChooseComputerMove`, the computer's move loop, which splices pawns
      out of a list one at a time;
    - `HandleMenu`, `HandlePlaying` and `Update`, the menu / playing /
      game-over state machine.

    Each method is proved against the rules functions.
- `dnd.dfy`, module `DragDrop`: the drag-and-drop page. The pawns the page
  finds in its DOM squares become a board.
  - `isValidMove`.
  - The drop and its end-of-turn checks: last pawn taken, breakthrough,
    mobility, then the turn switch.
  - The drag-start colour check.
- `canvas.dfy`, module `Canvas`: the plain canvas page.
  - White's two-click update, as the value function `Step`. Lemmas state its
    behaviour.
  - Class `Game`: the state object. Its `Update` is proved equal to `Step`.
- `agreement.dfy`, module `Agreement`: how the copies relate.
  - For the player on turn, the drag-and-drop move predicate and mobility
    test agree with the isometric engine.
  - Off turn they disagree.
  - The canvas page's scan of Black's pawns is the isometric
    `getPieceLocations`.

The source's slips are modelled as written, and lemmas show their effect:

- **Drag-and-drop capture test** (app-dnd.js:65). `getOpponent()` always
  answers for the global `currPlayer`. So when `hasMoves` runs for the side
  not on turn, an honest capture is not seen, and a diagonal onto that side's
  own pawn counts as a move.
  - `DragDrop.OffTurnDiagonal`
  - `DragDrop.OpponentCaptureOverlooked`
  - `Agreement.OffTurnMobilityDiffers`
- **Assignment for comparison** (chess-canvas.js:76). `=` is used where a
  comparison was meant, so the row test is always true for an on-board
  click. A White move then starts on the row below the destination, in the
  first click's column; the first click's row is ignored. An attack accepts any
  occupant, so an empty square can "capture" a Black pawn. An accepted click
  on the bottom row raises a TypeError in `movePiece`.
  - `Canvas.Accepted`
  - `Canvas.FirstRowIgnored`
  - `Canvas.EmptyCapture`
- **Undeclared variable** (chess-canvas.js:114). Black's turn reads
  `hasRoomToMove`, which is never declared, so it raises before anything
  moves. With no Black pawn it raises earlier, at line 111.
  - `Canvas.BlackUpdate`
  - `Canvas.BlackNeverMoves`
- **Stalemate tie-break** (chess-isometric.js:143-144). When neither side can
  move, `isGameOver` credits the opponent of the player being tested.
  - `Isometric.Winner`
  - `Isometric.DeadlockCreditsOpponent`

Randomness (`Math.random`) becomes a parameter `draw: nat -> nat`, required
to pick an index below the length it is given (`Grid.IsDraw`).

## Model

| member | source | states |
|---|---|---|
| Grid.Moved | chess-isometric.js:116-119 | The destination gets the source's occupant, the source becomes Empty, and the other seven squares are unchanged. |
| Grid.MovedCount | chess-isometric.js:116-119 | For each colour, a move lowers that colour's count by one exactly when the destination held it; otherwise the count is unchanged. |
| Grid.MovedPieces | chess-isometric.js:116-119 | The total piece count drops by one exactly when the destination was occupied, and never grows. |
| Grid.ListsUnique | chess-isometric.js:73-78 | Only one row-major, repeat-free listing of the squares holding a piece exists. |
| Grid.ListsEmpty | chess-canvas.js:100-111 | A listing of a colour's squares is empty exactly when the board holds none of that colour. |
| Isometric.Opponent | chess-isometric.js:68 | The opponent is never the player and never Empty; of the two colours, each is the other's opponent. |
| Isometric.RowLocations | chess-isometric.js:73-78 | One row's coordinates holding the piece, left to right: exactly those squares, in increasing order, as many as the row holds. |
| Isometric.PieceLocations | chess-isometric.js:73-78 | Lists exactly the squares holding the piece, each once, in row-major order, as many as the board's count of that piece. |
| Isometric.ValidMoves | chess-isometric.js:81-112 | At most three destinations. Each is on the board, one row forward for the player (up for White, down otherwise), and within one column of the pawn. |
| Isometric.ValidMovesExactly | chess-isometric.js:89-109 | A square is a destination iff it is one row forward and either straight ahead and Empty, or one column aside and held by the opponent; never an empty diagonal, never the mover's own pawn. |
| Isometric.EdgeRowStuck | chess-isometric.js:81-112 | A pawn on its far edge row (row 0 for White, row 2 for Black) has no destination. |
| Isometric.MovesFrom | chess-isometric.js:124-125 | The concatenated destination lists of the listed pawns, as the map and flat build them; MovesFromEmpty states that it is empty iff every listed pawn has no destination. |
| Isometric.MovesFromEmpty | chess-isometric.js:124-126 | The flattened destination list is empty iff no listed pawn has a destination. |
| Isometric.CanMove | chess-isometric.js:124-126 | Some square holds the player's pawn and that pawn has a destination; CanMoveIff proves this equal to the source's playerCanMove. |
| Isometric.GameOver | chess-isometric.js:134-135 | The game is over when the player or its opponent cannot move. |
| Isometric.CanMoveIff | chess-isometric.js:122-133 | The mobility computed from the listed pawns' moves holds iff some square holding the player's pawn has a destination. |
| Isometric.Winner | chess-isometric.js:135-146 | When the game is over, the winner is the player or its opponent. The player wins only if it can move and the opponent cannot; if the player cannot move, the opponent is credited, including when neither can. |
| Isometric.InitialMoves | chess-isometric.js:46-50 | On the starting board every pawn's only destination is the square straight ahead. |
| Isometric.InitialNotOver | chess-isometric.js:122-149 | The starting board is not game over, whichever side is tested. |
| Isometric.OpeningPush | chess-isometric.js:116-119 | Pushing White's middle pawn gives the expected board, and the game is not over for Black. |
| Isometric.DeadlockCreditsOpponent | chess-isometric.js:143-144 | On a board where neither side can move, testing White records Black as the winner. |
| Isometric.Click | chess-isometric.js:535-561 | With no selection: board and turn are unchanged, and the tile becomes selected iff it holds a current-player pawn with a destination. With a selection: a valid destination moves the pawn, flips the turn and clears the selection; otherwise an own pawn is reselected (no mobility check), and anything else changes nothing. The piece count never grows. |
| Isometric.Press | chess-isometric.js:522-533 | The click logic runs only when the pointer is pressed and over a board tile; otherwise nothing changes. |
| Isometric.Game.constructor | chess-isometric.js:41-57 | Starting board, White to move, one player, no selection, no winner, main menu. |
| Isometric.Game.GetValidMoves | chess-isometric.js:81-112 | The offset loop over the array computes exactly ValidMoves of the current board. |
| Isometric.Game.MovePiece | chess-isometric.js:116-119 | The board array afterwards is Moved of the board before. |
| Isometric.Game.IsGameOver | chess-isometric.js:122-149 | Returns GameOver of the board for the player. When true, it records Winner; when false, winner is untouched. |
| Isometric.Game.ChooseComputerMove | chess-isometric.js:489-512 | Returns no move iff Black cannot move. Otherwise the move starts on a Black pawn, and its destination is one of that pawn's valid moves. |
| Isometric.Game.ComputerTurn | chess-isometric.js:485-519 | If Black can move, a Black pawn moves to one of its valid destinations and White is to play; otherwise board and turn are unchanged. |
| Isometric.Game.HandleMenu | chess-isometric.js:458-469 | A press on section 2 or 3 starts play with 1 or 2 players and releases the pointer; anything else changes nothing. |
| Isometric.Game.HandlePlaying | chess-isometric.js:472-565 | If the game is over at the start, it goes to Game Over with the winner recorded and nothing else changed. Otherwise the press is handled as Click, and in one-player mode on Black's turn the computer's move follows. |
| Isometric.Game.PlayTurn | chess-isometric.js:483-565 | The press (Press), then, when it is the computer's turn, a computer move from the board the press left. |
| Isometric.Game.HandlePress | chess-isometric.js:522-564 | The state afterwards is Press of the state before. The pointer is released iff the press reached the click logic. |
| Isometric.Game.HandleClick | chess-isometric.js:535-564 | The state afterwards is Click of the state before, and the pointer is released. |
| Isometric.Game.Update | chess-isometric.js:574-591 | Dispatch on gameState; only the fields the handlers write can change. Menu: HandleMenu's outcome, with board, turn, selection and winner kept. Playing: HandlePlaying's outcome, that is, Game Over with Winner when the board is game over, otherwise Played. Game Over changes nothing and has no exit. Any other value is an error. |
| DragDrop.Opponent | app-dnd.js:36 | The answer depends only on the global current player: never it, never Empty. |
| DragDrop.GetPiece | app-dnd.js:39-43 | The occupant of an on-board square; none off the board. |
| DragDrop.IsValidMove | app-dnd.js:46-74 | True only when all four coordinates are on the board and the target is one row forward for `player`. |
| DragDrop.IsValidMoveIff | app-dnd.js:46-74 | True iff on the board, one row forward, and either same column onto Empty, or an adjacent column onto the opponent of the global current player. |
| DragDrop.OffTurnDiagonal | app-dnd.js:61-73 | For the side not on turn, a diagonal is accepted iff the target holds that side's own colour. |
| DragDrop.DroppedPieces | app-dnd.js:98-106 | The dragged pawn lands on the target and other squares are unchanged. At most one pawn is removed, only when the target was occupied; none is created. |
| DragDrop.Dropped | app-dnd.js:98-106 | The board after a drop: the dragged pawn on the target, its own square emptied; dropped on its own square, the board is unchanged. DroppedPieces states its properties. |
| DragDrop.ReachedFarRow | app-dnd.js:120-126 | The current player has a pawn on row 0 (White) or row 2 (Black). |
| DragDrop.PawnHasMove | app-dnd.js:134-143 | isValidMove, with the global current player, accepts one of the three columns of the pawn's next row. |
| DragDrop.HasMoves | app-dnd.js:134-143 | Some square holds the player's pawn and that pawn passes PawnHasMove; MobilityAgrees and OffTurnMobilityDiffers relate it to the isometric mobility. |
| DragDrop.EndOfTurn | app-dnd.js:109-168 | Last-pawn-taken iff the opponent has no pawns. Breakthrough iff the opponent has pawns and the current player has one on its far row, so it comes before any mobility check. The game goes on only if both sides have moves. |
| DragDrop.MobilityOutcome | app-dnd.js:144-163 | Once the first two checks pass: neither side mobile is stalemate, only the current player is a win for it, only the opponent is a win for the opponent, and both is game on. |
| DragDrop.OpponentCaptureOverlooked | app-dnd.js:134-155 | On a board where Black's only move is a capture, White is declared the winner after White's turn. |
| DragDrop.Game.constructor | app-dnd.js:8-11 | The page's pawns as laid out, White to move, nothing dragged. |
| DragDrop.Game.OnPieceDragStart | app-dnd.js:171-181 | A drag is allowed iff the pawn is the current player's colour, and only then does it become the dragged pawn. |
| DragDrop.Game.OnPieceDragEnd | app-dnd.js:183-186 | Nothing is dragged afterwards. |
| DragDrop.Game.OnDragOver | app-dnd.js:80-91 | The drop is allowed iff isValidMove holds for the dragged pawn and the current player. With nothing dragged the handler fails. |
| DragDrop.Game.Place | app-dnd.js:99-106 | The board becomes Dropped: the dragged pawn replaces the target's occupant or fills the empty target, and leaves its own square. |
| DragDrop.Game.OnDrop | app-dnd.js:93-169 | The board becomes Dropped. The outcome is EndOfTurn of that board for the player who moved. The turn passes to the opponent only when the outcome is game on. The dropped pawn's square is remembered. With nothing dragged, nothing changes. |
| Canvas.Accepted | chess-canvas.js:74-82 | A second click is accepted iff same column onto Empty, or one column aside onto any occupant, whatever the row of the first click. |
| Canvas.WhiteUpdate | chess-canvas.js:67-96 | Clicks stay on the board unless the move raised the TypeError at line 61. |
| Canvas.BlackUpdate | chess-canvas.js:97-114 | Black's branch raises a TypeError iff Black has no pawn; otherwise it raises a ReferenceError for hasRoomToMove. |
| Canvas.FirstClickRemembered | chess-canvas.js:90-95 | A first click moves the click into prevClick and clears click; board and turn are untouched. |
| Canvas.Step | chess-canvas.js:66-137 | update: White's branch on White's turn, otherwise Black's branch, which raises and changes nothing. |
| Canvas.SecondClickOutcome | chess-canvas.js:74-92 | A rejected second click clears both clicks and keeps the board and turn. An accepted click above the bottom row moves the occupant of the square on the row below it, in the first click's column, onto it and passes the turn to Black. An accepted click on the bottom row raises a TypeError at line 61. |
| Canvas.SecondClickClears | chess-canvas.js:88-95 | A second click leaves both clicks cleared, accepted or not, unless the move raised; a move that raised changed neither board nor turn. |
| Canvas.FirstRowIgnored | chess-canvas.js:76-84 | The result of a second click does not depend on the row of the first click. |
| Canvas.StepMoves | chess-canvas.js:77-87 | The piece count never grows. Any board change is the move onto the click from the row below it, in the first click's column; it ends White's turn without an error. |
| Canvas.BlackNeverMoves | chess-canvas.js:97-114 | On Black's turn every update raises and changes nothing. |
| Canvas.EmptyCapture | chess-canvas.js:76-87 | From the start, clicks on (0, 2) then (1, 0) move the empty (0, 1) onto Black's pawn at (1, 0) and give the turn to Black. |
| Canvas.Game.constructor | chess-canvas.js:41-56 | White to play on the starting board, with no clicks. |
| Canvas.Game.MovePiece | chess-canvas.js:58-63 | The board array afterwards is Moved of the board before. |
| Canvas.Game.OnClick | chess-canvas.js:170-175 | The clicked tile becomes the pending click. |
| Canvas.Game.BlackPositions | chess-canvas.js:100-106 | The nested scan lists exactly Black's squares, each once, in row-major order. |
| Canvas.Game.Update | chess-canvas.js:66-137 | The status and the new state object are exactly Step of the old state. |
| Agreement.ValidMoveAgrees | app-dnd.js:46-74 | For the player on turn, isValidMove accepts exactly the destinations getValidMoves lists. |
| Agreement.MobilityAgrees | app-dnd.js:134-143 | For the player on turn, hasMoves holds iff isGameOver's mobility test finds a move. |
| Agreement.PawnMoveAgrees | app-dnd.js:134-143 | A pawn that has a getValidMoves destination passes the hasMoves test for its square. |
| Agreement.OffTurnMobilityDiffers | app-dnd.js:65 | On a board where Black can capture, the isometric engine sees the capture; hasMoves with White on turn does not. |
| Agreement.ScanIsPieceLocations | chess-canvas.js:100-106 | Any row-major listing of Black's squares, such as the canvas scan, equals the isometric getPieceLocations. |

## Left out

- Drawing is not modelled: every `draw*` function, the menu layout and the
  text helpers. They only make canvas calls.
- `darkenColor` is not modelled: it is colour arithmetic on hex strings,
  used only to pick fill styles for drawing.
- `quadraticEase` is not modelled: it is an animation easing helper that
  nothing calls.
- Pixel-to-tile conversion is not modelled:
  - the isometric transforms (`fromIso`, `toIso`);
  - the menu section arithmetic;
  - the canvas page's `~~(offset / 100)`.

  The models take the tile (or menu row) under the pointer as a parameter,
  because this is floating-point pixel arithmetic.
- Isometric.Game.HandlePlaying: the computer's move runs through a
  one-second `setTimeout` guarded by `isPlaying`. The model commits it as one
  step, at the end of the same frame, after the click logic. The timer and
  its interleaving with further frames are not modelled.
- Event listeners, `resize`, `requestAnimationFrame` loops and
  `console.log` are not modelled; they are I/O.
- Canvas.Game.OnClick: the tile is required to be on the board, that is,
  clicks are assumed to land on the 3x3 board; the script itself does not
  bound the tile. What this drops: an off-board second click with
  y of 3 or more raises at line 77 when the destination row is read, and
  one with x = 3 and y < 2 after a first click in column 2 is taken as an
  attack and writes a fourth column.
- Canvas.Game.Update: a raised error also stops the animation loop, so the
  page freezes. The model returns the error and leaves the state for the
  caller; it does not record that no further update will run.
- Black's intended move in the canvas page (chess-canvas.js:116-135) is not
  modelled, because line 114 always raises before it.
- The DOM is not modelled: the drag-and-drop queries `getAllPieces`,
  `getBoard` and `getElementsByClassName`, and the CSS classes
  (`dragging`, the turn shadow, `draggable` on mouse-over). The board
  replaces the DOM. `getBoard` builds an unused x-major board and has no
  counterpart here.
- DragDrop.Game.constructor: the initial pawn layout comes from the page's
  markup, which is not in the script, so it is a parameter.
- DragDrop.Game.OnDragOver and DragDrop.Game.OnDrop: with nothing being
  dragged, the source fails with an exception. The model returns None and
  changes nothing.
