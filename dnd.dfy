/** The rules of the drag-and-drop front-end: the move predicate, the drop
    that moves (and possibly captures), the end-of-turn checks (last pawn
    taken, breakthrough, mobility) and the turn switch. The page's squares and
    pawn images are replaced by a board: a square's occupant is what the
    source reads off the DOM. */
module DragDrop {
  import opened Grid

  /** getOpponent: it takes no argument and always answers for the global
      current player. */
  function Opponent(currPlayer: Piece): (r: Piece)
    ensures r != currPlayer && r != Empty
    ensures currPlayer != Empty ==> (currPlayer == White <==> r == Black)
  {
    if currPlayer == White then Black else White
  }

  /** The row offset of a forward step: up for White, down otherwise. */
  function Direction(player: Piece): int {
    if player == White then -1 else 1
  }

  /** getPiece: the colour of the pawn at (x, y), or none (Empty) when there
      is no pawn there, including off the board. */
  function GetPiece(b: Board, x: int, y: int): (r: Piece)
    ensures !InBounds(Cell(x, y)) ==> r == Empty
    ensures InBounds(Cell(x, y)) ==> r == Get(b, Cell(x, y))
  {
    if 0 <= x < 3 && 0 <= y < 3 then b[y][x] else Empty
  }

  /** isValidMove: can `player`'s pawn at (pieceX, pieceY) go to (gridX,
      gridY)? The capture test compares with the opponent of the global
      currPlayer, not with the opponent of `player`. */
  function IsValidMove(b: Board, currPlayer: Piece, gridX: int, gridY: int, pieceX: int, pieceY: int, player: Piece): (valid: bool)
    ensures valid ==> InBounds(Cell(gridX, gridY)) && InBounds(Cell(pieceX, pieceY))
    ensures valid ==> gridY == pieceY + Direction(player)
  {
    if gridX < 0 || gridY < 0 || pieceX < 0 || pieceY < 0 || gridX > 2 || gridY > 2 || pieceX > 2 || pieceY > 2 then
      false
    else if pieceY + Direction(player) != gridY then
      false
    else
      var diffX := gridX - pieceX;
      var pieceAtGridSquare := GetPiece(b, gridX, gridY);
      (diffX == 0 && pieceAtGridSquare == Empty) || ((diffX == 1 || diffX == -1) && pieceAtGridSquare == Opponent(currPlayer))
  }

  /** The move predicate in full: both squares on the board, one row forward,
      and either straight onto an empty square or one column aside onto a pawn
      of the current player's opponent. */
  lemma IsValidMoveIff(b: Board, currPlayer: Piece, gridX: int, gridY: int, pieceX: int, pieceY: int, player: Piece)
    ensures IsValidMove(b, currPlayer, gridX, gridY, pieceX, pieceY, player) <==>
      && InBounds(Cell(gridX, gridY)) && InBounds(Cell(pieceX, pieceY))
      && gridY == pieceY + Direction(player)
      && ((gridX == pieceX && Get(b, Cell(gridX, gridY)) == Empty)
          || ((gridX == pieceX + 1 || gridX == pieceX - 1) && Get(b, Cell(gridX, gridY)) == Opponent(currPlayer)))
  {
  }

  /** For the player not on turn, the diagonal test looks for that player's
      own colour: such a pawn may "capture" its own side and never captures
      the side on turn. */
  lemma OffTurnDiagonal(b: Board, currPlayer: Piece, pieceX: int, pieceY: int, player: Piece, d: int)
    requires currPlayer != Empty && player == Opponent(currPlayer)
    requires d == 1 || d == -1
    requires InBounds(Cell(pieceX, pieceY)) && InBounds(Cell(pieceX + d, pieceY + Direction(player)))
    ensures IsValidMove(b, currPlayer, pieceX + d, pieceY + Direction(player), pieceX, pieceY, player)
            <==> Get(b, Cell(pieceX + d, pieceY + Direction(player))) == player
  {
  }

  // ----- the drop

  /** What a drop does to the board: the dragged pawn lands on the target,
      replacing any occupant, and leaves its own square. Dropping a pawn on its
      own square changes nothing. */
  function Dropped(b: Board, src: Cell, dst: Cell): (r: Board)
    requires InBounds(src) && InBounds(dst)
  {
    if src == dst then b else Moved(b, src, dst)
  }

  /** The dragged pawn ends on the target; at most one pawn is removed, and
      only when the target was occupied by another square's pawn; none is
      created. */
  lemma DroppedPieces(b: Board, src: Cell, dst: Cell)
    requires InBounds(src) && InBounds(dst)
    ensures Get(Dropped(b, src, dst), dst) == Get(b, src)
    ensures forall c :: InBounds(c) && c != src && c != dst ==> Get(Dropped(b, src, dst), c) == Get(b, c)
    ensures Pieces(Dropped(b, src, dst))
            == Pieces(b) - (if src != dst && Get(b, dst) != Empty then 1 else 0)
    ensures Pieces(Dropped(b, src, dst)) <= Pieces(b)
  {
    if src != dst {
      MovedPieces(b, src, dst);
    }
  }

  // ----- the end-of-turn checks

  /** The outcome of onDrop's checks, in the order the source makes them. */
  datatype Ending = LastPawnTaken | Breakthrough | Stalemate | PlayerWon | OpponentWon | GameOn

  /** The current player has a pawn on the far row: row 0 for White, row 2
      otherwise. */
  predicate ReachedFarRow(b: Board, currPlayer: Piece) {
    var targetY := if currPlayer == White then 0 else 2;
    exists x | 0 <= x < 3 :: b[targetY][x] == currPlayer
  }

  /** One pawn of `player` at (x, y) has a move to some column of the next
      row, judged by isValidMove. */
  predicate PawnHasMove(b: Board, currPlayer: Piece, x: int, y: int, player: Piece) {
    var gridY := Direction(player) + y;
    IsValidMove(b, currPlayer, 0, gridY, x, y, player)
    || IsValidMove(b, currPlayer, 1, gridY, x, y, player)
    || IsValidMove(b, currPlayer, 2, gridY, x, y, player)
  }

  /** hasMoves: some pawn of `player` has a move. */
  predicate HasMoves(b: Board, currPlayer: Piece, player: Piece) {
    exists y, x | 0 <= y < 3 && 0 <= x < 3 :: b[y][x] == player && PawnHasMove(b, currPlayer, x, y, player)
  }

  /** The end-of-turn checks on the board after the drop, with currPlayer
      not yet switched. */
  function EndOfTurn(b: Board, currPlayer: Piece): (r: Ending)
    ensures r == LastPawnTaken <==> Count(b, Opponent(currPlayer)) == 0
    ensures r == Breakthrough <==> Count(b, Opponent(currPlayer)) > 0 && ReachedFarRow(b, currPlayer)
    ensures r in {Stalemate, PlayerWon, OpponentWon, GameOn} ==>
      Count(b, Opponent(currPlayer)) > 0 && !ReachedFarRow(b, currPlayer)
    ensures r == GameOn ==> HasMoves(b, currPlayer, currPlayer) && HasMoves(b, currPlayer, Opponent(currPlayer))
  {
    var opponent := Opponent(currPlayer);
    if Count(b, opponent) == 0 then LastPawnTaken
    else if ReachedFarRow(b, currPlayer) then Breakthrough
    else
      var playerHasMoves := HasMoves(b, currPlayer, currPlayer);
      var opponentHasMoves := HasMoves(b, currPlayer, opponent);
      if !playerHasMoves && !opponentHasMoves then Stalemate
      else if playerHasMoves && !opponentHasMoves then PlayerWon
      else if !playerHasMoves && opponentHasMoves then OpponentWon
      else GameOn
  }

  /** Once the opponent still has pawns and neither far-row win applies, the
      outcome is decided by the two mobility tests alone. */
  lemma MobilityOutcome(b: Board, currPlayer: Piece)
    requires Count(b, Opponent(currPlayer)) > 0 && !ReachedFarRow(b, currPlayer)
    ensures var p, o := HasMoves(b, currPlayer, currPlayer), HasMoves(b, currPlayer, Opponent(currPlayer));
      EndOfTurn(b, currPlayer) == (if p && o then GameOn else if p then PlayerWon else if o then OpponentWon else Stalemate)
  {
  }

  /** Because the off-turn side's captures are looked for on its own colour,
      a Black pawn whose only move is a capture counts as stuck: White is
      declared the winner although Black could take the pawn at (1, 1). */
  lemma OpponentCaptureOverlooked()
    ensures var b: Board := [[Black, Empty, Empty], [White, White, Empty], [Empty, Empty, Empty]];
      && Get(b, Cell(1, 1)) == White
      && EndOfTurn(b, White) == PlayerWon
  {
    var b: Board := [[Black, Empty, Empty], [White, White, Empty], [Empty, Empty, Empty]];
    assert b[1][1] == White && PawnHasMove(b, White, 1, 1, White);
    assert Count(b, Black) == 1;
    forall y, x | 0 <= y < 3 && 0 <= x < 3 && b[y][x] == Black
      ensures !PawnHasMove(b, White, x, y, Black)
    {
      assert y == 0 && x == 0;
    }
  }

  /** The page's state: the pawns on the squares, whose turn it is, and the
      square of the pawn being dragged, if any. */
  class Game {
    const board: array2<Piece>
    var currPlayer: Piece
    var draggingPiece: Option<Cell>

    predicate Sized() {
      board.Length0 == 3 && board.Length1 == 3
    }

    /** The turn is always a colour, and a dragged pawn is on a square of
        the board. */
    ghost predicate Valid()
      reads this, board
    {
      && Sized() && currPlayer != Empty
      && (draggingPiece.Some? ==> InBounds(draggingPiece.value) && Get(Cells(), draggingPiece.value) != Empty)
    }

    /** The board as a value. */
    function Cells(): Board
      reads board
      requires Sized()
    {
      seq(3, y reads board requires 0 <= y < 3 =>
        seq(3, x reads board requires 0 <= x < 3 => board[y, x]))
    }

    /** The page as loaded, with `layout` the pawns its markup places; White
        moves first and nothing is being dragged. */
    constructor (layout: Board)
      ensures Valid() && Cells() == layout
      ensures currPlayer == White && draggingPiece == None
    {
      board := new Piece[3, 3]((y: nat, x: nat) => if y < 3 && x < 3 then layout[y][x] else Empty);
      currPlayer := White;
      draggingPiece := None;
      new;
      BoardEq(Cells(), layout);
    }

    /** onPieceDragStart for the pawn on square `at`: a drag is allowed only
        for a pawn of the current player's colour, which becomes the dragged
        pawn. */
    method OnPieceDragStart(at: Cell) returns (allowed: bool)
      requires Valid() && InBounds(at)
      modifies this`draggingPiece
      ensures Valid()
      ensures allowed <==> Get(Cells(), at) == currPlayer
      ensures draggingPiece == if allowed then Some(at) else old(draggingPiece)
    {
      var pieceColour := board[at.y, at.x];
      allowed := currPlayer == pieceColour;
      if allowed {
        draggingPiece := Some(at);
      }
    }

    /** onPieceDragEnd: nothing is being dragged any more. */
    method OnPieceDragEnd()
      requires Valid()
      modifies this`draggingPiece
      ensures Valid() && draggingPiece == None
    {
      draggingPiece := None;
    }

    /** onDragOver for `square`: whether a drop there is allowed, judged by
        isValidMove for the current player. None stands for the exception the
        source raises when nothing is being dragged. */
    method OnDragOver(square: Cell) returns (allowDrop: Option<bool>)
      requires Valid()
      ensures draggingPiece.None? <==> allowDrop.None?
      ensures draggingPiece.Some? ==>
        allowDrop == Some(IsValidMove(Cells(), currPlayer, square.x, square.y, draggingPiece.value.x, draggingPiece.value.y, currPlayer))
    {
      if draggingPiece.None? {
        return None;
      }
      var piece := draggingPiece.value;
      allowDrop := Some(IsValidMove(Cells(), currPlayer, square.x, square.y, piece.x, piece.y, currPlayer));
    }

    /** The DOM update of onDrop: the dragged pawn replaces the target's
        occupant, or is appended to the empty target. */
    method Place(src: Cell, square: Cell)
      requires Sized() && InBounds(src) && InBounds(square)
      modifies board
      ensures Cells() == Dropped(old(Cells()), src, square)
    {
      ghost var before := Cells();
      var hasPiece := board[square.y, square.x] != Empty;
      if hasPiece {
        if src != square {
          board[square.y, square.x] := board[src.y, src.x];
          board[src.y, src.x] := Empty;
        }
      } else {
        board[square.y, square.x] := board[src.y, src.x];
        board[src.y, src.x] := Empty;
      }
      BoardEq(Cells(), Dropped(before, src, square));
    }

    /** onDrop on `square`: the dragged pawn moves there, capturing any
        occupant; then the end-of-turn checks run, and the turn passes to the
        opponent only when none of them ended the game. None stands for the
        exception the source raises when nothing is being dragged; then nothing
        changes. */
    method OnDrop(square: Cell) returns (ending: Option<Ending>)
      requires Valid() && InBounds(square)
      modifies board, this`currPlayer, this`draggingPiece
      ensures Valid()
      ensures old(draggingPiece).None? ==>
        && ending == None && Cells() == old(Cells())
        && currPlayer == old(currPlayer) && draggingPiece == None
      ensures old(draggingPiece).Some? ==>
        && Cells() == Dropped(old(Cells()), old(draggingPiece).value, square)
        && ending == Some(EndOfTurn(Cells(), old(currPlayer)))
        && currPlayer == (if ending == Some(GameOn) then Opponent(old(currPlayer)) else old(currPlayer))
        && draggingPiece == Some(square)
    {
      if draggingPiece.None? {
        return None;
      }
      var src := draggingPiece.value;
      var opponent := Opponent(currPlayer);
      Place(src, square);
      draggingPiece := Some(square);
      var e := EndOfTurn(Cells(), currPlayer);
      ending := Some(e);
      if e == GameOn {
        currPlayer := opponent;
      }
    }
  }
}
