/** How the rule copies of the front-ends relate. For the player on turn the
    drag-and-drop move predicate and mobility test agree with the isometric
    engine; for the player off turn they do not, because the drag-and-drop
    capture test looks at the global current player. The canvas front-end's
    scan of Black's pawns lists them as the isometric getPieceLocations does. */
module Agreement {
  import opened Grid
  import Isometric
  import DragDrop

  /** For the player on turn, isValidMove accepts exactly the destinations
      getValidMoves lists. */
  lemma ValidMoveAgrees(b: Board, player: Piece, px: int, py: int, c: Cell)
    requires player != Empty
    requires InBounds(Cell(px, py))
    ensures DragDrop.IsValidMove(b, player, c.x, c.y, px, py, player)
            <==> c in Isometric.ValidMoves(b, px, py, player)
  {
    DragDrop.IsValidMoveIff(b, player, c.x, c.y, px, py, player);
    Isometric.ValidMovesExactly(b, px, py, player, c);
  }

  /** For the player on turn, hasMoves holds exactly when isGameOver's
      mobility test finds a move. */
  lemma MobilityAgrees(b: Board, player: Piece)
    requires player != Empty
    ensures DragDrop.HasMoves(b, player, player) <==> Isometric.CanMove(b, player)
  {
    if DragDrop.HasMoves(b, player, player) {
      HasMovesCanMove(b, player);
    }
    if Isometric.CanMove(b, player) {
      CanMoveHasMoves(b, player);
    }
  }

  lemma HasMovesCanMove(b: Board, player: Piece)
    requires player != Empty && DragDrop.HasMoves(b, player, player)
    ensures Isometric.CanMove(b, player)
  {
    var y, x :| 0 <= y < 3 && 0 <= x < 3 && b[y][x] == player && DragDrop.PawnHasMove(b, player, x, y, player);
    var gy := DragDrop.Direction(player) + y;
    var gx :| 0 <= gx < 3 && DragDrop.IsValidMove(b, player, gx, gy, x, y, player);
    ValidMoveAgrees(b, player, x, y, Cell(gx, gy));
    assert Cell(gx, gy) in Isometric.ValidMoves(b, x, y, player);
  }

  lemma CanMoveHasMoves(b: Board, player: Piece)
    requires player != Empty && Isometric.CanMove(b, player)
    ensures DragDrop.HasMoves(b, player, player)
  {
    var y, x :| 0 <= y < 3 && 0 <= x < 3 && b[y][x] == player && Isometric.ValidMoves(b, x, y, player) != [];
    PawnMoveAgrees(b, player, x, y, Isometric.ValidMoves(b, x, y, player)[0]);
  }

  /** A pawn with a listed destination passes the hasMoves test for its
      pawn. */
  lemma PawnMoveAgrees(b: Board, player: Piece, x: int, y: int, d: Cell)
    requires player != Empty && InBounds(Cell(x, y))
    requires d in Isometric.ValidMoves(b, x, y, player)
    ensures DragDrop.PawnHasMove(b, player, x, y, player)
  {
    ValidMoveAgrees(b, player, x, y, d);
    assert d.y == DragDrop.Direction(player) + y && 0 <= d.x < 3;
  }

  /** Off turn the two disagree: on this board the isometric engine finds
      Black's capture at (1, 1), while the drag-and-drop hasMoves, run with
      White on turn, finds no move for Black. */
  lemma OffTurnMobilityDiffers(b: Board)
    requires b == [[Black, Empty, Empty], [White, White, Empty], [Empty, Empty, Empty]]
    ensures Isometric.CanMove(b, Black) && !DragDrop.HasMoves(b, White, Black)
  {
    BlackCanCapture(b);
    BlackSeenStuck(b);
  }

  lemma BlackCanCapture(b: Board)
    requires b == [[Black, Empty, Empty], [White, White, Empty], [Empty, Empty, Empty]]
    ensures Isometric.CanMove(b, Black)
  {
    assert Cell(1, 1) in Isometric.ValidMoves(b, 0, 0, Black) && b[0][0] == Black;
  }

  lemma BlackSeenStuck(b: Board)
    requires b == [[Black, Empty, Empty], [White, White, Empty], [Empty, Empty, Empty]]
    ensures !DragDrop.HasMoves(b, White, Black)
  {
    forall y, x | 0 <= y < 3 && 0 <= x < 3 && b[y][x] == Black
      ensures !DragDrop.PawnHasMove(b, White, x, y, Black)
    {
      assert y == 0 && x == 0;
    }
  }

  /** Any row-major listing of Black's pawns, such as the canvas update's
      scan, is the isometric getPieceLocations result. */
  lemma ScanIsPieceLocations(b: Board, positions: seq<Cell>)
    requires Lists(b, Black, positions)
    ensures positions == Isometric.PieceLocations(b, Black)
  {
    ListsUnique(b, Black, positions, Isometric.PieceLocations(b, Black));
  }
}
