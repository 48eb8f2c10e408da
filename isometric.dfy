/** The rules engine and game loop of the isometric front-end: move
    generation, move application, the game-over test with its winner
    attribution, the menu / playing / game-over state machine, the
    click-to-select and click-to-move logic, and the random computer opponent
    that plays Black in one-player mode. */
module Isometric {
  import opened Grid

  // The values the source's gameState takes.
  const StateMenu: string := "Main Menu"
  const StatePlaying: string := "Playing"
  const StateGameOver: string := "Game Over!"

  // The menu sections whose selection starts a one- or a two-player game.
  const OnePlayerSection: int := 2
  const TwoPlayerSection: int := 3

  function Opponent(player: Piece): (r: Piece)
    ensures r != player && r != Empty
    ensures player != Empty ==> (player == White <==> r == Black)
  {
    if player == White then Black else White
  }

  /** The row offset of a forward step: up the board for White, down for
      anything else. */
  function Forward(player: Piece): int {
    if player == White then -1 else 1
  }

  // ----- getPieceLocations

  /** One row of getPieceLocations: the coordinates of the squares from column
      x on that hold p, left to right. */
  function RowLocations(row: seq<Piece>, y: int, p: Piece, x: nat): (r: seq<Cell>)
    requires x <= |row|
    decreases |row| - x
    ensures forall c :: c in r ==> c.y == y && x <= c.x < |row| && row[c.x] == p
    ensures forall i :: x <= i < |row| && row[i] == p ==> Cell(i, y) in r
    ensures RowMajor(r)
    ensures |r| == CountRow(row[x..], p)
  {
    if x == |row| then []
    else
      var rest := RowLocations(row, y, p, x + 1);
      assert row[x..][1..] == row[x + 1..];
      RowMajorAppend(if row[x] == p then [Cell(x, y)] else [], rest);
      (if row[x] == p then [Cell(x, y)] else []) + rest
  }

  /** The squares holding the given piece, row by row. */
  function PieceLocations(b: Board, piece: Piece): (r: seq<Cell>)
    ensures Lists(b, piece, r)
    ensures |r| == Count(b, piece)
  {
    var r0, r1, r2 := RowLocations(b[0], 0, piece, 0), RowLocations(b[1], 1, piece, 0), RowLocations(b[2], 2, piece, 0);
    RowsListed(b, piece, r0, r1, r2);
    r0 + r1 + r2
  }

  lemma RowsListed(b: Board, piece: Piece, r0: seq<Cell>, r1: seq<Cell>, r2: seq<Cell>)
    requires r0 == RowLocations(b[0], 0, piece, 0)
    requires r1 == RowLocations(b[1], 1, piece, 0)
    requires r2 == RowLocations(b[2], 2, piece, 0)
    ensures Lists(b, piece, r0 + r1 + r2)
    ensures |r0 + r1 + r2| == Count(b, piece)
  {
    assert b[0][0..] == b[0] && b[1][0..] == b[1] && b[2][0..] == b[2];
    RowMajorAppend(r0, r1);
    RowMajorAppend(r0 + r1, r2);
    forall c | InBounds(c) && Get(b, c) == piece
      ensures c in r0 + r1 + r2
    {
      if c.y == 0 {
        assert c in r0;
      } else if c.y == 1 {
        assert c in r1;
      } else {
        assert c in r2;
      }
    }
  }

  // ----- getValidMoves

  /** The forward step from column x onto row fy: there when that square is on
      the board and empty. */
  function Ahead(b: Board, x: int, fy: int): seq<Cell> {
    if 0 <= fy < 3 && 0 <= x < 3 && b[fy][x] == Empty then [Cell(x, fy)] else []
  }

  /** The capture onto (ax, fy): there when that square is on the board and
      holds the opponent. */
  function Attack(b: Board, ax: int, fy: int, opponent: Piece): seq<Cell> {
    if 0 <= fy < 3 && 0 <= ax < 3 && b[fy][ax] == opponent then [Cell(ax, fy)] else []
  }

  /** The destinations of the pawn at (x, y) for player: the forward step,
      then the captures to the left and to the right. */
  function ValidMoves(b: Board, x: int, y: int, player: Piece): (r: seq<Cell>)
    ensures |r| <= 3
    ensures forall c :: c in r ==> InBounds(c) && c.y == y + Forward(player) && x - 1 <= c.x <= x + 1
  {
    var fy := y + Forward(player);
    Ahead(b, x, fy) + Attack(b, x - 1, fy, Opponent(player)) + Attack(b, x + 1, fy, Opponent(player))
  }

  /** A square is a destination exactly when it is on the next row forward and
      either straight ahead and empty, or one column aside and held by the
      opponent; so a diagonal never lands on an empty square or on the
      mover's own piece. */
  lemma ValidMovesExactly(b: Board, x: int, y: int, player: Piece, c: Cell)
    ensures c in ValidMoves(b, x, y, player) <==>
      && InBounds(c) && c.y == y + Forward(player)
      && ((c.x == x && Get(b, c) == Empty)
          || ((c.x == x - 1 || c.x == x + 1) && Get(b, c) == Opponent(player)))
  {
  }

  /** A pawn on its far edge row (row 0 for White, row 2 for Black) has no
      move. */
  lemma EdgeRowStuck(b: Board, x: int, player: Piece)
    requires player != Empty
    ensures ValidMoves(b, x, if player == White then 0 else 2, player) == []
  {
  }

  // ----- isGameOver

  /** The valid moves of a list of pawns, concatenated. */
  function MovesFrom(b: Board, locations: seq<Cell>, player: Piece): seq<Cell> {
    if locations == [] then []
    else ValidMoves(b, locations[0].x, locations[0].y, player) + MovesFrom(b, locations[1..], player)
  }

  /** The player has a pawn with at least one valid move. */
  predicate CanMove(b: Board, player: Piece) {
    exists y, x | 0 <= y < 3 && 0 <= x < 3 :: b[y][x] == player && ValidMoves(b, x, y, player) != []
  }

  /** isGameOver's test: one of the two sides cannot move. */
  predicate GameOver(b: Board, player: Piece) {
    !CanMove(b, player) || !CanMove(b, Opponent(player))
  }

  /** The winner isGameOver records: the side that can still move, and the
      opponent of the player being tested when neither can. */
  function Winner(b: Board, player: Piece): (w: Piece)
    requires GameOver(b, player)
    ensures w == player || w == Opponent(player)
    ensures w == player ==> CanMove(b, player) && !CanMove(b, Opponent(player))
    ensures w == Opponent(player) ==> !CanMove(b, player)
  {
    if CanMove(b, player) then player else Opponent(player)
  }

  lemma {:induction false} MovesFromEmpty(b: Board, locations: seq<Cell>, player: Piece)
    ensures MovesFrom(b, locations, player) == [] <==>
            forall c :: c in locations ==> ValidMoves(b, c.x, c.y, player) == []
  {
    if locations != [] {
      MovesFromEmpty(b, locations[1..], player);
      assert forall c :: c in locations ==> c == locations[0] || c in locations[1..];
    }
  }

  /** isGameOver's computation of mobility (the valid moves of every located
      pawn, concatenated, are not empty) is mobility on the board. */
  lemma CanMoveIff(b: Board, player: Piece)
    ensures |MovesFrom(b, PieceLocations(b, player), player)| > 0 <==> CanMove(b, player)
  {
    var locations := PieceLocations(b, player);
    MovesFromEmpty(b, locations, player);
    if MovesFrom(b, locations, player) != [] {
      var c :| c in locations && ValidMoves(b, c.x, c.y, player) != [];
      ListedCanMove(b, player, locations, c);
    } else {
      ListedStuck(b, player, locations);
    }
  }

  /** Cutting element i out of a list keeps every other element and loses
      only that one. */
  lemma Spliced(s: seq<Cell>, i: nat)
    requires i < |s|
    ensures forall c :: c in s[..i] + s[i + 1..] ==> c in s
    ensures forall c :: c in s && c !in s[..i] + s[i + 1..] ==> c == s[i]
  {
    forall c | c in s && c != s[i]
      ensures c in s[..i] + s[i + 1..]
    {
      var k :| 0 <= k < |s| && s[k] == c;
      if k < i {
        assert c == s[..i][k];
      } else {
        assert c == s[i + 1..][k - i - 1];
      }
    }
  }

  /** A listed pawn with a valid move makes its side mobile. */
  lemma ListedCanMove(b: Board, player: Piece, all: seq<Cell>, c: Cell)
    requires Lists(b, player, all) && c in all
    requires ValidMoves(b, c.x, c.y, player) != []
    ensures CanMove(b, player)
  {
    assert b[c.y][c.x] == player;
  }

  /** When no listed pawn has a valid move, the side is stuck. */
  lemma ListedStuck(b: Board, player: Piece, all: seq<Cell>)
    requires Lists(b, player, all)
    requires forall c :: c in all ==> ValidMoves(b, c.x, c.y, player) == []
    ensures !CanMove(b, player)
  {
    forall y, x | 0 <= y < 3 && 0 <= x < 3 && b[y][x] == player
      ensures ValidMoves(b, x, y, player) == []
    {
      assert Get(b, Cell(x, y)) == player;
    }
  }

  // ----- scenarios from the starting position

  /** From the starting layout every pawn has exactly its forward step and no
      capture. */
  lemma InitialMoves(x: int)
    requires 0 <= x < 3
    ensures ValidMoves(Initial, x, 2, White) == [Cell(x, 1)]
    ensures ValidMoves(Initial, x, 0, Black) == [Cell(x, 1)]
  {
  }

  /** The game is not over at the start, whichever side is tested. */
  lemma InitialNotOver()
    ensures !GameOver(Initial, White) && !GameOver(Initial, Black)
  {
    InitialMoves(0);
    assert Initial[2][0] == White && Initial[0][0] == Black;
  }

  /** White's opening push of the middle pawn leaves both sides mobile. */
  lemma OpeningPush()
    ensures Moved(Initial, Cell(1, 2), Cell(1, 1))
            == [[Black, Black, Black], [Empty, White, Empty], [White, Empty, White]]
    ensures !GameOver(Moved(Initial, Cell(1, 2), Cell(1, 1)), Black)
  {
    var b := Moved(Initial, Cell(1, 2), Cell(1, 1));
    var pushed: Board := [[Black, Black, Black], [Empty, White, Empty], [White, Empty, White]];
    forall c | InBounds(c)
      ensures Get(b, c) == Get(pushed, c)
    {
      if c != Cell(1, 2) && c != Cell(1, 1) {
        assert Get(b, c) == Get(Initial, c);
      }
    }
    BoardEq(b, pushed);
    assert ValidMoves(b, 0, 0, Black) != [] && b[0][0] == Black;
    assert ValidMoves(b, 1, 1, White) != [] && b[1][1] == White;
  }

  /** A blocked file with nothing to capture: neither side can move, and the
      win is credited to the opponent of the player being tested. */
  lemma DeadlockCreditsOpponent(b: Board)
    requires b == [[Black, Empty, Empty], [White, Empty, Empty], [Empty, Empty, Empty]]
    ensures !CanMove(b, White) && !CanMove(b, Black)
    ensures GameOver(b, White) && Winner(b, White) == Black
  {
    forall y, x | 0 <= y < 3 && 0 <= x < 3 && b[y][x] != Empty
      ensures ValidMoves(b, x, y, b[y][x]) == []
    {
      assert (y == 0 || y == 1) && x == 0;
    }
  }

  // ----- the playing state

  datatype Move = Move(src: Cell, dst: Cell)

  /** What the click logic and the computer opponent read and change. */
  datatype Play = Play(board: Board, currPlayer: Piece, selected: Option<Cell>)

  /** The selected tile, when there is one, is on the board. */
  predicate WellSelected(s: Play) {
    s.selected.Some? ==> InBounds(s.selected.value)
  }

  /** A pointer press on board tile `tile` while playing: with no selection,
      select one of the current player's pawns that can move; with a
      selection, move it to a valid destination (switching player and clearing
      the selection), or reselect another own pawn, or do nothing. */
  function Click(s: Play, tile: Cell): (r: Play)
    requires InBounds(tile) && WellSelected(s)
    ensures WellSelected(r)
    ensures Pieces(r.board) <= Pieces(s.board)
    ensures s.selected.None? ==> r.board == s.board && r.currPlayer == s.currPlayer
    ensures s.selected.None? ==>
      (r.selected != s.selected <==>
         Get(s.board, tile) == s.currPlayer && ValidMoves(s.board, tile.x, tile.y, s.currPlayer) != [])
    ensures s.selected.None? && r.selected.Some? ==> r.selected.value == tile
    ensures s.selected.Some? && tile in ValidMoves(s.board, s.selected.value.x, s.selected.value.y, s.currPlayer) ==>
      r == Play(Moved(s.board, s.selected.value, tile), Opponent(s.currPlayer), None)
    ensures s.selected.Some? && tile !in ValidMoves(s.board, s.selected.value.x, s.selected.value.y, s.currPlayer) ==>
      r == (if Get(s.board, tile) == s.currPlayer then s.(selected := Some(tile)) else s)
  {
    match s.selected
    case Some(sel) =>
      if tile in ValidMoves(s.board, sel.x, sel.y, s.currPlayer) then
        MovedPieces(s.board, sel, tile);
        Play(Moved(s.board, sel, tile), Opponent(s.currPlayer), None)
      else if Get(s.board, tile) == s.currPlayer then s.(selected := Some(tile))
      else s
    case None =>
      if Get(s.board, tile) == s.currPlayer && |ValidMoves(s.board, tile.x, tile.y, s.currPlayer)| > 0 then
        s.(selected := Some(tile))
      else s
  }

  /** A press, if there is one, on tile: a click when the tile is on the
      board, nothing otherwise. */
  function Press(s: Play, pressed: bool, tile: Cell): (r: Play)
    requires WellSelected(s)
    ensures WellSelected(r)
    ensures !pressed || !InBounds(tile) ==> r == s
  {
    if pressed && InBounds(tile) then Click(s, tile) else s
  }

  /** A move of the computer, which plays Black: when Black can move, one
      Black pawn moves to one of its valid destinations and White is to play;
      when it cannot, nothing changes. */
  ghost predicate ComputerMoved(before: Play, after: Play) {
    if CanMove(before.board, Black) then
      exists src, dst ::
        && InBounds(src) && Get(before.board, src) == Black
        && dst in ValidMoves(before.board, src.x, src.y, Black) && InBounds(dst)
        && after == before.(board := Moved(before.board, src, dst), currPlayer := White)
    else
      after == before
  }

  /** What handlePlaying does once the game is not over: the press, if
      any, then, when the computer is to play, a computer move from the board
      the press left. */
  ghost predicate Played(before: Play, after: Play, pressed: bool, tile: Cell, computerToMove: bool)
    requires WellSelected(before)
  {
    var mid := Press(before, pressed, tile);
    if computerToMove then ComputerMoved(mid, after) else after == mid
  }

  /** The section of the menu under the pointer: its row, or -1 when the
      pointer is off the canvas. */
  function PointerSection(hasPointer: bool, pointerRow: int): int {
    if hasPointer then pointerRow else -1
  }

  /** A press on the one-player or two-player section starts a game. */
  predicate MenuStarts(isPointerDown: bool, section: int) {
    isPointerDown && (section == OnePlayerSection || section == TwoPlayerSection)
  }

  /** The module-level state of the isometric front-end. The board array is
      mutated in place; the other globals are fields. The pointer fields are
      set by the event handlers, which are not part of this model. */
  class Game {
    const board: array2<Piece>
    var winner: Piece
    var numPlayers: int
    var currPlayer: Piece
    var selectedTile: Option<Cell>
    var gameState: string
    var isPointerDown: bool
    var hasPointer: bool

    predicate Sized() {
      board.Length0 == 3 && board.Length1 == 3
    }

    ghost predicate Valid()
      reads this
    {
      Sized() && (selectedTile.Some? ==> InBounds(selectedTile.value))
    }

    /** The board as a value. */
    function Cells(): Board
      reads board
      requires Sized()
    {
      seq(3, y reads board requires 0 <= y < 3 =>
        seq(3, x reads board requires 0 <= x < 3 => board[y, x]))
    }

    function State(): Play
      reads this, board
      requires Sized()
    {
      Play(Cells(), currPlayer, selectedTile)
    }

    constructor ()
      ensures Valid() && Cells() == Initial
      ensures winner == Empty && numPlayers == 1 && currPlayer == White && selectedTile == None
      ensures gameState == StateMenu && !isPointerDown && !hasPointer
    {
      board := new Piece[3, 3]((y: nat, x: nat) => if y < 3 && x < 3 then Initial[y][x] else Empty);
      winner := Empty;
      numPlayers := 1;
      currPlayer := White;
      selectedTile := None;
      gameState := StateMenu;
      isPointerDown := false;
      hasPointer := false;
      new;
      BoardEq(Cells(), Initial);
    }

    /** getValidMoves, reading the board array; the captures are looked at
        for the column offsets -1 and +1 in turn. */
    method GetValidMoves(x: int, y: int, player: Piece) returns (validMoves: seq<Cell>)
      requires Sized()
      ensures validMoves == ValidMoves(Cells(), x, y, player)
    {
      validMoves := [];
      var yOffset := if player == White then -1 else 1;
      var cellForwardY := y + yOffset;
      var isCellForwardInBounds := 0 <= cellForwardY < 3;
      var isCellForwardEmpty := isCellForwardInBounds && 0 <= x < 3 && board[cellForwardY, x] == Empty;
      if isCellForwardEmpty {
        validMoves := validMoves + [Cell(x, cellForwardY)];
      }
      var opponent := Opponent(player);
      var offsets := [-1, 1];
      var i := 0;
      while i < |offsets|
        invariant 0 <= i <= |offsets|
        invariant validMoves == Ahead(Cells(), x, cellForwardY)
                                + (if i >= 1 then Attack(Cells(), x - 1, cellForwardY, opponent) else [])
                                + (if i >= 2 then Attack(Cells(), x + 1, cellForwardY, opponent) else [])
      {
        var cellAheadX := x + offsets[i];
        var isCellAheadInBounds := 0 <= cellAheadX < 3;
        var canAttack := isCellForwardInBounds && isCellAheadInBounds && board[cellForwardY, cellAheadX] == opponent;
        if canAttack {
          validMoves := validMoves + [Cell(cellAheadX, cellForwardY)];
        }
        i := i + 1;
      }
    }

    /** movePiece: the destination takes the source's piece and the source is
        emptied, in place. */
    method MovePiece(src: Cell, dst: Cell)
      requires Sized() && InBounds(src) && InBounds(dst)
      modifies board
      ensures Cells() == Moved(old(Cells()), src, dst)
    {
      ghost var before := Cells();
      board[dst.y, dst.x] := board[src.y, src.x];
      board[src.y, src.x] := Empty;
      BoardEq(Cells(), Moved(before, src, dst));
    }

    /** isGameOver: true when either side has no valid move, recording the
        winner when it is. */
    method IsGameOver(player: Piece) returns (over: bool)
      requires Sized()
      modifies this`winner
      ensures Cells() == old(Cells())
      ensures over == GameOver(Cells(), player)
      ensures winner == if over then Winner(Cells(), player) else old(winner)
    {
      var b := Cells();
      var playerPieceLocations := PieceLocations(b, player);
      var validPlayerMoves := MovesFrom(b, playerPieceLocations, player);
      var playerCanMove := |validPlayerMoves| > 0;
      var opponent := Opponent(player);
      var opponentPieceLocations := PieceLocations(b, opponent);
      var validOpponentMoves := MovesFrom(b, opponentPieceLocations, opponent);
      var opponentCanMove := |validOpponentMoves| > 0;
      CanMoveIff(b, player);
      assert playerCanMove == CanMove(b, player);
      CanMoveIff(b, opponent);
      assert opponentCanMove == CanMove(b, opponent);
      over := !playerCanMove || !opponentCanMove;
      if over {
        if playerCanMove && !opponentCanMove {
          winner := player;
        } else if !playerCanMove && opponentCanMove {
          winner := opponent;
        } else {
          // both sides stuck: credited to the side that just moved
          winner := opponent;
        }
      }
    }

    /** The computer's choice: draw one of Black's pawns at random, removing
        it from the list, until one with a valid move turns up, then draw one
        of its valid moves. */
    method ChooseComputerMove(pieceDraw: nat -> nat, moveDraw: nat -> nat) returns (playerMove: Option<Move>)
      requires Sized() && IsDraw(pieceDraw) && IsDraw(moveDraw)
      ensures playerMove.None? <==> !CanMove(Cells(), Black)
      ensures playerMove.Some? ==>
        && InBounds(playerMove.value.src) && Get(Cells(), playerMove.value.src) == Black
        && playerMove.value.dst in ValidMoves(Cells(), playerMove.value.src.x, playerMove.value.src.y, Black)
    {
      ghost var b := Cells();
      var pieceLocations := PieceLocations(Cells(), Black);
      ghost var all := pieceLocations;
      playerMove := None;
      while |pieceLocations| > 0
        invariant forall c :: c in pieceLocations ==> c in all
        invariant forall c :: c in all && c !in pieceLocations ==> ValidMoves(b, c.x, c.y, Black) == []
        decreases |pieceLocations|
      {
        var randomIndex := pieceDraw(|pieceLocations|);
        var piece := pieceLocations[randomIndex];
        ghost var before := pieceLocations;
        pieceLocations := pieceLocations[..randomIndex] + pieceLocations[randomIndex + 1..];
        Spliced(before, randomIndex);
        var validMoves := GetValidMoves(piece.x, piece.y, Black);
        var hasValidMoves := |validMoves| > 0;
        if hasValidMoves {
          var validMoveRandomIndex := if |validMoves| == 1 then 0 else moveDraw(|validMoves|);
          var validMove := validMoves[validMoveRandomIndex];
          playerMove := Some(Move(piece, validMove));
          ListedCanMove(b, Black, all, piece);
          return;
        }
      }
      ListedStuck(b, Black, all);
    }

    /** The body of the computer's delayed move, taken as one step: choose,
        hand the turn to White, and move. */
    method ComputerTurn(pieceDraw: nat -> nat, moveDraw: nat -> nat) returns (playerMove: Option<Move>)
      requires Valid() && IsDraw(pieceDraw) && IsDraw(moveDraw)
      modifies this`currPlayer, board
      ensures Valid()
      ensures ComputerMoved(old(State()), State())
      ensures playerMove.None? ==> State() == old(State())
      ensures playerMove.Some? ==>
        && InBounds(playerMove.value.src) && Get(old(Cells()), playerMove.value.src) == Black
        && playerMove.value.dst in ValidMoves(old(Cells()), playerMove.value.src.x, playerMove.value.src.y, Black)
        && Cells() == Moved(old(Cells()), playerMove.value.src, playerMove.value.dst)
        && currPlayer == White
    {
      playerMove := ChooseComputerMove(pieceDraw, moveDraw);
      if playerMove.Some? {
        currPlayer := White;
        MovePiece(playerMove.value.src, playerMove.value.dst);
      }
    }

    /** handleMenu: a press on the one- or two-player section starts the game
        with that many players. */
    method HandleMenu(pointerRow: int)
      modifies this`isPointerDown, this`numPlayers, this`gameState
      ensures var section := PointerSection(old(hasPointer), pointerRow);
        if MenuStarts(old(isPointerDown), section) then
          && gameState == StatePlaying && !isPointerDown
          && numPlayers == section - OnePlayerSection + 1 && 1 <= numPlayers <= 2
        else
          gameState == old(gameState) && isPointerDown == old(isPointerDown) && numPlayers == old(numPlayers)
    {
      var pointerSection := PointerSection(hasPointer, pointerRow);
      if isPointerDown && (pointerSection == OnePlayerSection || pointerSection == TwoPlayerSection) {
        isPointerDown := false;
        numPlayers := pointerSection - OnePlayerSection + 1;
        gameState := StatePlaying;
      }
    }

    /** handlePlaying, for the board tile (tileX, tileY) under the pointer.
        The game-over test comes first. Then the press, if any, is handled as
        a click for the current player; finally, in one-player mode on Black's
        turn, the computer's move is committed (the source commits it through
        a timer, after this frame). */
    method HandlePlaying(tileX: int, tileY: int, pieceDraw: nat -> nat, moveDraw: nat -> nat)
      requires Valid() && IsDraw(pieceDraw) && IsDraw(moveDraw)
      modifies this`winner, this`gameState, this`currPlayer, this`selectedTile, this`isPointerDown, board
      ensures Valid()
      ensures GameOver(old(Cells()), old(currPlayer)) ==>
        && gameState == StateGameOver && winner == Winner(old(Cells()), old(currPlayer))
        && State() == old(State()) && isPointerDown == old(isPointerDown)
      ensures !GameOver(old(Cells()), old(currPlayer)) ==>
        && gameState == old(gameState) && winner == old(winner)
        && isPointerDown == (old(isPointerDown) && !(old(hasPointer) && InBounds(Cell(tileX, tileY))))
        && Played(old(State()), State(), old(hasPointer) && old(isPointerDown), Cell(tileX, tileY),
                  old(numPlayers) == 1 && old(currPlayer) == Black)
    {
      ghost var before := State();
      var over := IsGameOver(currPlayer);
      if over {
        gameState := StateGameOver;
        return;
      }
      PlayTurn(tileX, tileY, pieceDraw, moveDraw, before, hasPointer && isPointerDown, numPlayers == 1 && currPlayer == Black);
    }

    /** The rest of handlePlaying once the game is not over: the press, then
        the computer's move when it is to play. The ghost parameters name the
        state on entry, whether the pointer is pressed, and whether the
        computer is to move. */
    method PlayTurn(tileX: int, tileY: int, pieceDraw: nat -> nat, moveDraw: nat -> nat,
                    ghost before: Play, ghost pressed: bool, ghost computerToMove: bool)
      requires Valid() && IsDraw(pieceDraw) && IsDraw(moveDraw)
      requires before == State() && pressed == (hasPointer && isPointerDown)
      requires computerToMove == (numPlayers == 1 && currPlayer == Black)
      modifies this`currPlayer, this`selectedTile, this`isPointerDown, board
      ensures Valid()
      ensures isPointerDown == (old(isPointerDown) && !(old(hasPointer) && InBounds(Cell(tileX, tileY))))
      ensures Played(before, State(), pressed, Cell(tileX, tileY), computerToMove)
    {
      var computerMoves := numPlayers == 1 && currPlayer == Black;
      HandlePress(tileX, tileY);
      if computerMoves {
        var _ := ComputerTurn(pieceDraw, moveDraw);
      }
    }

    /** The pointer part of handlePlaying: nothing unless the pointer is on
        the canvas, pressed, and over a board tile. */
    method HandlePress(tileX: int, tileY: int)
      requires Valid()
      modifies this`currPlayer, this`selectedTile, this`isPointerDown, board
      ensures Valid()
      ensures State() == Press(old(State()), old(hasPointer) && old(isPointerDown), Cell(tileX, tileY))
      ensures isPointerDown == (old(isPointerDown) && !(old(hasPointer) && InBounds(Cell(tileX, tileY))))
    {
      if hasPointer && isPointerDown {
        var isPointerTileInBounds := 0 <= tileX < 3 && 0 <= tileY < 3;
        if isPointerTileInBounds {
          HandleClick(Cell(tileX, tileY));
        }
      }
    }

    /** The select / move part of handlePlaying, for a press on an on-board
        tile. */
    method HandleClick(tile: Cell)
      requires Valid() && InBounds(tile)
      modifies this`currPlayer, this`selectedTile, this`isPointerDown, board
      ensures Valid()
      ensures State() == Click(old(State()), tile)
      ensures !isPointerDown
    {
      if selectedTile.Some? {
        var sel := selectedTile.value;
        var validMoves := GetValidMoves(sel.x, sel.y, currPlayer);
        var isValidMove := tile in validMoves;
        var isPointerOnAnotherPiece := board[tile.y, tile.x] == currPlayer;
        if isValidMove {
          MovePiece(sel, tile);
          currPlayer := Opponent(currPlayer);
          selectedTile := None;
        } else if isPointerOnAnotherPiece {
          selectedTile := Some(tile);
        }
      } else {
        var isPointerOverPlayersPiece := board[tile.y, tile.x] == currPlayer;
        var validMoves := GetValidMoves(tile.x, tile.y, currPlayer);
        var canMove := |validMoves| > 0;
        if isPointerOverPlayersPiece && canMove {
          selectedTile := Some(tile);
        }
      }
      isPointerDown := false;
    }

    /** The update dispatch on gameState. Game over has no handler that does
        anything; any other value is an error (ok is false). */
    method Update(pointerRow: int, tileX: int, tileY: int, pieceDraw: nat -> nat, moveDraw: nat -> nat)
      returns (ok: bool)
      requires Valid() && IsDraw(pieceDraw) && IsDraw(moveDraw)
      modifies this`winner, this`gameState, this`numPlayers, this`currPlayer, this`selectedTile, this`isPointerDown, board
      ensures Valid() && hasPointer == old(hasPointer)
      ensures ok <==> old(gameState) in {StateMenu, StatePlaying, StateGameOver}
      ensures old(gameState) == StateMenu ==>
        && State() == old(State()) && winner == old(winner)
        && var section := PointerSection(old(hasPointer), pointerRow);
           if MenuStarts(old(isPointerDown), section) then
             && gameState == StatePlaying && !isPointerDown
             && numPlayers == section - OnePlayerSection + 1 && 1 <= numPlayers <= 2
           else
             gameState == old(gameState) && isPointerDown == old(isPointerDown) && numPlayers == old(numPlayers)
      ensures old(gameState) == StatePlaying && GameOver(old(Cells()), old(currPlayer)) ==>
        && gameState == StateGameOver && winner == Winner(old(Cells()), old(currPlayer))
        && State() == old(State()) && isPointerDown == old(isPointerDown) && numPlayers == old(numPlayers)
      ensures old(gameState) == StatePlaying && !GameOver(old(Cells()), old(currPlayer)) ==>
        && gameState == old(gameState) && winner == old(winner) && numPlayers == old(numPlayers)
        && isPointerDown == (old(isPointerDown) && !(old(hasPointer) && InBounds(Cell(tileX, tileY))))
        && Played(old(State()), State(), old(hasPointer) && old(isPointerDown), Cell(tileX, tileY),
                  old(numPlayers) == 1 && old(currPlayer) == Black)
      ensures old(gameState) != StateMenu && old(gameState) != StatePlaying ==>
        && State() == old(State()) && gameState == old(gameState) && winner == old(winner)
        && numPlayers == old(numPlayers) && isPointerDown == old(isPointerDown)
    {
      ok := true;
      if gameState == StateMenu {
        HandleMenu(pointerRow);
      } else if gameState == StatePlaying {
        HandlePlaying(tileX, tileY, pieceDraw, moveDraw);
      } else if gameState == StateGameOver {
        // handleGameOver does nothing: there is no way back to the menu
      } else {
        ok := false;
      }
    }
  }
}
