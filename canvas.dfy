/** The rules of the plain canvas front-end: White moves by two clicks, the
    first naming the pawn and the second the destination; Black's turn is
    meant to move a random pawn but never gets that far. The source's
    slips are kept: the source square of White's move is derived from the
    destination by an assignment where a comparison was meant, and Black's
    turn reads a variable that is never declared. */
module Canvas {
  import opened Grid

  /** The exceptions the update can raise, with the source line at which it
      raises them. */
  datatype Error = TypeError(line: nat) | ReferenceError(name: string, line: nat)

  datatype Status = Ok | Thrown(error: Error)

  /** The application state object. A click with undefined coordinates is None. */
  datatype State = State(board: Board, playerTurn: Piece, click: Option<Cell>, prevClick: Option<Cell>)

  /** White to play, the starting layout, no clicks yet. */
  const InitialState: State := State(Initial, White, None, None)

  predicate OnBoard(o: Option<Cell>) {
    o.Some? ==> InBounds(o.value)
  }

  /** Every click the page records is on one of the nine tiles. */
  predicate ClicksOnBoard(s: State) {
    OnBoard(s.click) && OnBoard(s.prevClick)
  }

  function Abs(n: int): nat {
    if n < 0 then -n else n
  }

  /** The acceptance test of White's second click on c, after a first click in
      column px. The row test is the value of the assignment
      `prevClick.y = click.y + 1`, which is truthy whenever that value is not
      zero. A forward step needs the same column and an empty destination; an
      attack needs a neighbouring column and any occupant at all. */
  function Accepted(b: Board, px: int, c: Cell): (ok: bool)
    requires InBounds(c)
    ensures ok <==> (px == c.x && Get(b, c) == Empty) || (Abs(px - c.x) == 1 && Get(b, c) != Empty)
  {
    var hasSameX := px == c.x;
    var hasYAbove := c.y + 1 != 0;
    var destinationIsEmpty := Get(b, c) == Empty;
    var isMoveForward := hasYAbove && destinationIsEmpty && hasSameX;
    var isMoveAttack := hasYAbove && !destinationIsEmpty && Abs(px - c.x) == 1;
    isMoveForward || isMoveAttack
  }

  /** White's branch of update. With no click nothing happens. A first click
      is remembered and cleared. A second click overwrites the remembered row
      with the row below the destination, so the move starts on that row, in
      the first click's column;
      if accepted, the move is made and the turn passes to Black. Both clicks
      are then cleared, except when an accepted click on the bottom row makes
      the move read the row below the board, which raises a TypeError. */
  function WhiteUpdate(s: State): (r: (Status, State))
    requires ClicksOnBoard(s)
    ensures ClicksOnBoard(r.1) || r.0 == Thrown(TypeError(61))
  {
    match (s.click, s.prevClick)
    case (None, _) => (Ok, s)
    case (Some(c), None) => (Ok, s.(prevClick := Some(c), click := None))
    case (Some(c), Some(p)) =>
      var src := Cell(p.x, c.y + 1);
      if !Accepted(s.board, p.x, c) then (Ok, s.(prevClick := None, click := None))
      else if !InBounds(src) then (Thrown(TypeError(61)), s.(prevClick := Some(src)))
      else (Ok, State(Moved(s.board, src, c), Black, None, None))
  }

  /** Black's branch of update: it collects Black's pawns and picks one, and
      then always raises. With no Black pawn the pick is undefined and reading
      its row fails at line 111; otherwise line 114 reads the undeclared
      hasRoomToMove. */
  function BlackUpdate(b: Board): (e: Error)
    ensures e.TypeError? <==> Count(b, Black) == 0
  {
    if Count(b, Black) == 0 then TypeError(111) else ReferenceError("hasRoomToMove", 114)
  }

  /** update: White's branch when it is White's turn, Black's otherwise.
      Black's branch changes nothing before it raises. */
  function Step(s: State): (r: (Status, State))
    requires ClicksOnBoard(s)
  {
    if s.playerTurn == White then WhiteUpdate(s) else (Thrown(BlackUpdate(s.board)), s)
  }

  // ----- properties of update

  /** A first click only moves the click into prevClick: board and turn are
      untouched. */
  lemma FirstClickRemembered(s: State)
    requires ClicksOnBoard(s) && s.playerTurn == White && s.click.Some? && s.prevClick.None?
    ensures Step(s) == (Ok, State(s.board, White, None, s.click))
  {
  }

  /** A second click from White always leaves both clicks cleared, accepted or
      not, unless the move raised. */
  lemma SecondClickClears(s: State)
    requires ClicksOnBoard(s) && s.playerTurn == White && s.click.Some? && s.prevClick.Some?
    ensures Step(s).0 == Ok ==> Step(s).1.click == None && Step(s).1.prevClick == None
    ensures Step(s).0 != Ok ==> Step(s).1.board == s.board && Step(s).1.playerTurn == White
  {
  }

  /** The three outcomes of White's second click on c after a first click at
      p. A rejected click clears both clicks and leaves board and turn alone.
      An accepted click above the bottom row moves the occupant of the square
      on the row below c, in p's column, onto c and passes the turn to Black.
      An accepted click on the bottom row makes movePiece read the row below
      the board: line 61 raises a TypeError, with the overwritten row left in
      prevClick. */
  lemma SecondClickOutcome(s: State)
    requires ClicksOnBoard(s) && s.playerTurn == White && s.click.Some? && s.prevClick.Some?
    ensures var c, p := s.click.value, s.prevClick.value;
      && (!Accepted(s.board, p.x, c) ==> Step(s) == (Ok, s.(click := None, prevClick := None)))
      && (Accepted(s.board, p.x, c) && c.y < 2 ==>
            Step(s) == (Ok, State(Moved(s.board, Cell(p.x, c.y + 1), c), Black, None, None)))
      && (Accepted(s.board, p.x, c) && c.y == 2 ==>
            Step(s) == (Thrown(TypeError(61)), s.(prevClick := Some(Cell(p.x, 3)))))
  {
  }

  /** The row of the first click plays no part: the second click's outcome
      depends only on the first click's column. */
  lemma FirstRowIgnored(s: State, x: int, y1: int, y2: int)
    requires s.playerTurn == White && s.click.Some? && OnBoard(s.click)
    requires InBounds(Cell(x, y1)) && InBounds(Cell(x, y2))
    ensures Step(s.(prevClick := Some(Cell(x, y1)))) == Step(s.(prevClick := Some(Cell(x, y2))))
  {
  }

  /** Any move update makes goes onto the destination from the row below it,
      in the first click's column; it ends White's turn and removes at most
      one pawn. */
  lemma StepMoves(s: State)
    requires ClicksOnBoard(s)
    ensures Pieces(Step(s).1.board) <= Pieces(s.board)
    ensures Step(s).1.board != s.board ==>
      && s.playerTurn == White && s.click.Some? && s.prevClick.Some?
      && var c := s.click.value; var src := Cell(s.prevClick.value.x, c.y + 1);
         && InBounds(src) && Step(s).1.board == Moved(s.board, src, c)
         && Step(s).1.playerTurn == Black && Step(s).0 == Ok
  {
    if s.playerTurn == White && s.click.Some? && s.prevClick.Some? {
      var c := s.click.value;
      var src := Cell(s.prevClick.value.x, c.y + 1);
      if Accepted(s.board, s.prevClick.value.x, c) && InBounds(src) {
        MovedPieces(s.board, src, c);
      }
    }
  }

  /** Once Black is to play, every update raises and nothing changes again. */
  lemma BlackNeverMoves(s: State)
    requires ClicksOnBoard(s) && s.playerTurn != White
    ensures Step(s).0.Thrown? && Step(s).1 == s
  {
  }

  /** From the start, a first click on White's pawn at (0, 2) and a second on
      Black's pawn at (1, 0) is accepted as an attack from the empty (0, 1):
      the empty square is moved onto (1, 0), erasing a Black pawn, and the turn
      passes to Black. */
  lemma EmptyCapture()
    ensures var s := InitialState.(click := Some(Cell(1, 0)), prevClick := Some(Cell(0, 2)));
      Step(s) == (Ok, State([[Black, Empty, Black], [Empty, Empty, Empty], [White, White, White]], Black, None, None))
  {
    var after := Moved(Initial, Cell(0, 1), Cell(1, 0));
    var expected: Board := [[Black, Empty, Black], [Empty, Empty, Empty], [White, White, White]];
    forall c | InBounds(c)
      ensures Get(after, c) == Get(expected, c)
    {
      if c != Cell(0, 1) && c != Cell(1, 0) {
        assert Get(after, c) == Get(Initial, c);
      }
    }
    BoardEq(after, expected);
  }

  /** The page's state object, with its board array written in place. */
  class Game {
    const board: array2<Piece>
    var playerTurn: Piece
    var click: Option<Cell>
    var prevClick: Option<Cell>

    predicate Sized() {
      board.Length0 == 3 && board.Length1 == 3
    }

    ghost predicate Valid()
      reads this
    {
      Sized() && OnBoard(click) && OnBoard(prevClick)
    }

    /** The board as a value. */
    function Cells(): Board
      reads board
      requires Sized()
    {
      seq(3, y reads board requires 0 <= y < 3 =>
        seq(3, x reads board requires 0 <= x < 3 => board[y, x]))
    }

    /** The state object as a value. */
    function Snapshot(): State
      reads this, board
      requires Sized()
    {
      State(Cells(), playerTurn, click, prevClick)
    }

    constructor ()
      ensures Valid() && Snapshot() == InitialState
    {
      board := new Piece[3, 3]((y: nat, x: nat) => if y < 3 && x < 3 then Initial[y][x] else Empty);
      playerTurn := White;
      click := None;
      prevClick := None;
      new;
      BoardEq(Cells(), Initial);
    }

    /** movePiece: the end square takes the start square's occupant,
        clobbering what was there, and the start square is emptied. */
    method MovePiece(start: Cell, end: Cell)
      requires Sized() && InBounds(start) && InBounds(end)
      modifies board
      ensures Cells() == Moved(old(Cells()), start, end)
    {
      ghost var before := Cells();
      board[end.y, end.x] := board[start.y, start.x];
      board[start.y, start.x] := Empty;
      BoardEq(Cells(), Moved(before, start, end));
    }

    /** onClick, with the pointer already converted to the tile under it. */
    method OnClick(tile: Cell)
      requires Valid() && InBounds(tile)
      modifies this`click
      ensures Valid() && click == Some(tile)
    {
      click := Some(tile);
    }

    /** The positions of Black's pawns, collected by scanning the rows top to
        bottom and each row left to right. */
    method BlackPositions() returns (positions: seq<Cell>)
      requires Sized()
      ensures Lists(Cells(), Black, positions)
    {
      positions := [];
      var y := 0;
      while y < 3
        invariant 0 <= y <= 3
        invariant RowMajor(positions)
        invariant forall c :: c in positions ==> InBounds(c) && Get(Cells(), c) == Black && Index(c) < 3 * y
        invariant forall c :: InBounds(c) && Get(Cells(), c) == Black && Index(c) < 3 * y ==> c in positions
      {
        var x := 0;
        while x < 3
          invariant 0 <= x <= 3
          invariant RowMajor(positions)
          invariant forall c :: c in positions ==> InBounds(c) && Get(Cells(), c) == Black && Index(c) < 3 * y + x
          invariant forall c :: InBounds(c) && Get(Cells(), c) == Black && Index(c) < 3 * y + x ==> c in positions
        {
          if board[y, x] == Black {
            RowMajorAppend(positions, [Cell(x, y)]);
            positions := positions + [Cell(x, y)];
          }
          x := x + 1;
        }
        y := y + 1;
      }
    }

    /** update. `draw` stands for the random pick of a Black pawn, which
        happens before Black's branch raises. */
    method Update(draw: nat -> nat) returns (status: Status)
      requires Valid() && IsDraw(draw)
      modifies board, this`playerTurn, this`click, this`prevClick
      ensures (status, Snapshot()) == Step(old(Snapshot()))
      ensures status == Ok ==> Valid()
    {
      if playerTurn == White {
        status := Ok;
        var hasClick := click.Some?;
        var hasPrevClick := prevClick.Some?;
        if hasClick {
          if hasPrevClick {
            var c := click.value;
            var hasSameX := prevClick.value.x == c.x;
            prevClick := Some(Cell(prevClick.value.x, c.y + 1));
            var hasYAbove := c.y + 1 != 0;
            var destinationIsEmpty := board[c.y, c.x] == Empty;
            var isMoveForward := hasYAbove && destinationIsEmpty && hasSameX;
            var isMoveAttack := hasYAbove && !destinationIsEmpty && Abs(prevClick.value.x - c.x) == 1;
            var isValidMove := isMoveForward || isMoveAttack;
            if isValidMove {
              if prevClick.value.y >= 3 {
                // reading board[3] fails inside movePiece
                return Thrown(TypeError(61));
              }
              MovePiece(prevClick.value, c);
              playerTurn := Black;
            }
            prevClick := None;
          } else {
            prevClick := click;
          }
          click := None;
        }
      } else {
        var positions := BlackPositions();
        ListsEmpty(Cells(), Black, positions);
        if |positions| == 0 {
          // positions[0] is undefined, and its y is read
          return Thrown(TypeError(111));
        }
        var randomPiece := positions[draw(|positions|)];
        assert randomPiece in positions;
        var hasRoomToMoveAhead := randomPiece.y + 1 < 3;
        var hasEmptySpaceAhead := hasRoomToMoveAhead && board[randomPiece.y + 1, randomPiece.x] == Empty;
        // the next line reads hasRoomToMove, which is not declared
        status := Thrown(ReferenceError("hasRoomToMove", 114));
      }
    }
  }
}
