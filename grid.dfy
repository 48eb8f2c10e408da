/** The 3x3 Hexapawn board that all three front-ends share.
    Row 0 is at the top and is Black's home row; row 2 is at the bottom and is
    White's home row. A coordinate (x, y) names column x of row y. */
module Grid {

  datatype Option<T> = None | Some(value: T)

  /** The occupant of one square. The three front-ends spell these
      'Black'/'White'/'Empty', 'black'/'white'/null and 'black'/'white'/' '. */
  datatype Piece = Black | White | Empty

  /** A board coordinate. Any pair of integers, so that off-board lookups the
      source makes can be stated; InBounds says when it names a square. */
  datatype Cell = Cell(x: int, y: int)

  /** Three rows of three squares, indexed board[y][x] as in the source. */
  type Board = b: seq<seq<Piece>> | |b| == 3 && |b[0]| == 3 && |b[1]| == 3 && |b[2]| == 3
    witness [[Black, Black, Black], [Empty, Empty, Empty], [White, White, White]]

  /** The starting layout: Black on row 0, an empty row 1, White on row 2. */
  const Initial: Board := [[Black, Black, Black], [Empty, Empty, Empty], [White, White, White]]

  predicate InBounds(c: Cell) {
    0 <= c.x < 3 && 0 <= c.y < 3
  }

  function Get(b: Board, c: Cell): Piece
    requires InBounds(c)
  {
    b[c.y][c.x]
  }

  /** The board with square c set to v, every other square as before. */
  function Put(b: Board, c: Cell, v: Piece): (r: Board)
    requires InBounds(c)
    ensures Get(r, c) == v
    ensures forall d :: InBounds(d) && d != c ==> Get(r, d) == Get(b, d)
  {
    b[c.y := b[c.y][c.x := v]]
  }

  /** What a move does to the board: the destination takes the source's
      occupant, clobbering whatever stood there, and the source is emptied. */
  function Moved(b: Board, src: Cell, dst: Cell): (r: Board)
    requires InBounds(src) && InBounds(dst)
    ensures Get(r, src) == Empty
    ensures src != dst ==> Get(r, dst) == Get(b, src)
    ensures forall c :: InBounds(c) && c != src && c != dst ==> Get(r, c) == Get(b, c)
  {
    Put(Put(b, dst, Get(b, src)), src, Empty)
  }

  /** Two boards that agree on every square are the same board. */
  lemma BoardEq(a: Board, b: Board)
    requires forall c :: InBounds(c) ==> Get(a, c) == Get(b, c)
    ensures a == b
  {
    forall y, x | 0 <= y < 3 && 0 <= x < 3
      ensures a[y][x] == b[y][x]
    {
      assert Get(a, Cell(x, y)) == Get(b, Cell(x, y));
    }
    assert a[0] == b[0] && a[1] == b[1] && a[2] == b[2];
  }

  // ----- counting pieces

  function CountRow(row: seq<Piece>, p: Piece): nat {
    if row == [] then 0 else (if row[0] == p then 1 else 0) + CountRow(row[1..], p)
  }

  /** The number of squares of b holding p. */
  function Count(b: Board, p: Piece): nat {
    CountRow(b[0], p) + CountRow(b[1], p) + CountRow(b[2], p)
  }

  /** The number of pawns of either colour on the board. */
  function Pieces(b: Board): nat {
    Count(b, Black) + Count(b, White)
  }

  lemma {:induction false} CountRowUpdate(row: seq<Piece>, i: nat, v: Piece, p: Piece)
    requires i < |row|
    ensures CountRow(row[i := v], p)
            == CountRow(row, p) - (if row[i] == p then 1 else 0) + (if v == p then 1 else 0)
  {
    if i == 0 {
      assert row[i := v][1..] == row[1..];
    } else {
      assert row[i := v][1..] == row[1..][i - 1 := v];
      CountRowUpdate(row[1..], i - 1, v, p);
    }
  }

  lemma {:induction false} CountRowZero(row: seq<Piece>, p: Piece)
    ensures CountRow(row, p) == 0 <==> forall i :: 0 <= i < |row| ==> row[i] != p
  {
    if row != [] {
      CountRowZero(row[1..], p);
      assert forall i :: 1 <= i < |row| ==> row[i] == row[1..][i - 1];
    }
  }

  /** No square holds p exactly when p's count is zero. */
  lemma CountZero(b: Board, p: Piece)
    ensures Count(b, p) == 0 <==> forall c :: InBounds(c) ==> Get(b, c) != p
  {
    CountRowZero(b[0], p);
    CountRowZero(b[1], p);
    CountRowZero(b[2], p);
    if Count(b, p) != 0 {
      var y :| 0 <= y < 3 && CountRow(b[y], p) != 0;
      var x :| 0 <= x < 3 && b[y][x] == p;
      assert Get(b, Cell(x, y)) == p;
    }
  }

  /** Setting one square changes p's count by what left and what arrived. */
  lemma PutCount(b: Board, c: Cell, v: Piece, p: Piece)
    requires InBounds(c)
    ensures Count(Put(b, c, v), p)
            == Count(b, p) - (if Get(b, c) == p then 1 else 0) + (if v == p then 1 else 0)
  {
    CountRowUpdate(b[c.y], c.x, v, p);
  }

  /** A move removes exactly the piece it lands on: for each colour, the count
      drops by one when the destination held that colour and is otherwise
      unchanged. Nothing is ever created. */
  lemma MovedCount(b: Board, src: Cell, dst: Cell, p: Piece)
    requires InBounds(src) && InBounds(dst) && p != Empty
    ensures Count(Moved(b, src, dst), p) == Count(b, p) - (if Get(b, dst) == p then 1 else 0)
  {
    var b1 := Put(b, dst, Get(b, src));
    PutCount(b, dst, Get(b, src), p);
    PutCount(b1, src, Empty, p);
  }

  /** The total piece count drops by one exactly when the destination was
      occupied, and never grows. */
  lemma MovedPieces(b: Board, src: Cell, dst: Cell)
    requires InBounds(src) && InBounds(dst)
    ensures Pieces(Moved(b, src, dst)) == Pieces(b) - (if Get(b, dst) != Empty then 1 else 0)
    ensures Pieces(Moved(b, src, dst)) <= Pieces(b)
  {
    MovedCount(b, src, dst, Black);
    MovedCount(b, src, dst, White);
  }

  // ----- listing squares in row-major order

  /** The position of a square in a left-to-right, top-to-bottom scan. */
  function Index(c: Cell): int {
    3 * c.y + c.x
  }

  /** Strictly increasing row-major position; in particular no repeats. */
  ghost predicate RowMajor(s: seq<Cell>) {
    forall i, j :: 0 <= i < j < |s| ==> Index(s[i]) < Index(s[j])
  }

  /** s lists exactly the squares of b that hold p, each once, in row-major
      order. */
  ghost predicate Lists(b: Board, p: Piece, s: seq<Cell>) {
    && RowMajor(s)
    && (forall c :: c in s ==> InBounds(c) && Get(b, c) == p)
    && (forall c :: InBounds(c) && Get(b, c) == p ==> c in s)
  }

  /** Two row-major listings, the first wholly before the second, make one. */
  lemma RowMajorAppend(s: seq<Cell>, t: seq<Cell>)
    requires RowMajor(s) && RowMajor(t)
    requires forall a, b :: a in s && b in t ==> Index(a) < Index(b)
    ensures RowMajor(s + t)
  {
    forall i, j | 0 <= i < j < |s + t|
      ensures Index((s + t)[i]) < Index((s + t)[j])
    {
      if j < |s| {
        assert (s + t)[i] == s[i] && (s + t)[j] == s[j];
      } else if i >= |s| {
        assert (s + t)[i] == t[i - |s|] && (s + t)[j] == t[j - |s|];
      } else {
        assert (s + t)[i] in s && (s + t)[j] in t;
      }
    }
  }

  lemma {:induction false} RowMajorUnique(s: seq<Cell>, t: seq<Cell>)
    requires RowMajor(s) && RowMajor(t)
    requires forall c :: c in s <==> c in t
    ensures s == t
    decreases |s|
  {
    if s != [] { assert s[0] in s; }
    if t != [] { assert t[0] in t; }
    if s != [] && t != [] {
      assert s[0] in t;
      var k :| 0 <= k < |t| && t[k] == s[0];
      assert t[0] in s;
      var m :| 0 <= m < |s| && s[m] == t[0];
      forall c
        ensures c in s[1..] <==> c in t[1..]
      {
        if c in s[1..] {
          var i :| 1 <= i < |s| && s[i] == c;
          assert Index(s[0]) < Index(s[i]);
          assert c in t;
          var j :| 0 <= j < |t| && t[j] == c;
          assert j != 0;
          assert t[j] == t[1..][j - 1];
        }
        if c in t[1..] {
          var j :| 1 <= j < |t| && t[j] == c;
          assert Index(t[0]) < Index(t[j]);
          assert c in s;
          var i :| 0 <= i < |s| && s[i] == c;
          assert i != 0;
          assert s[i] == s[1..][i - 1];
        }
      }
      RowMajorUnique(s[1..], t[1..]);
    }
  }

  /** There is only one row-major listing of the squares holding p, so two
      front-ends that each produce such a listing produce the same one. */
  lemma ListsUnique(b: Board, p: Piece, s: seq<Cell>, t: seq<Cell>)
    requires Lists(b, p, s) && Lists(b, p, t)
    ensures s == t
  {
    RowMajorUnique(s, t);
  }

  /** A listing is empty exactly when no square holds the piece. */
  lemma ListsEmpty(b: Board, p: Piece, s: seq<Cell>)
    requires Lists(b, p, s)
    ensures s == [] <==> Count(b, p) == 0
  {
    CountZero(b, p);
    if s != [] {
      assert s[0] in s;
    }
  }

  // ----- random choices

  /** A stand-in for Math.floor(Math.random() * n): for each list length n,
      an index below n. */
  ghost predicate IsDraw(draw: nat -> nat) {
    forall n: nat :: 0 < n ==> draw(n) < n
  }
}
