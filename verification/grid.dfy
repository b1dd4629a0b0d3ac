/** The 8x8 board of one-letter piece codes held in the controller's state.
    An empty square holds the empty string; white pieces are upper-case
    letters and black pieces lower-case ones. */
module Grid {

  import opened Optional

  /** One cell of the board: "" when empty, otherwise a piece letter. */
  type Cell = string

  /** Rows of cells, row 0 being black's home rank and row 7 white's. */
  type Board = seq<seq<Cell>>

  const Size: int := 8

  datatype Square = Square(row: int, col: int)

  predicate WellFormed(b: Board)
  {
    |b| == Size && forall i :: 0 <= i < |b| ==> |b[i]| == Size
  }

  predicate OnBoard(sq: Square)
  {
    0 <= sq.row < Size && 0 <= sq.col < Size
  }

  function At(b: Board, sq: Square): Cell
    requires WellFormed(b) && OnBoard(sq)
  {
    b[sq.row][sq.col]
  }

  /** The optional-chaining lookup `board[r]?.[c]`: an index that falls off
      either array yields `undefined` rather than an exception. */
  function Lookup(b: Board, r: int, c: int): (v: Option<Cell>)
    requires WellFormed(b)
    ensures v.Some? <==> OnBoard(Square(r, c))
    ensures v.Some? ==> v.value == At(b, Square(r, c))
  {
    if 0 <= r < |b| && 0 <= c < |b[r]| then Some(b[r][c]) else None
  }

  /** The board with one square overwritten. */
  function Put(b: Board, sq: Square, v: Cell): (r: Board)
    requires WellFormed(b) && OnBoard(sq)
    ensures WellFormed(r)
    ensures At(r, sq) == v
    ensures forall i, j :: 0 <= i < Size && 0 <= j < Size && Square(i, j) != sq ==> r[i][j] == b[i][j]
  {
    b[sq.row := b[sq.row][sq.col := v]]
  }

  /** The board a committed move produces: every square is copied, except
      that the target receives the origin's piece and the origin is emptied.
      The target test comes first, as in `App.tsx` (line 111). */
  function Move(b: Board, from: Square, to: Square): (r: Board)
    requires WellFormed(b) && OnBoard(from) && OnBoard(to)
    ensures WellFormed(r)
    ensures At(r, to) == At(b, from)
    ensures from != to ==> At(r, from) == ""
    ensures forall i, j :: 0 <= i < Size && 0 <= j < Size && Square(i, j) != from && Square(i, j) != to ==> r[i][j] == b[i][j]
  {
    seq(Size, i requires 0 <= i < Size =>
      seq(Size, j requires 0 <= j < Size =>
        if i == to.row && j == to.col then b[from.row][from.col]
        else if i == from.row && j == from.col then ""
        else b[i][j]))
  }

  /** Moving between two distinct squares is placing the piece on the target
      and then clearing the origin. */
  lemma MoveIsTwoPuts(b: Board, from: Square, to: Square)
    requires WellFormed(b) && OnBoard(from) && OnBoard(to) && from != to
    ensures Move(b, from, to) == Put(Put(b, to, At(b, from)), from, "")
  {
    var m := Move(b, from, to);
    var p := Put(Put(b, to, At(b, from)), from, "");
    forall i | 0 <= i < Size
      ensures m[i] == p[i]
    {
      assert forall j :: 0 <= j < Size ==> m[i][j] == p[i][j];
    }
  }

  /** The piece occupying a cell, as a multiset of at most one element. */
  function Occupant(v: Cell): multiset<Cell>
  {
    if v == "" then multiset{} else multiset{v}
  }

  function RowPieces(row: seq<Cell>): multiset<Cell>
  {
    if |row| == 0 then multiset{} else Occupant(row[0]) + RowPieces(row[1..])
  }

  /** Every piece on the board, counted with multiplicity; its size is the
      number of non-empty squares. */
  function Pieces(b: Board): multiset<Cell>
  {
    if |b| == 0 then multiset{} else RowPieces(b[0]) + Pieces(b[1..])
  }

  lemma {:induction false} RowPiecesUpdate(row: seq<Cell>, c: int, v: Cell)
    requires 0 <= c < |row|
    ensures RowPieces(row[c := v]) + Occupant(row[c]) == RowPieces(row) + Occupant(v)
    decreases |row|
  {
    var updated := row[c := v];
    if c == 0 {
      assert updated[1..] == row[1..];
    } else {
      assert updated[1..] == row[1..][c - 1 := v];
      RowPiecesUpdate(row[1..], c - 1, v);
      var rest := RowPieces(row[1..][c - 1 := v]);
      assert row[1..][c - 1] == row[c];
      assert RowPieces(updated) == Occupant(row[0]) + rest;
      assert RowPieces(row) == Occupant(row[0]) + RowPieces(row[1..]);
      forall x
        ensures (RowPieces(updated) + Occupant(row[c]))[x] == (RowPieces(row) + Occupant(v))[x]
      {
        assert (rest + Occupant(row[c]))[x] == (RowPieces(row[1..]) + Occupant(v))[x];
      }
    }
  }

  lemma {:induction false} PiecesUpdateRow(b: Board, i: int, row: seq<Cell>)
    requires 0 <= i < |b|
    ensures Pieces(b[i := row]) + RowPieces(b[i]) == Pieces(b) + RowPieces(row)
    decreases |b|
  {
    var updated := b[i := row];
    if i == 0 {
      assert updated[1..] == b[1..];
    } else {
      assert updated[1..] == b[1..][i - 1 := row];
      PiecesUpdateRow(b[1..], i - 1, row);
      var rest := Pieces(b[1..][i - 1 := row]);
      assert b[1..][i - 1] == b[i];
      assert Pieces(updated) == RowPieces(b[0]) + rest;
      assert Pieces(b) == RowPieces(b[0]) + Pieces(b[1..]);
      forall x
        ensures (Pieces(updated) + RowPieces(b[i]))[x] == (Pieces(b) + RowPieces(row))[x]
      {
        assert (rest + RowPieces(b[i]))[x] == (Pieces(b[1..]) + RowPieces(row))[x];
      }
    }
  }

  /** Overwriting one square removes its old occupant and adds the new one. */
  lemma PiecesPut(b: Board, sq: Square, v: Cell)
    requires WellFormed(b) && OnBoard(sq)
    ensures Pieces(Put(b, sq, v)) + Occupant(At(b, sq)) == Pieces(b) + Occupant(v)
  {
    var row := b[sq.row][sq.col := v];
    assert Put(b, sq, v) == b[sq.row := row];
    PiecesUpdateRow(b, sq.row, row);
    RowPiecesUpdate(b[sq.row], sq.col, v);
    MultisetCancel(Pieces(b[sq.row := row]), Pieces(b), RowPieces(b[sq.row]), RowPieces(row),
                   Occupant(b[sq.row][sq.col]), Occupant(v));
  }

  /** From a' + r == a + r' and r' + o == r + w, conclude a' + o == a + w. */
  lemma MultisetCancel<T>(a': multiset<T>, a: multiset<T>, r: multiset<T>, r': multiset<T>, o: multiset<T>, w: multiset<T>)
    requires a' + r == a + r'
    requires r' + o == r + w
    ensures a' + o == a + w
  {
    forall x
      ensures (a' + o)[x] == (a + w)[x]
    {
      assert (a' + r)[x] == (a + r')[x];
      assert (r' + o)[x] == (r + w)[x];
    }
  }

  /** A move onto an empty square neither creates nor destroys a piece. */
  lemma MoveToEmptyKeepsPieces(b: Board, from: Square, to: Square)
    requires WellFormed(b) && OnBoard(from) && OnBoard(to) && from != to
    requires At(b, to) == ""
    ensures Pieces(Move(b, from, to)) == Pieces(b)
    ensures |Pieces(Move(b, from, to))| == |Pieces(b)|
  {
    var p := At(b, from);
    var b1 := Put(b, to, p);
    var b2 := Put(b1, from, "");
    MoveIsTwoPuts(b, from, to);
    PiecesPut(b, to, p);
    assert At(b1, from) == p;
    PiecesPut(b1, from, "");
    assert Occupant("") == multiset{};
    forall x
      ensures Pieces(b2)[x] == Pieces(b)[x]
    {
      assert (Pieces(b1) + Occupant(""))[x] == (Pieces(b) + Occupant(p))[x];
      assert (Pieces(b2) + Occupant(p))[x] == (Pieces(b1) + Occupant(""))[x];
    }
  }

  /** The starting layout. */
  function InitialBoard(): (b: Board)
    ensures WellFormed(b)
    ensures forall j :: 0 <= j < Size ==> b[1][j] == "p" && b[6][j] == "P"
    ensures forall i, j :: 2 <= i < 6 && 0 <= j < Size ==> b[i][j] == ""
    ensures b[0] == ["r", "n", "b", "q", "k", "b", "n", "r"]
    ensures b[7] == ["R", "N", "B", "Q", "K", "B", "N", "R"]
  {
    [
      ["r", "n", "b", "q", "k", "b", "n", "r"],
      ["p", "p", "p", "p", "p", "p", "p", "p"],
      ["", "", "", "", "", "", "", ""],
      ["", "", "", "", "", "", "", ""],
      ["", "", "", "", "", "", "", ""],
      ["", "", "", "", "", "", "", ""],
      ["P", "P", "P", "P", "P", "P", "P", "P"],
      ["R", "N", "B", "Q", "K", "B", "N", "R"]
    ]
  }

  lemma {:induction false} FullRowPieces(row: seq<Cell>)
    requires forall j :: 0 <= j < |row| ==> row[j] != ""
    ensures |RowPieces(row)| == |row|
    decreases |row|
  {
    if |row| > 0 {
      FullRowPieces(row[1..]);
    }
  }

  lemma {:induction false} EmptyRowPieces(row: seq<Cell>)
    requires forall j :: 0 <= j < |row| ==> row[j] == ""
    ensures RowPieces(row) == multiset{}
    decreases |row|
  {
    if |row| > 0 {
      EmptyRowPieces(row[1..]);
    }
  }

  /** The starting layout holds 32 pieces: 8 per back rank and 8 pawns a side. */
  lemma InitialPieces()
    ensures |Pieces(InitialBoard())| == 32
  {
    var b := InitialBoard();
    forall i | 0 <= i < Size && (i < 2 || 6 <= i)
      ensures forall j :: 0 <= j < Size ==> b[i][j] != ""
    {
    }
    OccupiedRanksPieces(b);
  }

  /** A board whose ranks 0, 1, 6 and 7 are full and whose ranks 2 to 5 are
      empty holds exactly 32 pieces. */
  lemma OccupiedRanksPieces(b: Board)
    requires WellFormed(b)
    requires forall i, j :: 0 <= i < Size && (i < 2 || 6 <= i) && 0 <= j < Size ==> b[i][j] != ""
    requires forall i, j :: 2 <= i < 6 && 0 <= j < Size ==> b[i][j] == ""
    ensures |Pieces(b)| == 32
  {
    forall i | 0 <= i < Size
      ensures |RowPieces(b[i])| == if 2 <= i < 6 then 0 else 8
    {
      if 2 <= i < 6 {
        EmptyRowPieces(b[i]);
      } else {
        FullRowPieces(b[i]);
      }
    }
    var k := Size;
    while k > 0
      invariant 0 <= k <= Size
      invariant |Pieces(b[k..])| == (if k <= 2 then 16 - 8 * k + 16 else if k <= 6 then 16 else 8 * (8 - k))
    {
      k := k - 1;
      assert b[k..][1..] == b[k + 1..];
    }
    assert b[0..] == b;
  }

}
