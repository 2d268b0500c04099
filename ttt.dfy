/**
 * The board primitives of the root `ttt` package: cell states, marks,
 * moves, the nine-cell board, its end-of-game condition, and the
 * in-place Apply of a move through a pointer to a board.
 */
module Ttt {
  import opened Wrappers

  /** The state of one cell: free (F) or holding a mark. */
  datatype Cell = F | X | O

  /** A player's mark: any cell state but free. */
  type Mark = c: Cell | c != F witness X

  /** The condition of a board; NotEnd is the zero value. */
  datatype Condition = NotEnd | XWon | OWon | Tie

  /** A move is the index of a target cell; any integer can be proposed. */
  type Move = int

  /** Move.Validate: the index is one of the nine cells. */
  predicate Valid(m: Move) {
    0 <= m < 9
  }

  /** The two ways Board.Apply can fail. */
  datatype ApplyError = InvalidMove | OccupiedCell

  /** Number of occurrences of c in s. */
  function Count(s: seq<Cell>, c: Cell): (n: nat)
    ensures n <= |s|
    ensures n > 0 <==> c in s
  {
    if s == [] then 0
    else
      assert s == [s[0]] + s[1..];
      (if s[0] == c then 1 else 0) + Count(s[1..], c)
  }

  lemma {:induction false} CountUpdate(s: seq<Cell>, m: nat, v: Cell, c: Cell)
    requires m < |s|
    ensures Count(s[m := v], c) == Count(s, c) - (if s[m] == c then 1 else 0) + (if v == c then 1 else 0)
  {
    if m > 0 {
      CountUpdate(s[1..], m - 1, v, c);
      assert s[m := v][1..] == s[1..][m - 1 := v];
    } else {
      assert s[m := v][1..] == s[1..];
    }
  }

  /** The nine cells, in row-major order (0 is top-left, 8 bottom-right). */
  type Cells = s: seq<Cell> | |s| == 9 witness [F, F, F, F, F, F, F, F, F]

  datatype Board = Board(cells: Cells) {

    /** Number of free cells. */
    function Free(): nat {
      Count(cells, F)
    }

    /** The move is valid and its cell is free: Apply succeeds exactly on these. */
    predicate Legal(m: Move) {
      Valid(m) && cells[m] == F
    }

    /** The board after a successful Apply of m with mark: one free cell fewer. */
    function Place(m: Move, mark: Mark): (r: Board)
      requires Legal(m)
      ensures r.Free() == Free() - 1
    {
      CountUpdate(cells, m, mark, F);
      Board(cells[m := mark])
    }

    /** The three cells of line k of the eight, given by Lines. */
    predicate LineAt(mark: Mark, k: nat)
      requires k < |Lines|
    {
      var (i, j, l) := Lines[k];
      cells[i] == mark && cells[j] == mark && cells[l] == mark
    }

    /** mark holds one of lines k, ..., 7. */
    predicate HasLineFrom(mark: Mark, k: nat)
      requires k <= |Lines|
      decreases |Lines| - k
    {
      k < |Lines| && (LineAt(mark, k) || HasLineFrom(mark, k + 1))
    }

    /** mark holds one of the three rows, three columns or two diagonals. */
    predicate HasLine(mark: Mark) {
      HasLineFrom(mark, 0)
    }

    /** Board.Condition: a win for the mark holding a line (X is looked at
        first), otherwise a tie when no cell is free, otherwise NotEnd. */
    function Condition(): (r: Condition)
      ensures r == NotEnd ==> Free() > 0
    {
      if HasLine(X) then XWon
      else if HasLine(O) then OWon
      else if F in cells then NotEnd
      else Tie
    }
  }

  /** The eight lines: rows, columns, then the two diagonals. */
  const Lines: seq<(nat, nat, nat)> :=
    [(0, 1, 2), (3, 4, 5), (6, 7, 8), (0, 3, 6), (1, 4, 7), (2, 5, 8), (0, 4, 8), (2, 4, 6)]

  /** What the condition says about the board, both ways. */
  lemma ConditionMeaning(b: Board)
    ensures b.Condition() == XWon <==> b.HasLine(X)
    ensures b.Condition() == OWon <==> !b.HasLine(X) && b.HasLine(O)
    ensures b.Condition() == Tie <==> !b.HasLine(X) && !b.HasLine(O) && b.Free() == 0
    ensures b.Condition() == NotEnd <==> !b.HasLine(X) && !b.HasLine(O) && b.Free() > 0
  {
  }

  /** Place sets exactly cell m to mark and adds one to the count of mark. */
  lemma PlaceEffect(b: Board, m: Move, mark: Mark)
    requires b.Legal(m)
    ensures forall k :: 0 <= k < 9 ==> b.Place(m, mark).cells[k] == if k == m then mark else b.cells[k]
    ensures forall c: Mark :: Count(b.Place(m, mark).cells, c) == Count(b.cells, c) + (if c == mark then 1 else 0)
  {
    CountUpdate(b.cells, m, mark, X);
    CountUpdate(b.cells, m, mark, O);
  }

  /** A line of `mark` anywhere at or after `j` makes HasLineFrom hold from `j`. */
  lemma {:induction false} LineFrom(b: Board, mark: Mark, k: nat, j: nat)
    requires j <= k < |Lines| && b.LineAt(mark, k)
    ensures b.HasLineFrom(mark, j)
    decreases k - j
  {
    if j < k {
      LineFrom(b, mark, k, j + 1);
    }
  }

  /** Placing mark never gives the other mark a line it did not hold. */
  lemma {:induction false} NoNewLine(b: Board, m: Move, mark: Mark, other: Mark, k: nat)
    requires b.Legal(m) && other != mark
    requires k <= |Lines| && !b.HasLineFrom(other, k)
    ensures !b.Place(m, mark).HasLineFrom(other, k)
    decreases |Lines| - k
  {
    if k < |Lines| {
      NoNewLineAt(b, m, mark, other, k);
      NoNewLine(b, m, mark, other, k + 1);
    }
  }

  lemma NoNewLineAt(b: Board, m: Move, mark: Mark, other: Mark, k: nat)
    requires b.Legal(m) && other != mark
    requires k < |Lines| && !b.LineAt(other, k)
    ensures !b.Place(m, mark).LineAt(other, k)
  {
    assert b.Place(m, mark).cells == b.cells[m := mark];
  }

  /** From an open board, only the mark just placed can have won. */
  lemma LastMoverWins(b: Board, m: Move, mark: Mark)
    requires b.Legal(m) && b.Condition() == NotEnd
    ensures b.Place(m, mark).Condition() == XWon ==> mark == X
    ensures b.Place(m, mark).Condition() == OWon ==> mark == O
  {
    NoNewLine(b, m, mark, if mark == X then O else X, 0);
  }

  /** A mark absent from the board holds no line. */
  lemma {:induction false} AbsentNoLine(b: Board, mark: Mark, k: nat)
    requires mark !in b.cells && k <= |Lines|
    ensures !b.HasLineFrom(mark, k)
    decreases |Lines| - k
  {
    if k < |Lines| {
      AbsentNoLine(b, mark, k + 1);
    }
  }

  /** A game starts open: the empty board is NotEnd. */
  lemma EmptyBoardOpen()
    ensures EmptyBoard.Condition() == NotEnd
  {
    AbsentNoLine(EmptyBoard, X, 0);
    AbsentNoLine(EmptyBoard, O, 0);
  }

  /** The zero Board: all nine cells free. */
  const EmptyBoard: Board := Board(seq(9, _ => F))

  /** An addressable board (a `*ttt.Board`); Apply changes it in place. */
  class BoardVar {
    var board: Board

    constructor (b: Board)
      ensures board == b
    {
      board := b;
    }

    /** Board.Apply: fails on an invalid index or an occupied cell and then
        leaves the board as it was; otherwise sets exactly that cell to mark. */
    method Apply(m: Move, mark: Mark) returns (err: Option<ApplyError>)
      modifies this
      ensures !Valid(m) ==> err == Some(InvalidMove) && board == old(board)
      ensures Valid(m) && !old(board).Legal(m) ==> err == Some(OccupiedCell) && board == old(board)
      ensures old(board).Legal(m) ==> err == None && board == old(board).Place(m, mark)
    {
      if !Valid(m) {
        return Some(InvalidMove);
      }
      if board.cells[m] != F {
        return Some(OccupiedCell);
      }
      board := board.Place(m, mark);
      return None;
    }
  }
}
