/** The `Home` component's engine as mutable state: a nine-cell array and the
    turn flag, replaced by the click handler and by reset, and the loops that
    compute the winner and the draw from the array. */
module Home {
  import opened TicTacToe

  /** The scan over the line table, returning at the first matching line. */
  method CalculateWinner(squares: array<Cell>) returns (w: Option<Mark>)
    requires squares.Length == 9
    ensures w == Winner(squares[..])
  {
    ghost var b: Board := squares[..];
    for k := 0 to |LINES|
      invariant WinnerFrom(b, k) == Winner(b)
    {
      var (p, q, r) := LINES[k];
      if squares[p].Some? && squares[p] == squares[q] && squares[p] == squares[r] {
        return squares[p];
      }
    }
    return None;
  }

  /** A draw needs no winner and every cell filled; `winner` is the value the
      component has already computed for the same board. */
  method CheckDraw(squares: array<Cell>, winner: Option<Mark>) returns (draw: bool)
    requires squares.Length == 9 && winner == Winner(squares[..])
    ensures draw == IsDraw(squares[..])
  {
    if winner.Some? {
      return false;
    }
    for i := 0 to 9
      invariant forall j :: 0 <= j < i ==> squares[j].Some?
    {
      if squares[i].None? {
        return false;
      }
    }
    return true;
  }

  class Game {
    var board: array<Cell>
    var isXNext: bool

    /** The array always has nine cells and the state is one the game can reach. */
    ghost predicate Valid()
      reads this, board
    {
      board.Length == 9 && Inv(State(board[..], isXNext))
    }

    /** The state as a value. */
    ghost function Snapshot(): State
      reads this, board
      requires board.Length == 9
    {
      State(board[..], isXNext)
    }

    /** First render: an empty board with X to move. */
    constructor ()
      ensures Valid() && fresh(board)
      ensures Snapshot() == INITIAL
    {
      board := new Cell[9](_ => None);
      isXNext := true;
      new;
      assert board[..] == EMPTY_BOARD;
      InitialInv();
    }

    /** The click handler. An ignored click changes nothing; an accepted click
        installs a fresh copy of the board with the mover's mark in cell
        `index` and flips the turn. */
    method Move(index: Index)
      requires Valid()
      modifies this
      ensures Valid()
      ensures Snapshot() == Play(old(Snapshot()), index)
      ensures Accepts(old(Snapshot()), index) ==> fresh(board)
      ensures !Accepts(old(Snapshot()), index) ==> board == old(board)
    {
      var winner := CalculateWinner(board);
      var draw := CheckDraw(board, winner);
      if winner.Some? || board[index].Some? || draw {
        return;
      }
      var prev := board[..];
      var newBoard := new Cell[9](j => if j < 9 then prev[j] else None);
      assert newBoard[..] == prev;
      newBoard[index] := if isXNext then Some(X) else Some(O);
      PlayKeepsInv(State(prev, isXNext), index);
      board := newBoard;
      isXNext := !isXNext;
    }

    /** The reset button: an empty board with X to move, whatever came before. */
    method Reset()
      modifies this
      ensures Valid() && fresh(board)
      ensures Snapshot() == INITIAL
    {
      board := new Cell[9](_ => None);
      isXNext := true;
      assert board[..] == EMPTY_BOARD;
      InitialInv();
    }

    /** The status line: winner first, then draw, then the player to move. */
    method StatusMessage() returns (st: Status)
      requires Valid()
      ensures st == StatusOf(Snapshot())
    {
      var winner := CalculateWinner(board);
      var draw := CheckDraw(board, winner);
      if winner.Some? {
        st := Won(winner.value);
      } else if draw {
        st := Draw;
      } else {
        st := Next(if isXNext then X else O);
      }
    }
  }
}
