/** The game engine of the tic-tac-toe component, as values: marks, the board,
    the table of winning lines, winner and draw detection, the move transition
    and the status shown to the players. */
module TicTacToe {

  datatype Option<T> = None | Some(value: T)

  /** The mark a player places. */
  datatype Mark = X | O

  /** A cell is empty (`null` in the component) or holds a mark. */
  type Cell = Option<Mark>

  /** A position on the 3x3 grid, in row-major order. */
  type Index = i: nat | i < 9

  /** The board: exactly nine cells, in row-major order. */
  type Board = b: seq<Cell> | |b| == 9
    witness [None, None, None, None, None, None, None, None, None]

  /** Three positions that win when they hold the same mark. */
  type Line = (Index, Index, Index)

  /** The winning lines in the order they are scanned: rows top to bottom,
      then columns left to right, then the two diagonals. */
  const LINES: seq<Line> :=
    [(0, 1, 2), (3, 4, 5), (6, 7, 8),
     (0, 3, 6), (1, 4, 7), (2, 5, 8),
     (0, 4, 8), (2, 4, 6)]

  const EMPTY_BOARD: Board := [None, None, None, None, None, None, None, None, None]

  function Other(m: Mark): Mark {
    if m == X then O else X
  }

  /** The test applied to one line: its first cell holds a mark and the other
      two cells are equal to it. */
  predicate Matches(b: Board, l: Line) {
    b[l.0].Some? && b[l.0] == b[l.1] && b[l.0] == b[l.2]
  }

  /** All three cells of line `l` hold mark `m`. */
  predicate Holds(b: Board, l: Line, m: Mark) {
    b[l.0] == Some(m) && b[l.1] == Some(m) && b[l.2] == Some(m)
  }

  /** Some line of the table is completed by `m`. */
  ghost predicate HasLine(b: Board, m: Mark) {
    exists j :: 0 <= j < |LINES| && Holds(b, LINES[j], m)
  }

  /** No line of the table matches. */
  predicate NoLine(b: Board) {
    forall j :: 0 <= j < |LINES| ==> !Matches(b, LINES[j])
  }

  /** NoLine, line by line. */
  lemma NoLineUnfolded(b: Board)
    ensures NoLine(b) <==>
      && !Matches(b, (0, 1, 2)) && !Matches(b, (3, 4, 5)) && !Matches(b, (6, 7, 8))
      && !Matches(b, (0, 3, 6)) && !Matches(b, (1, 4, 7)) && !Matches(b, (2, 5, 8))
      && !Matches(b, (0, 4, 8)) && !Matches(b, (2, 4, 6))
  {
    if NoLine(b) {
      assert !Matches(b, LINES[0]) && !Matches(b, LINES[1]) && !Matches(b, LINES[2]);
      assert !Matches(b, LINES[3]) && !Matches(b, LINES[4]) && !Matches(b, LINES[5]);
      assert !Matches(b, LINES[6]) && !Matches(b, LINES[7]);
    } else {
      var j :| 0 <= j < |LINES| && Matches(b, LINES[j]);
      assert j == 0 || j == 1 || j == 2 || j == 3 || j == 4 || j == 5 || j == 6 || j == 7;
    }
  }

  predicate Full(b: Board) {
    forall i :: 0 <= i < |b| ==> b[i].Some?
  }

  // ---------------------------------------------------------------------------
  // Winner detection

  /** The scan of the line table from position `k` on: the mark of the first
      matching line, or None. */
  function WinnerFrom(b: Board, k: nat): Option<Mark>
    decreases |LINES| - k
  {
    if k >= |LINES| then None
    else if Matches(b, LINES[k]) then b[LINES[k].0]
    else WinnerFrom(b, k + 1)
  }

  /** The winner of a board: the mark of the first matching line in table order. */
  function Winner(b: Board): Option<Mark> {
    WinnerFrom(b, 0)
  }

  lemma {:induction false} WinnerFromWitness(b: Board, k: nat) returns (j: nat)
    requires WinnerFrom(b, k).Some?
    ensures k <= j < |LINES| && Holds(b, LINES[j], WinnerFrom(b, k).value)
    ensures forall i :: k <= i < j ==> !Matches(b, LINES[i])
    decreases |LINES| - k
  {
    if Matches(b, LINES[k]) {
      j := k;
    } else {
      j := WinnerFromWitness(b, k + 1);
    }
  }

  /** A winner is the mark of a line that all three of its cells hold, and no
      earlier line of the table matches. */
  lemma WinnerWitness(b: Board) returns (j: nat)
    requires Winner(b).Some?
    ensures j < |LINES| && Holds(b, LINES[j], Winner(b).value)
    ensures forall i :: 0 <= i < j ==> !Matches(b, LINES[i])
  {
    j := WinnerFromWitness(b, 0);
  }

  lemma {:induction false} FirstMatchFrom(b: Board, k: nat, j: nat, m: Mark)
    requires k <= j < |LINES| && Holds(b, LINES[j], m)
    requires forall i :: k <= i < j ==> !Matches(b, LINES[i])
    ensures WinnerFrom(b, k) == Some(m)
    decreases j - k
  {
    if k < j {
      FirstMatchFrom(b, k + 1, j, m);
    }
  }

  /** Conversely, the mark of the first matching line in table order is the winner. */
  lemma FirstMatchWins(b: Board, j: nat, m: Mark)
    requires j < |LINES| && Holds(b, LINES[j], m)
    requires forall i :: 0 <= i < j ==> !Matches(b, LINES[i])
    ensures Winner(b) == Some(m)
  {
    FirstMatchFrom(b, 0, j, m);
  }

  lemma {:induction false} WinnerFromNone(b: Board, k: nat)
    ensures WinnerFrom(b, k).None? <==> forall i :: k <= i < |LINES| ==> !Matches(b, LINES[i])
    decreases |LINES| - k
  {
    if k < |LINES| {
      WinnerFromNone(b, k + 1);
    }
  }

  /** There is no winner exactly when no line of the table matches. */
  lemma WinnerNoneIff(b: Board)
    ensures Winner(b).None? <==> NoLine(b)
  {
    WinnerFromNone(b, 0);
  }

  /** A winner has a completed line, and when only one mark has a completed
      line, that mark is the winner. */
  lemma WinnerIsUniqueLineOwner(b: Board, m: Mark)
    requires !HasLine(b, Other(m))
    ensures Winner(b) == Some(m) <==> HasLine(b, m)
    ensures Winner(b).Some? ==> Winner(b).value == m
  {
    if Winner(b).Some? {
      var w := WinnerWitness(b);
      assert HasLine(b, Winner(b).value);
      assert Winner(b).value == m || Winner(b).value == Other(m);
    }
    if HasLine(b, m) {
      var j :| 0 <= j < |LINES| && Holds(b, LINES[j], m);
      assert Matches(b, LINES[j]);
      WinnerNoneIff(b);
    }
  }

  // ---------------------------------------------------------------------------
  // Draw detection

  /** A draw: there is no winner and every cell is occupied. */
  predicate IsDraw(b: Board) {
    Winner(b).None? && Full(b)
  }

  /** A draw is a full board on which no line of the table matches. */
  lemma DrawIff(b: Board)
    ensures IsDraw(b) <==> NoLine(b) && Full(b)
  {
    WinnerNoneIff(b);
  }

  // ---------------------------------------------------------------------------
  // Mark counts

  /** The number of cells of `b` that hold `m`. */
  function Count(b: seq<Cell>, m: Mark): nat {
    if b == [] then 0 else (if b[0] == Some(m) then 1 else 0) + Count(b[1..], m)
  }

  /** Marking an empty cell with `c` adds one to the count of `c` and leaves the
      count of the other mark as it was. */
  lemma {:induction false} CountMark(b: seq<Cell>, i: nat, c: Mark, m: Mark)
    requires i < |b| && b[i].None?
    ensures Count(b[i := Some(c)], m) == Count(b, m) + (if c == m then 1 else 0)
  {
    if i == 0 {
      assert b[i := Some(c)][1..] == b[1..];
    } else {
      assert b[i := Some(c)][1..] == b[1..][i - 1 := Some(c)];
      CountMark(b[1..], i - 1, c, m);
    }
  }

  // ---------------------------------------------------------------------------
  // Game state and the move transition

  /** The component's state: the board and whether X moves next. */
  datatype State = State(board: Board, isXNext: bool)

  /** The state on first render and after a reset: an empty board, X to move. */
  const INITIAL: State := State(EMPTY_BOARD, true)

  /** The mark the next accepted move writes. */
  function ToMove(s: State): Mark {
    if s.isXNext then X else O
  }

  /** The game is over once there is a winner or a draw. */
  predicate GameOver(s: State) {
    Winner(s.board).Some? || IsDraw(s.board)
  }

  /** A click on cell `i` is accepted when there is no winner, the cell is
      empty and the game is not drawn. */
  predicate Accepts(s: State, i: Index) {
    !(Winner(s.board).Some? || s.board[i].Some? || IsDraw(s.board))
  }

  /** The click handler as a transition: an accepted click writes the mark of
      the player to move into cell `i` and always flips the turn, also on the
      move that ends the game; any other click leaves the state as it was. */
  function Play(s: State, i: Index): State {
    if Accepts(s, i) then State(s.board[i := Some(ToMove(s))], !s.isXNext) else s
  }

  /** A sequence of clicks, handled one at a time. */
  function Run(s: State, clicks: seq<Index>): State
    decreases clicks
  {
    if clicks == [] then s else Run(Play(s, clicks[0]), clicks[1..])
  }

  /** Clicks in sequence compose. */
  lemma {:induction false} RunAppend(s: State, first: seq<Index>, second: seq<Index>)
    ensures Run(s, first + second) == Run(Run(s, first), second)
    decreases first
  {
    if first != [] {
      var c := first + second;
      assert c[0] == first[0] && c[1..] == first[1..] + second;
      RunAppend(Play(s, first[0]), first[1..], second);
      assert Run(s, c) == Run(Play(s, c[0]), c[1..]);
    } else {
      assert first + second == second;
    }
  }

  /** What an accepted click does: the clicked cell gets the mover's mark,
      every other cell is unchanged, and the turn passes. */
  lemma PlayAccepted(s: State, i: Index)
    requires Accepts(s, i)
    ensures Play(s, i).board[i] == Some(ToMove(s))
    ensures forall j :: 0 <= j < 9 && j != i ==> Play(s, i).board[j] == s.board[j]
    ensures Play(s, i).isXNext == !s.isXNext
    ensures ToMove(Play(s, i)) == Other(ToMove(s))
  {
  }

  /** On a board where no line matches, a click on an empty cell is accepted. */
  lemma PlayOpen(s: State, i: Index)
    requires NoLine(s.board) && s.board[i].None?
    ensures Play(s, i) == State(s.board[i := Some(ToMove(s))], !s.isXNext)
  {
    WinnerNoneIff(s.board);
    assert !Full(s.board);
  }

  /** A click is ignored, leaving board and turn as they were, exactly when
      there is a winner, the cell is occupied, or the game is drawn. */
  lemma PlayIgnored(s: State, i: Index)
    ensures Play(s, i) == s <==> GameOver(s) || s.board[i].Some?
  {
    if Accepts(s, i) {
      assert Play(s, i).board[i] != s.board[i];
    }
  }

  /** Cells only fill: a cell that holds a mark keeps it. */
  lemma PlayOnlyFills(s: State, i: Index)
    ensures forall j :: 0 <= j < 9 && s.board[j].Some? ==> Play(s, i).board[j] == s.board[j]
  {
  }

  /** Clicking the same cell twice has the effect of clicking it once. */
  lemma PlayTwice(s: State, i: Index)
    ensures Play(Play(s, i), i) == Play(s, i)
  {
  }

  /** Once the game is over, no sequence of clicks changes the state. */
  lemma {:induction false} RunWhenOver(s: State, clicks: seq<Index>)
    requires GameOver(s)
    ensures Run(s, clicks) == s
    decreases clicks
  {
    if clicks != [] {
      RunWhenOver(Play(s, clicks[0]), clicks[1..]);
    }
  }

  /** Cells only fill over any sequence of clicks. */
  lemma {:induction false} RunOnlyFills(s: State, clicks: seq<Index>)
    ensures forall j :: 0 <= j < 9 && s.board[j].Some? ==> Run(s, clicks).board[j] == s.board[j]
    decreases clicks
  {
    if clicks != [] {
      PlayOnlyFills(s, clicks[0]);
      RunOnlyFills(Play(s, clicks[0]), clicks[1..]);
    }
  }

  // ---------------------------------------------------------------------------
  // The invariant of reachable states

  /** Marks are balanced: with X to move there are as many X as O; with O to
      move there is one X more. */
  predicate Balanced(s: State) {
    Count(s.board, X) == Count(s.board, O) + (if s.isXNext then 0 else 1)
  }

  /** What holds of every state the game can reach: the marks are balanced, at
      most one mark has a completed line, and the winner is never the player
      to move (it made the last move). */
  ghost predicate Inv(s: State) {
    && Balanced(s)
    && !(HasLine(s.board, X) && HasLine(s.board, O))
    && (Winner(s.board).Some? ==> Winner(s.board).value != ToMove(s))
  }

  /** The initial state keeps the invariant and is not over. */
  lemma InitialInv()
    ensures Inv(INITIAL) && !GameOver(INITIAL)
  {
    EmptyInv(INITIAL);
  }

  /** Any state with an empty board and X to move keeps the invariant and is
      not over. */
  lemma EmptyInv(s: State)
    requires forall k :: 0 <= k < 9 ==> s.board[k].None?
    requires s.isXNext
    ensures Inv(s) && !GameOver(s)
  {
    var b := s.board;
    forall j | 0 <= j < |LINES|
      ensures !Matches(b, LINES[j]) && !Holds(b, LINES[j], X) && !Holds(b, LINES[j], O)
    {
      assert b[LINES[j].0].None?;
    }
    WinnerNoneIff(b);
    assert !Full(b) by { assert b[0].None?; }
    CountAbsent(b, X);
    CountAbsent(b, O);
  }

  /** A mark that occurs in no cell counts zero. */
  lemma {:induction false} CountAbsent(b: seq<Cell>, m: Mark)
    requires forall k :: 0 <= k < |b| ==> b[k] != Some(m)
    ensures Count(b, m) == 0
  {
    if b != [] {
      CountAbsent(b[1..], m);
    }
  }

  /** When no line matches, marking an empty cell with `m` cannot complete a
      line for the other mark. */
  lemma MarkCompletesOnlyOwnLines(b: Board, i: Index, m: Mark)
    requires NoLine(b) && b[i].None?
    ensures !HasLine(b[i := Some(m)], Other(m))
  {
    var b' := b[i := Some(m)];
    forall j | 0 <= j < |LINES|
      ensures !Holds(b', LINES[j], Other(m))
    {
      assert !Matches(b, LINES[j]);
    }
  }

  /** Every click keeps the invariant. */
  lemma PlayKeepsInv(s: State, i: Index)
    requires Inv(s)
    ensures Inv(Play(s, i))
  {
    if Accepts(s, i) {
      var m := ToMove(s);
      var t := Play(s, i);
      assert Balanced(t) by {
        CountMark(s.board, i, m, X);
        CountMark(s.board, i, m, O);
      }
      assert !HasLine(t.board, Other(m)) by {
        WinnerNoneIff(s.board);
        MarkCompletesOnlyOwnLines(s.board, i, m);
      }
      assert Winner(t.board).Some? ==> Winner(t.board).value == m by {
        WinnerIsUniqueLineOwner(t.board, m);
      }
      assert ToMove(t) == Other(m);
      assert m == X || m == O;
    }
  }

  /** Every sequence of clicks keeps the invariant. */
  lemma {:induction false} RunKeepsInv(s: State, clicks: seq<Index>)
    requires Inv(s)
    ensures Inv(Run(s, clicks))
    decreases clicks
  {
    if clicks != [] {
      PlayKeepsInv(s, clicks[0]);
      RunKeepsInv(Play(s, clicks[0]), clicks[1..]);
    }
  }

  /** Every state reached from the initial state keeps the invariant. */
  lemma ReachableInv(clicks: seq<Index>)
    ensures Inv(Run(INITIAL, clicks))
  {
    InitialInv();
    RunKeepsInv(INITIAL, clicks);
  }

  // ---------------------------------------------------------------------------
  // Status

  /** The status shown to the players. */
  datatype Status = Won(winner: Mark) | Draw | Next(player: Mark)

  /** Winner first, then draw, then the player to move. */
  function StatusOf(s: State): Status {
    if Winner(s.board).Some? then Won(Winner(s.board).value)
    else if IsDraw(s.board) then Draw
    else Next(ToMove(s))
  }

  /** The status names the next player exactly when some click would be
      accepted; in every other status every click is ignored. */
  lemma StatusNextIffPlayable(s: State)
    ensures StatusOf(s).Next? <==> exists i: Index :: Play(s, i) != s
    ensures !StatusOf(s).Next? ==> forall i: Index :: Play(s, i) == s
  {
    if StatusOf(s).Next? {
      var i :| 0 <= i < 9 && s.board[i].None?;
      assert Play(s, i).board[i] != s.board[i];
    }
  }

  /** In a reachable state the status is Won(m) exactly when m has a completed
      line, and then m is the player who moved last. */
  lemma StatusWonIff(s: State, m: Mark)
    requires Inv(s)
    ensures StatusOf(s) == Won(m) <==> HasLine(s.board, m)
    ensures StatusOf(s) == Won(m) ==> m != ToMove(s)
  {
    if HasLine(s.board, Other(m)) {
      WinnerIsUniqueLineOwner(s.board, Other(m));
    } else {
      WinnerIsUniqueLineOwner(s.board, m);
    }
  }
}
