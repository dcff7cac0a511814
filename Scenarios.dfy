/** Concrete games played through the transition function. Each lemma is
    about one fixed click sequence (and, for the pieces of a game, one fixed
    start state): its `requires` pins the parameter to exactly that literal
    value. The sequence is a parameter rather than a literal in the `ensures`
    only so that the verifier does not evaluate the whole game in one step;
    each game is proved in pieces of at most three clicks, each click by
    `PlayOpen`, joined by `RunAppend`. */
module Scenarios {
  import opened TicTacToe

  /** X at 0, 3, 6 and O at 1, 4. */
  const LEFT_COLUMN: Board :=
    [Some(X), Some(O), None,
     Some(X), Some(O), None,
     Some(X), None, None]

  /** The left-column game after its first three clicks, 0 1 3. */
  const LEFT_AFTER_THREE: Board :=
    [Some(X), Some(O), None,
     Some(X), None, None,
     None, None, None]

  /** The draw game after its first three clicks, 0 2 1. */
  const DRAW_AFTER_THREE: Board :=
    [Some(X), Some(X), Some(O),
     None, None, None,
     None, None, None]

  /** The draw game after its first six clicks, 0 2 1 3 5 4. */
  const DRAW_AFTER_SIX: Board :=
    [Some(X), Some(X), Some(O),
     Some(O), Some(O), Some(X),
     None, None, None]

  /** The draw game at its end: X at 0, 1, 5, 6, 8 and O at 2, 3, 4, 7. */
  const DRAW_FULL: Board :=
    [Some(X), Some(X), Some(O),
     Some(O), Some(O), Some(X),
     Some(X), Some(O), Some(X)]

  /** X takes the left column against O at 1 and 4; every click is accepted
      and the turn has passed to O after the winning move. */
  lemma LeftColumnPlay(clicks: seq<Index>)
    requires clicks == [0, 1, 3, 4, 6]
    ensures Run(INITIAL, clicks) == State(LEFT_COLUMN, false)
  {
    assert clicks == clicks[..3] + clicks[3..];
    RunAppend(INITIAL, clicks[..3], clicks[3..]);
    LeftOpening(INITIAL, clicks[..3]);
    LeftEnding(Run(INITIAL, clicks[..3]), clicks[3..]);
  }

  /** Clicks 0 1 3 from the empty board. */
  lemma LeftOpening(s: State, c: seq<Index>)
    requires s == INITIAL && c == [0, 1, 3]
    ensures Run(s, c) == State(LEFT_AFTER_THREE, false)
  {
    NoLineUnfolded(s.board);
    PlayOpen(s, 0);
    var t1 := Play(s, 0);
    assert Run(s, c[0..]) == Run(t1, c[1..]);
    NoLineUnfolded(t1.board);
    PlayOpen(t1, 1);
    var t2 := Play(t1, 1);
    assert Run(t1, c[1..]) == Run(t2, c[2..]);
    NoLineUnfolded(t2.board);
    PlayOpen(t2, 3);
    var t3 := Play(t2, 3);
    assert Run(t2, c[2..]) == Run(t3, c[3..]);
    assert c[3..] == [];
  }

  /** Clicks 4 6, the second completing the left column. */
  lemma LeftEnding(s: State, c: seq<Index>)
    requires s == State(LEFT_AFTER_THREE, false) && c == [4, 6]
    ensures Run(s, c) == State(LEFT_COLUMN, false)
  {
    NoLineUnfolded(s.board);
    PlayOpen(s, 4);
    var t1 := Play(s, 4);
    assert Run(s, c[0..]) == Run(t1, c[1..]);
    NoLineUnfolded(t1.board);
    PlayOpen(t1, 6);
    var t2 := Play(t1, 6);
    assert Run(t1, c[1..]) == Run(t2, c[2..]);
    assert c[2..] == [];
  }

  /** On that board X wins, and every further click is ignored. */
  lemma LeftColumnWin()
    ensures StatusOf(State(LEFT_COLUMN, false)) == Won(X)
    ensures forall i: Index :: Play(State(LEFT_COLUMN, false), i) == State(LEFT_COLUMN, false)
  {
    assert Holds(LEFT_COLUMN, LINES[3], X);
    assert !Matches(LEFT_COLUMN, LINES[0]) && !Matches(LEFT_COLUMN, LINES[1]) && !Matches(LEFT_COLUMN, LINES[2]);
    FirstMatchWins(LEFT_COLUMN, 3, X);
  }

  /** Clicks 0 2 1 from the empty board. */
  lemma DrawOpening(s: State, c: seq<Index>)
    requires s == INITIAL && c == [0, 2, 1]
    ensures Run(s, c) == State(DRAW_AFTER_THREE, false)
  {
    NoLineUnfolded(s.board);
    PlayOpen(s, 0);
    var t1 := Play(s, 0);
    assert Run(s, c[0..]) == Run(t1, c[1..]);
    NoLineUnfolded(t1.board);
    PlayOpen(t1, 2);
    var t2 := Play(t1, 2);
    assert Run(t1, c[1..]) == Run(t2, c[2..]);
    NoLineUnfolded(t2.board);
    PlayOpen(t2, 1);
    var t3 := Play(t2, 1);
    assert Run(t2, c[2..]) == Run(t3, c[3..]);
    assert c[3..] == [];
  }

  /** Clicks 3 5 4. */
  lemma DrawMiddle(s: State, c: seq<Index>)
    requires s == State(DRAW_AFTER_THREE, false) && c == [3, 5, 4]
    ensures Run(s, c) == State(DRAW_AFTER_SIX, true)
  {
    NoLineUnfolded(s.board);
    PlayOpen(s, 3);
    var t1 := Play(s, 3);
    assert Run(s, c[0..]) == Run(t1, c[1..]);
    NoLineUnfolded(t1.board);
    PlayOpen(t1, 5);
    var t2 := Play(t1, 5);
    assert Run(t1, c[1..]) == Run(t2, c[2..]);
    NoLineUnfolded(t2.board);
    PlayOpen(t2, 4);
    var t3 := Play(t2, 4);
    assert Run(t2, c[2..]) == Run(t3, c[3..]);
    assert c[3..] == [];
  }

  /** Clicks 6 7 8, the last one filling the board. */
  lemma DrawEnding(s: State, c: seq<Index>)
    requires s == State(DRAW_AFTER_SIX, true) && c == [6, 7, 8]
    ensures Run(s, c) == State(DRAW_FULL, false)
  {
    NoLineUnfolded(s.board);
    PlayOpen(s, 6);
    var t1 := Play(s, 6);
    assert Run(s, c[0..]) == Run(t1, c[1..]);
    NoLineUnfolded(t1.board);
    PlayOpen(t1, 7);
    var t2 := Play(t1, 7);
    assert Run(t1, c[1..]) == Run(t2, c[2..]);
    NoLineUnfolded(t2.board);
    PlayOpen(t2, 8);
    var t3 := Play(t2, 8);
    assert Run(t2, c[2..]) == Run(t3, c[3..]);
    assert c[3..] == [];
  }

  /** X at 0, 1, 5, 6, 8 and O at 2, 3, 4, 7, played alternately, fill the
      board; every click is accepted and the turn passes nine times. */
  lemma FullBoardPlay(clicks: seq<Index>)
    requires clicks == [0, 2, 1, 3, 5, 4, 6, 7, 8]
    ensures Run(INITIAL, clicks) == State(DRAW_FULL, false)
  {
    var opening, middle, ending := clicks[..3], clicks[3..6], clicks[6..];
    assert clicks == opening + (middle + ending);
    RunAppend(INITIAL, opening, middle + ending);
    var s3 := Run(INITIAL, opening);
    RunAppend(s3, middle, ending);
    DrawOpening(INITIAL, opening);
    DrawMiddle(s3, middle);
    DrawEnding(Run(s3, middle), ending);
  }

  /** That full board has no completed line, so the game is drawn and over. */
  lemma FullBoardDraw()
    ensures StatusOf(State(DRAW_FULL, false)) == Draw
    ensures GameOver(State(DRAW_FULL, false))
  {
    NoLineUnfolded(DRAW_FULL);
    WinnerNoneIff(DRAW_FULL);
  }

  /** A second click on cell 0 is ignored: cell 0 stays X and O is still to move. */
  lemma SameCellTwice()
    ensures Run(INITIAL, [0, 0]) ==
            State([Some(X), None, None, None, None, None, None, None, None], false)
  {
  }
}
