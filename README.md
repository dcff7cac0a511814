# Tic-tac-toe game engine

A Dafny model of the game engine inside the `Home` component
(`src/components/Home.tsx`): a nine-cell board of `"X" | "O" | null` with a
flag saying whether X moves next, the table of eight winning lines, the
winner scan, the draw test, the click handler, the reset button and the
status line. The rendering around it is not modelled.

The model has three modules:

- `TicTacToe` (TicTacToe.dfy) gives the engine as values. `Winner` scans
  `LINES` in table order. `IsDraw` means no winner and a full board. `Play`
  is the click handler as a transition on `State(board, isXNext)`, and `Run`
  applies a sequence of clicks. `StatusOf` is the status line. `Inv` is the
  invariant of every reachable state: marks are balanced against the turn,
  at most one mark has a completed line, and the winner is never the player
  to move. The lemmas prove the properties listed below.
- `Home` (Home.dfy) gives the component's mutable state as the class `Game`.
  It holds an `array<Cell>` of length 9 and the `isXNext` flag. `Move`
  checks the winner and the draw with loops (`CalculateWinner`, `CheckDraw`),
  copies the board into a fresh array, writes the mark and flips the turn.
  `Reset` installs a fresh empty board with X to move. Each method's
  `ensures` ties the new state to `Play` or `INITIAL`, and `Valid()` keeps
  `Inv`.
- `Scenarios` (Scenarios.dfy) plays whole games: a left-column win, a drawn
  full board and a repeated click on one cell.

Three points of the code's behaviour that the model keeps:

- The handler flips `isXNext` on every accepted move (line 39), including the
  move that wins or fills the board, so after a win `isXNext` names the
  losing side. `Play` does the same. `Scenarios.LeftColumnPlay` derives
  `isXNext == false` from the clicks of an X win, and `Scenarios.LeftColumnWin`
  shows that this state has status Won(X) and ignores every further click.
- The handler does no range check on the index. `Game.Move` takes an `Index`
  (0 to 8), which is all the grid passes (lines 72-75).
- The status for a game in progress is "next player" with the mark to move
  (lines 52-56), so `Status` is `Won(m) | Draw | Next(m)`.

## Model

| member | source | states |
|---|---|---|
| TicTacToe.WinnerFrom | src/components/Home.tsx:19-24 | defines the scan of the line table `LINES` (lines 7-16, rows, columns, diagonals, in that order) from entry k on: the first cell's mark of the first line whose first cell is filled and equal to the other two, or None when no line from k on matches |
| TicTacToe.Winner | src/components/Home.tsx:18-25 | defines `calculateWinner`: the scan of `LINES` from its first entry |
| TicTacToe.IsDraw | src/components/Home.tsx:28 | defines `isDraw`: no winner and every one of the nine cells filled |
| TicTacToe.Play | src/components/Home.tsx:30-40 | defines `handleClick` on the value `State(board, isXNext)` (the state of lines 4-5; `INITIAL` is nine empty cells with X to move): ignored when there is a winner, the cell is filled, or the game is drawn; otherwise the mover's mark is written into the cell and `isXNext` is negated |
| TicTacToe.Run | src/components/Home.tsx:30-40 | defines a sequence of clicks handled one after another by `Play` |
| TicTacToe.StatusOf | src/components/Home.tsx:52-56 | defines `getStatusMessage` as a `Status` value: Won(winner) if there is a winner, else Draw if drawn, else Next(X or O according to `isXNext`) |
| TicTacToe.WinnerWitness | src/components/Home.tsx:18-25 | a winner m comes with a line index j whose three cells all hold m, and no line before j in the table matches |
| TicTacToe.FirstMatchWins | src/components/Home.tsx:7-25 | if line j is held by m and no earlier line matches, the winner is m (the first match in table order decides) |
| TicTacToe.WinnerNoneIff | src/components/Home.tsx:18-25 | there is no winner exactly when no line of the table matches |
| TicTacToe.WinnerIsUniqueLineOwner | src/components/Home.tsx:7-25 | when the other mark has no completed line, m is the winner exactly when m has a completed line, and any winner is m |
| TicTacToe.NoLineUnfolded | src/components/Home.tsx:7-16 | "no line matches" is the same as none of the eight listed triples matching |
| TicTacToe.DrawIff | src/components/Home.tsx:28 | a draw is exactly a full board on which no line matches |
| TicTacToe.CountMark | src/components/Home.tsx:36 | writing mark c into an empty cell adds one to the count of c and leaves the other count unchanged |
| TicTacToe.PlayOpen | src/components/Home.tsx:30-40 | on a board with no matching line, a click on an empty cell is accepted: the mover's mark goes into that cell and the turn flips |
| TicTacToe.PlayAccepted | src/components/Home.tsx:34-39 | an accepted click writes X if X is next and O otherwise, leaves every other cell unchanged, and flips the turn |
| TicTacToe.PlayIgnored | src/components/Home.tsx:31-33 | a click leaves board and turn unchanged exactly when there is a winner, a draw, or the cell is occupied |
| TicTacToe.PlayOnlyFills | src/components/Home.tsx:34-38 | a cell that holds a mark keeps it after a click |
| TicTacToe.PlayTwice | src/components/Home.tsx:31-38 | clicking the same cell twice has the effect of clicking it once |
| TicTacToe.RunAppend | src/components/Home.tsx:30-40 | handling two click sequences one after the other is handling their concatenation |
| TicTacToe.RunWhenOver | src/components/Home.tsx:31-33 | once the game is won or drawn, no sequence of clicks changes the state |
| TicTacToe.RunOnlyFills | src/components/Home.tsx:34-38 | over any sequence of clicks, filled cells keep their mark |
| TicTacToe.InitialInv | src/components/Home.tsx:4-5 | the initial state (nine empty cells, X to move) satisfies the invariant and is not over |
| TicTacToe.EmptyInv | src/components/Home.tsx:42-45 | any state with nine empty cells and X to move satisfies the invariant and is not over |
| TicTacToe.CountAbsent | src/components/Home.tsx:4 | a mark found in no cell has count zero |
| TicTacToe.MarkCompletesOnlyOwnLines | src/components/Home.tsx:36 | on a board with no matching line, marking one empty cell with m cannot complete a line for the other mark |
| TicTacToe.PlayKeepsInv | src/components/Home.tsx:30-40 | every click keeps the invariant: X count equals O count when X is next and is one more otherwise, at most one mark has a line, the winner is not the player to move |
| TicTacToe.RunKeepsInv | src/components/Home.tsx:30-40 | every sequence of clicks keeps the invariant |
| TicTacToe.ReachableInv | src/components/Home.tsx:4-5 | every state reachable from the initial state by clicks satisfies the invariant |
| TicTacToe.StatusNextIffPlayable | src/components/Home.tsx:52-56 | the status names a next player exactly when some click would be accepted; when it shows a winner or a draw, every click is ignored |
| TicTacToe.StatusWonIff | src/components/Home.tsx:52-56 | in a reachable state the status is Won(m) exactly when m has a completed line, and then m is not the player to move |
| Home.CalculateWinner | src/components/Home.tsx:18-25 | the loop over the line table with early return computes exactly `Winner` of the array's contents |
| Home.CheckDraw | src/components/Home.tsx:28 | given the winner of the board, the loop over the cells computes exactly `IsDraw` |
| Home.Game.constructor | src/components/Home.tsx:4-5 | a new game has a fresh array of nine empty cells, X to move, and satisfies the invariant |
| Home.Game.Move | src/components/Home.tsx:30-40 | the new state is `Play` of the old one; an accepted click installs a fresh array, an ignored one keeps the old array; the invariant is kept |
| Home.Game.Reset | src/components/Home.tsx:42-45 | whatever the prior state, the game becomes a fresh array of nine empty cells with X to move, equal to the initial state |
| Home.Game.StatusMessage | src/components/Home.tsx:52-56 | the status is the winner if there is one, else draw if drawn, else the player to move |
| Scenarios.LeftColumnPlay | src/components/Home.tsx:30-40 | clicks 0 1 3 4 6 are all accepted: X holds the left column and O is recorded as next, because the winning move flips the turn too |
| Scenarios.LeftColumnWin | src/components/Home.tsx:18-33 | on that board the status is Won(X) and any further click is ignored |
| Scenarios.FullBoardPlay | src/components/Home.tsx:30-40 | clicks 0 2 1 3 5 4 6 7 8 are all accepted and fill the board |
| Scenarios.FullBoardDraw | src/components/Home.tsx:28 | that full board has no completed line, so its status is Draw and the game is over |
| Scenarios.SameCellTwice | src/components/Home.tsx:31-33 | a second click on cell 0 is ignored: cell 0 stays X and O stays next |

## Left out

- Rendering: the grid markup, `aria-label` text, Tailwind classes, and the colour helpers `getSquareColor` and `getStatusColor` (lines 47-50, 58-105). They are presentation only.
- Status text: the emoji and wording of the status strings (lines 53-55). The model has the `Status` datatype instead.
- React hooks: `useState` batching, functional updaters, and `useMemo`/`useCallback` caching. Each click and each reset is one atomic transition. The winner and draw used by the handler are computed from the board it acts on.
- Out-of-range indices: the grid only passes 0 to 8 and the handler has no range check. `Game.Move` takes an `Index`, so the JavaScript array growth on a larger index is not modelled.
- The buttons' `disabled` attribute (line 76): it repeats the handler's own guard at the view level.
