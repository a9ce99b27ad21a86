# Tic-tac-toe with a minimax opponent, in Dafny

This project models the game logic of a browser tic-tac-toe game. A
human plays either another human or a computer opponent. The computer
picks its move with an exhaustive, depth-biased minimax search.

Two modules follow the two source files:

- `AiLogic` (`AiLogic.dfy`) models `lib/ai-logic.ts`. It covers:
  - the outcome evaluator `calculateWinner`;
  - `getEmptySquares`;
  - the recursive `minimax`, which works in place on the board array
    (marks are written in and taken back);
  - `findBestMove`.

  The in-place search is modelled as methods over `array<Cell>`. Each one
  is proved to give the board back unchanged and to return the value of
  a specification function of the board (`MinimaxScore`, `BestMove`).
  Lemmas then prove what the search promises:
  - score bounds;
  - that, on a board with no winner and an Empty cell (with `0 <= depth`
    and depth plus the Empty cells at most 10), the score is the best
    child score for the side to move;
  - the terminal scores;
  - that the move is legal and the first maximum in index order;
  - that it takes an immediate win and blocks a single threat.
- `TicTacToe` (`TicTacToe.dfy`) models `tic-tac-toe.tsx`. It covers:
  - the host's own copy of `calculateWinner`, proved equal to the
    library's;
  - the board's `handleClick` and its status line;
  - the draw test;
  - the computer's difficulty policy, with the random draws passed in as
    parameters;
  - the component state as a class `Game`, whose fields are `history`,
    `currentMove` and `xIsNext`. Its methods are `HandlePlay`, `JumpTo`,
    `ResetGame`, a click (`Click`) and the computer's turn (`AiTurn`).

  A history produced by play (`WellPlayed`) is proved to keep the marks
  balanced and to hold at most ten boards. The constructor and `ResetGame`
  establish that property, and `Click` and `AiTurn` preserve it
  unconditionally. `JumpTo` keeps the history as it is. `HandlePlay`
  preserves the property when the new board is a move of the mark whose
  turn it is.

The search always maximises for X, but the host writes the computer's
move as O. The model keeps this as written. `TicTacToe.AiMissesImmediateWin`
shows the consequence on one concrete board.

A cell is `Empty`, `X` or `O`; `Empty` stands for `null`. A board has nine
cells in row-major order. Every board the application builds has nine
cells. The evaluator, the search and the host operations therefore
require a board of length 9. `GetEmptySquares` and the Empty-cell
counting (`EmptyBelow`, `EmptyCount`, `PlaceRemovesEmpty`) accept a
sequence of any length.

## Model

| member | source | states |
|---|---|---|
| AiLogic.CalculateWinner | lib/ai-logic.ts:5-23 | Empty exactly when no line is complete; otherwise the owner of the first complete line in scan order (rows, columns, diagonals), so the winner owns a line; Empty exactly when neither mark owns a line |
| AiLogic.WinnerFrom | lib/ai-logic.ts:16-22 | the scan loop from line i; no contract of its own, its meaning is given by WinnerFromIsFirstComplete and NoLineOnOpenBoard |
| AiLogic.WinnerFromIsFirstComplete | lib/ai-logic.ts:16-22 | the scan from line i returns Empty iff no line from i on is complete, otherwise the mark of the first complete line at or after i |
| AiLogic.SoleOwnerWins | lib/ai-logic.ts:5-23 | when one mark owns a line and the other owns none, the evaluator names that mark |
| AiLogic.GetEmptySquares | lib/ai-logic.ts:86-88 | the result holds exactly the indices of the Empty cells, in strictly ascending order, and is empty exactly when no cell is Empty |
| AiLogic.EmptyBelow | lib/ai-logic.ts:86-88 | the filtered indices below n: all below n, exactly the Empty cells below n, strictly ascending |
| AiLogic.EmptySquaresCount | lib/ai-logic.ts:86-88 | the list of empty squares is as long as the number of Empty cells |
| AiLogic.EmptyCountIsLength | lib/ai-logic.ts:86-88 | the count of Empty cells below n equals the length of the filtered prefix |
| AiLogic.EmptyCountPlace | lib/ai-logic.ts:44-47 | writing a mark into an Empty cell below n lowers the count below n by one and leaves it alone otherwise |
| AiLogic.PlaceRemovesEmpty | lib/ai-logic.ts:44-46 | a move removes exactly one Empty cell, so the recursion of minimax terminates |
| AiLogic.MinimaxScore | lib/ai-logic.ts:26-65 | the value minimax returns; no contract of its own, characterised by TerminalScores, MinimaxIsExtremum and ScoreBounds, and tied to the in-place search by Minimax |
| AiLogic.ScanScore | lib/ai-logic.ts:42-62 | the running bestScore of the two loops (lines 42-50 and 54-62) after cells 0 to n-1; no contract of its own, characterised by ScanStep, ScanBounds, ScanAttained and ScanDominates |
| AiLogic.ScoreBounds | lib/ai-logic.ts:26-65 | for depth >= 0 with depth plus the Empty cells at most 10, the score lies in [depth-10, 10-depth], so the infinity sentinels never survive |
| AiLogic.ScanBounds | lib/ai-logic.ts:40-64 | a loop prefix that met an Empty cell holds a value in [depth-9, 9-depth]; one that met none still holds the starting infinity |
| AiLogic.ScanStep | lib/ai-logic.ts:43-49 | one Empty cell updates the running best by Math.max for the maximiser and by Math.min for the minimiser |
| AiLogic.ScanAttained | lib/ai-logic.ts:40-64 | a loop prefix that met an Empty cell holds the score of one of the children it visited |
| AiLogic.ScanDominates | lib/ai-logic.ts:40-64 | no child in a loop prefix beats the running best for the side to move |
| AiLogic.ChildBounds | lib/ai-logic.ts:44-47 | the score of a child lies in [depth-9, 9-depth] |
| AiLogic.MinimaxIsExtremum | lib/ai-logic.ts:40-64 | on an undecided board with an Empty cell, the score is the score of some child, and no child scores better for the side to move (max for X, min for O) |
| AiLogic.TerminalScores | lib/ai-logic.ts:27-38 | a board won by X scores 10-depth, one won by O scores depth-10, a full board with no line scores 0 |
| AiLogic.Minimax | lib/ai-logic.ts:26-65 | the in-place search gives the board back unchanged and returns the score of the specification function |
| AiLogic.MoveScore | lib/ai-logic.ts:73-75 | the score findBestMove gets for X at cell i; no contract of its own, its bounds come from BlockHolds, UnblockedLoses and ImmediateWinScore |
| AiLogic.BestUpTo | lib/ai-logic.ts:68-82 | the pair (bestScore, bestMove) of the findBestMove loop after cells 0 to n-1; no contract of its own, characterised by BestUpToIsFirstMaximum |
| AiLogic.BestUpToIsFirstMaximum | lib/ai-logic.ts:68-82 | after the first n cells the loop holds -1 and the sentinel when it met no Empty cell; otherwise a legal cell whose score it holds, at least every visited score and strictly above every earlier one |
| AiLogic.BestMove | lib/ai-logic.ts:67-84 | -1 exactly on a full board; otherwise an Empty cell whose score is maximal over all Empty cells and strictly above every Empty cell before it (the first maximum, from the strict comparison) |
| AiLogic.FindBestMove | lib/ai-logic.ts:67-84 | the in-place loop gives the board back unchanged, returns BestMove of the board, returns -1 exactly on a full board and otherwise a legal Empty cell |
| AiLogic.LineSurvives | lib/ai-logic.ts:5-23 | writing one mark cannot give the other mark a line |
| AiLogic.LineKept | lib/ai-logic.ts:5-23 | writing over a cell not owned by p keeps every line of p |
| AiLogic.ImmediateWinScore | lib/ai-logic.ts:29-31 | a move scores 10 exactly when it wins for X at once |
| AiLogic.TakesFirstWinningMove | lib/ai-logic.ts:67-84 | when X can win at once, the search returns the first such cell |
| AiLogic.DepthOneNoLoss | lib/ai-logic.ts:26-65 | a board not won by O scores at least -8 at depth 1 |
| AiLogic.StillOpen | lib/ai-logic.ts:5-23 | a move that makes no line of its own keeps an undecided board undecided |
| AiLogic.ThreatStands | lib/ai-logic.ts:5-23 | if O threatens at k and X plays elsewhere without winning, O wins by playing k |
| AiLogic.UnblockedLoses | lib/ai-logic.ts:52-64 | a non-winning X move that leaves an O threat open scores at most -9 |
| AiLogic.ReplyOpen | lib/ai-logic.ts:5-23 | after X blocks at k, an O reply with no line of its own does not win |
| AiLogic.BlockHolds | lib/ai-logic.ts:52-64 | blocking the only O threat scores at least -8 |
| AiLogic.BlocksSingleThreat | lib/ai-logic.ts:67-84 | when X cannot win at once and O has exactly one winning cell, the search returns that cell |
| AiLogic.WinScenario | lib/ai-logic.ts:67-84 | on X X . / O O . / . . . the search returns 2 |
| AiLogic.NoLineOnOpenBoard | lib/ai-logic.ts:16-22 | if the scan finds no complete line, neither mark owns one |
| AiLogic.ThreatBoardNoXWin | lib/ai-logic.ts:5-23 | on O O . / X . . / . . . no X move wins at once |
| AiLogic.ThreatBoardNoXWinLow | lib/ai-logic.ts:5-23 | the same for the cells 0 to 5 |
| AiLogic.ThreatBoardNoXWinHigh | lib/ai-logic.ts:5-23 | the same for the cells 6 to 8 |
| AiLogic.ThreatBoardSingleThreat | lib/ai-logic.ts:5-23 | on that board O wins at once only at 2 |
| AiLogic.BlockScenario | lib/ai-logic.ts:67-84 | on O O . / X . . / . . . the search returns 2, the block |
| TicTacToe.HostWinnerFrom | tic-tac-toe.tsx:351-357 | the host's scan from line i agrees with the library's scan on every board |
| TicTacToe.CalculateWinner | tic-tac-toe.tsx:340-358 | the host copy of the evaluator returns the same mark as the library copy on every board |
| TicTacToe.IsDraw | tic-tac-toe.tsx:133 | a draw exactly when the board is full and neither mark owns a line |
| TicTacToe.StatusOf | tic-tac-toe.tsx:64-72 | "Winner" exactly when some mark owns a line, and the named mark owns one; "Draw" exactly on a draw; "Next player" exactly when the board is open and undecided, naming X when xIsNext and O otherwise |
| TicTacToe.HandleClick | tic-tac-toe.tsx:51-62 | the click is ignored exactly when a line is complete, the square is taken, or the computer is to move in vs-ai mode; otherwise onPlay gets a nine-cell copy with the mover's mark at i and every other cell unchanged |
| TicTacToe.AiToMove | tic-tac-toe.tsx:136 | the guard of the computer's turn without its vs-ai test: O to move (xIsNext false), no winner and no draw; no contract of its own, OngoingHasEmpty shows that it implies an Empty cell |
| TicTacToe.ChooseAiMove | tic-tac-toe.tsx:140-162 | -1 exactly on a full board, otherwise an Empty cell; on hard, or when the coin says search, the move of findBestMove; on easy or medium when the coin says random, the picked entry of the empty squares |
| TicTacToe.CopyBoard | tic-tac-toe.tsx:152 | squares.slice() gives a fresh array with the same cells |
| TicTacToe.AiMissesImmediateWin | tic-tac-toe.tsx:161-166 | on X X . / O O . / . . X with O to move (one more X than O), the search returns 2 although O wins at 5, and O written at 2 wins nothing |
| TicTacToe.MissedWinBoardSearch | lib/ai-logic.ts:67-84 | the search returns 2 on that board |
| TicTacToe.MissedWinBoardReplies | tic-tac-toe.tsx:340-358 | O at 5 wins on that board; O at 2 does not |
| TicTacToe.MoveAt | tic-tac-toe.tsx:55-60 | writing a mark into an Empty cell of a nine-cell board is a move |
| TicTacToe.MarksBalanced | tic-tac-toe.tsx:181-186 | board k of a well-played history has nine cells, as many X as O plus one X when k is odd, and exactly 9-k Empty cells |
| TicTacToe.StepBalanced | tic-tac-toe.tsx:181-186 | move k, with X on even k and O on odd k, carries the balance of board k over to board k+1 |
| TicTacToe.MoveCounts | tic-tac-toe.tsx:55-60 | a move adds one of the mover's marks, leaves the other mark's count alone and removes one Empty cell |
| TicTacToe.HistoryBounded | tic-tac-toe.tsx:181-186 | a well-played history holds at most ten boards |
| TicTacToe.OngoingHasEmpty | tic-tac-toe.tsx:136-146 | while the computer is to move, the board has an Empty cell, so the early return for no empty squares does not happen |
| TicTacToe.Game.CurrentSquares | tic-tac-toe.tsx:131 | the board on show has nine cells |
| TicTacToe.Game.constructor | tic-tac-toe.tsx:121-123 | the history is the single empty board, move 0 is shown and X is to move; the state is well-played |
| TicTacToe.Game.HandlePlay | tic-tac-toe.tsx:181-186 | the boards after the one on show are dropped and the new board appended; the new board is shown and the turn passes; a well-played history stays well-played when the new board is a move of the right mark |
| TicTacToe.Game.JumpTo | tic-tac-toe.tsx:188-192 | the history is kept, board nextMove is shown, and X is to move exactly when nextMove is even |
| TicTacToe.Game.ResetGame | tic-tac-toe.tsx:194-200 | back to the single empty board, move 0 and X to move |
| TicTacToe.Game.Click | tic-tac-toe.tsx:51-62 | an ignored click changes nothing; otherwise the board from handleClick is played as by handlePlay; a well-played history stays well-played |
| TicTacToe.Game.AiTurn | tic-tac-toe.tsx:135-170 | the computer plays a legal cell, the one from the difficulty policy, written as O into a copy of the board on show and played as by handlePlay; afterwards X is to move and a well-played history stays well-played |

## Left out

- Rendering is not modelled: JSX, styling, the theme toggle, the confetti effect, the result dialog (`showResultDialog`) and the history buttons. None of them affects the game logic.
- The 700 ms timer, its cancellation, and the React effect and state-update machinery are not modelled. `AiTurn` models one run of the timer's callback, and `Click` is a method of the component rather than of the separate Board component.
- `isAiThinking` is not a field. The board receives it as `isAiTurn`, so it is a parameter of `HandleClick` and `Click`. The game mode and difficulty are passed in the same way.
- `Math.random` is replaced by two parameters: `useRandom` stands for the comparison with 0.5 (easy) or 0.2 (medium), and `pick` stands for the random index. The probabilities themselves are not modelled.
- `Number.NEGATIVE_INFINITY` and `Number.POSITIVE_INFINITY` are modelled as -11 and 11.
  - The model differs from the source only when every child of a node scores beyond the stand-in: below -11 with X to move, or above 11 with O to move. The model then returns -11 or 11, where the source returns the best child score.
  - A score beyond [-11, 11] needs a node depth below -1 or above 21. That needs depth < -1, or depth plus the Empty cells > 21.
  - The application calls `minimax` only from `findBestMove`, at depth 0 on a board that already holds its X, so depth plus the Empty cells is at most 8 and stays constant down the recursion. `ScoreBounds` shows every such score lies in [-10, 10].
- Boards of any length other than nine are not modelled. The application only builds nine-cell boards.
- There is no whole-game optimality result, such as "the search never loses from the empty board". It would need an exhaustive playout of the game tree, which is far beyond what the verifier can check. The tactical lemmas (`TakesFirstWinningMove`, `BlocksSingleThreat`) and the concrete scenarios cover the local promises instead.
- TicTacToe.Game.JumpTo: it requires `nextMove` to index the history. The source does not check this; its only callers are the history buttons, which pass existing indices.
- TicTacToe.Game.AiTurn: it requires the AI guard (O to move, no winner, no draw) and, on the random path of easy or medium, a `pick` inside the empty-square list. These are the conditions under which the source's effect runs, and the range of the random index it draws only on that path. With an Empty cell always present, the `-1` branch of the source cannot occur, and the model proves that.
- The search's X/O asymmetry is kept as the source has it. The search maximises for X, but the host plays the result as O. `TicTacToe.AiMissesImmediateWin` shows the consequence, and no corrected search is modelled.
