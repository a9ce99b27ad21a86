/** Model of tic-tac-toe.tsx: the game logic of the host component. The
    component keeps a history of boards, the index of the board on show and
    whose turn it is; squares are clicked, moves are played, the history is
    jumped through and the game is reset. In "vs-ai" mode the computer plays
    O at the cell the search of AiLogic returns, the search itself
    maximising for X. */
module TicTacToe {
  import opened AiLogic

  datatype Option<T> = None | Some(value: T)

  datatype Difficulty = Easy | Medium | Hard

  datatype GameMode = VsAi | VsHuman

  /** The heading of the board: "Winner: m", "It's a Draw!" or
      "Next player: m". */
  datatype Status = Winner(mark: Cell) | Draw | NextPlayer(mark: Cell)

  /** Array(9).fill(null) */
  const EmptyBoard: seq<Cell> := [Empty, Empty, Empty, Empty, Empty, Empty, Empty, Empty, Empty]

  // ---------------------------------------------------------------------
  // The host's own copy of calculateWinner

  /** The eight lines of the host copy, in its scan order. */
  const HostLines: seq<(Square, Square, Square)> :=
    [(0, 1, 2), (3, 4, 5), (6, 7, 8),
     (0, 3, 6), (1, 4, 7), (2, 5, 8),
     (0, 4, 8), (2, 4, 6)]

  function HostWinnerFrom(squares: seq<Cell>, i: nat): (w: Cell)
    requires |squares| == 9 && i <= |HostLines|
    ensures w == AiLogic.WinnerFrom(squares, i)
    decreases |HostLines| - i
  {
    if i == |HostLines| then Empty
    else
      var (a, b, c) := HostLines[i];
      if squares[a] != Empty && squares[a] == squares[b] && squares[a] == squares[c] then squares[a]
      else HostWinnerFrom(squares, i + 1)
  }

  /** calculateWinner of the host file: the same lines in the same order,
      hence the same verdict as the library copy on every board. */
  function CalculateWinner(squares: seq<Cell>): (w: Cell)
    requires |squares| == 9
    ensures w == AiLogic.CalculateWinner(squares)
  {
    HostWinnerFrom(squares, 0)
  }

  // ---------------------------------------------------------------------
  // Board: handleClick and the status line

  /** isDraw: the board is full and has no winner, that is, it is full and
      neither mark owns a line. */
  predicate IsDraw(squares: seq<Cell>): (d: bool)
    requires |squares| == 9
    ensures d <==> Empty !in squares && !HasLine(squares, X) && !HasLine(squares, O)
  {
    Empty !in squares && CalculateWinner(squares) == Empty
  }

  /** The status line of the board. */
  function StatusOf(squares: seq<Cell>, xIsNext: bool): (s: Status)
    requires |squares| == 9
    ensures s.Winner? <==> HasLine(squares, X) || HasLine(squares, O)
    ensures s.Winner? ==> s.mark != Empty && HasLine(squares, s.mark)
    ensures s == Draw <==> IsDraw(squares)
    ensures s.NextPlayer? <==> Empty in squares && !HasLine(squares, X) && !HasLine(squares, O)
    ensures s.NextPlayer? ==> s.mark == (if xIsNext then X else O)
  {
    var winner := CalculateWinner(squares);
    if winner != Empty then Winner(winner)
    else if Empty !in squares then Draw
    else NextPlayer(if xIsNext then X else O)
  }

  /** handleClick(i): None when the click is ignored (a winner exists, the
      square is taken, or the computer is thinking in vs-ai mode); otherwise
      the board handed to onPlay, a copy with the mover's mark at i and
      nothing else changed. */
  function HandleClick(squares: seq<Cell>, xIsNext: bool, gameMode: GameMode, isAiTurn: bool, i: Square)
    : (next: Option<seq<Cell>>)
    requires |squares| == 9
    ensures next.None? <==>
      HasLine(squares, X) || HasLine(squares, O) || squares[i] != Empty || (gameMode == VsAi && isAiTurn)
    ensures next.Some? ==> |next.value| == 9 && next.value[i] == (if xIsNext then X else O)
    ensures next.Some? ==> forall j: Square :: j != i ==> next.value[j] == squares[j]
  {
    if CalculateWinner(squares) != Empty || squares[i] != Empty || (gameMode == VsAi && isAiTurn) then None
    else
      var nextSquares := squares;
      if xIsNext then Some(nextSquares[i := X]) else Some(nextSquares[i := O])
  }

  // ---------------------------------------------------------------------
  // The computer's move

  /** The guard of the first effect in vs-ai mode: O to move, no winner
      and no draw. */
  predicate AiToMove(squares: seq<Cell>, xIsNext: bool)
    requires |squares| == 9
  {
    !xIsNext && CalculateWinner(squares) == Empty && !IsDraw(squares)
  }

  /** squares.slice() */
  method CopyBoard(squares: seq<Cell>) returns (a: array<Cell>)
    ensures fresh(a) && a[..] == squares
  {
    a := new Cell[|squares|](i requires 0 <= i < |squares| => squares[i]);
  }

  /** The move chosen inside the timer of the first effect. The two draws
      of Math.random are parameters: useRandom stands for
      "Math.random() < 0.5" on easy and "Math.random() < 0.2" on medium,
      pick for Math.floor(Math.random() * emptySquares.length). -1 means that
      no move is made. */
  method ChooseAiMove(squares: seq<Cell>, difficulty: Difficulty, useRandom: bool, pick: nat)
    returns (aiMove: int)
    requires |squares| == 9
    requires difficulty != Hard && useRandom && GetEmptySquares(squares) != [] ==> pick < |GetEmptySquares(squares)|
    ensures aiMove == -1 <==> Empty !in squares
    ensures aiMove != -1 ==> 0 <= aiMove < 9 && squares[aiMove] == Empty
    ensures difficulty == Hard || !useRandom ==> aiMove == BestMove(squares)
    ensures difficulty != Hard && useRandom && Empty in squares ==> aiMove == GetEmptySquares(squares)[pick]
  {
    var emptySquares := GetEmptySquares(squares);
    if |emptySquares| == 0 {
      return -1;
    }
    if difficulty == Easy {
      if useRandom {
        aiMove := emptySquares[pick];
        assert aiMove in emptySquares;
      } else {
        var copy := CopyBoard(squares);
        aiMove := FindBestMove(copy);
      }
    } else if difficulty == Medium {
      if useRandom {
        aiMove := emptySquares[pick];
        assert aiMove in emptySquares;
      } else {
        var copy := CopyBoard(squares);
        aiMove := FindBestMove(copy);
      }
    } else {
      var copy := CopyBoard(squares);
      aiMove := FindBestMove(copy);
    }
  }

  /** X X . / O O . / . . X, with O to move. */
  const MissedWinBoard: seq<Cell> := [X, X, Empty, O, O, Empty, Empty, Empty, X]

  /** The search maximises for X while the computer writes O: on a board
      where O completes the middle row at 5, the move returned on hard is 2,
      the cell where X would have won, and O at 2 wins nothing. */
  lemma AiMissesImmediateWin()
    ensures multiset(MissedWinBoard)[X] == multiset(MissedWinBoard)[O] + 1
    ensures BestMove(MissedWinBoard) == 2
    ensures CalculateWinner(MissedWinBoard[5 := O]) == O
    ensures CalculateWinner(MissedWinBoard[2 := O]) == Empty
  {
    MissedWinBoardSearch();
    MissedWinBoardReplies();
  }

  lemma MissedWinBoardSearch()
    ensures BestMove(MissedWinBoard) == 2
  {
    var b := MissedWinBoard;
    assert AiLogic.CalculateWinner(b[2 := X]) == X;
    TakesFirstWinningMove(b, 2);
  }

  lemma MissedWinBoardReplies()
    ensures CalculateWinner(MissedWinBoard[5 := O]) == O
    ensures CalculateWinner(MissedWinBoard[2 := O]) == Empty
  {
    var b := MissedWinBoard;
    assert AiLogic.CalculateWinner(b[5 := O]) == O;
    assert AiLogic.CalculateWinner(b[2 := O]) == Empty;
  }

  // ---------------------------------------------------------------------
  // Histories

  /** The mark of move k: X moves first. */
  function TurnMark(k: nat): Cell
  {
    if k % 2 == 0 then X else O
  }

  /** after is before with mark written into one of its Empty cells. */
  ghost predicate IsMove(before: seq<Cell>, after: seq<Cell>, mark: Cell)
  {
    |before| == 9 && |after| == 9 &&
    exists i: Square :: before[i] == Empty && after == before[i := mark]
  }

  lemma MoveAt(before: seq<Cell>, i: Square, mark: Cell)
    requires |before| == 9 && before[i] == Empty
    ensures IsMove(before, before[i := mark], mark)
  {
  }

  /** A history as play produces it: the empty board, then one board per
      move, X and O alternating from X. */
  ghost predicate WellPlayed(h: seq<seq<Cell>>)
  {
    |h| >= 1 && h[0] == EmptyBoard &&
    forall k :: 0 <= k < |h| - 1 ==> IsMove(h[k], h[k + 1], TurnMark(k))
  }

  /** Board k of a well-played history holds k marks: as many O as X, plus
      one X when k is odd. */
  lemma {:induction false} MarksBalanced(h: seq<seq<Cell>>, k: nat)
    requires WellPlayed(h) && k < |h|
    ensures |h[k]| == 9
    ensures multiset(h[k])[X] == multiset(h[k])[O] + k % 2
    ensures multiset(h[k])[Empty] == 9 - k
  {
    if k == 0 {
      assert h[0] == EmptyBoard;
    } else {
      MarksBalanced(h, k - 1);
      assert IsMove(h[k - 1], h[k], TurnMark(k - 1));
      StepBalanced(h[k - 1], h[k], k - 1);
    }
  }

  /** Move k keeps the balance of MarksBalanced. */
  lemma StepBalanced(before: seq<Cell>, after: seq<Cell>, k: nat)
    requires IsMove(before, after, TurnMark(k))
    requires multiset(before)[X] == multiset(before)[O] + k % 2
    requires multiset(before)[Empty] == 9 - k
    ensures multiset(after)[X] == multiset(after)[O] + (k + 1) % 2
    ensures multiset(after)[Empty] == 9 - (k + 1)
  {
    var i: Square :| before[i] == Empty && after == before[i := TurnMark(k)];
    MoveCounts(before, i, TurnMark(k));
    if k % 2 == 0 {
      assert TurnMark(k) == X && Opponent(X) == O && (k + 1) % 2 == 1;
    } else {
      assert TurnMark(k) == O && Opponent(O) == X && (k + 1) % 2 == 0;
    }
  }

  /** A move adds one mark and removes one Empty cell. */
  lemma MoveCounts(before: seq<Cell>, i: Square, mark: Cell)
    requires |before| == 9 && before[i] == Empty && mark != Empty
    ensures multiset(before[i := mark])[mark] == multiset(before)[mark] + 1
    ensures multiset(before[i := mark])[Opponent(mark)] == multiset(before)[Opponent(mark)]
    ensures multiset(before[i := mark])[Empty] == multiset(before)[Empty] - 1
  {
    assert multiset(before[i := mark]) == multiset(before) - multiset{Empty} + multiset{mark};
  }

  /** A well-played history holds at most ten boards. */
  lemma HistoryBounded(h: seq<seq<Cell>>)
    requires WellPlayed(h)
    ensures |h| <= 10
  {
    MarksBalanced(h, |h| - 1);
  }

  /** While the computer is to move, the board has an Empty cell. */
  lemma OngoingHasEmpty(squares: seq<Cell>, xIsNext: bool)
    requires |squares| == 9 && AiToMove(squares, xIsNext)
    ensures Empty in squares
  {
  }

  // ---------------------------------------------------------------------
  // The component's state

  class Game {
    var history: seq<seq<Cell>>
    var currentMove: nat
    var xIsNext: bool

    /** Every board has nine cells, currentMove indexes the history and X
        is to move exactly on even moves. */
    ghost predicate Valid()
      reads this
    {
      |history| >= 1 && currentMove < |history| &&
      (forall k :: 0 <= k < |history| ==> |history[k]| == 9) &&
      xIsNext == (currentMove % 2 == 0)
    }

    /** history[currentMove] */
    function CurrentSquares(): (s: seq<Cell>)
      reads this
      requires Valid()
      ensures |s| == 9
    {
      history[currentMove]
    }

    /** The initial state of the component. */
    constructor ()
      ensures Valid() && WellPlayed(history)
      ensures history == [EmptyBoard] && currentMove == 0 && xIsNext
    {
      history := [EmptyBoard];
      currentMove := 0;
      xIsNext := true;
    }

    /** handlePlay: drop the boards after the one on show, append the new
        board, show it and pass the turn. */
    method HandlePlay(nextSquares: seq<Cell>)
      requires Valid() && |nextSquares| == 9
      modifies this
      ensures Valid()
      ensures history == old(history[..currentMove + 1]) + [nextSquares]
      ensures currentMove == |history| - 1 == old(currentMove) + 1
      ensures xIsNext == !old(xIsNext)
      ensures old(WellPlayed(history)) && IsMove(old(CurrentSquares()), nextSquares, TurnMark(old(currentMove)))
        ==> WellPlayed(history)
    {
      var nextHistory := history[..currentMove + 1] + [nextSquares];
      history := nextHistory;
      currentMove := |nextHistory| - 1;
      xIsNext := !xIsNext;
    }

    /** jumpTo: show board nextMove; X is to move exactly when nextMove is
        even; the history is kept. */
    method JumpTo(nextMove: nat)
      requires Valid() && nextMove < |history|
      modifies this
      ensures Valid()
      ensures history == old(history)
      ensures currentMove == nextMove
      ensures xIsNext == (nextMove % 2 == 0)
    {
      currentMove := nextMove;
      xIsNext := nextMove % 2 == 0;
    }

    /** resetGame: back to the initial state. */
    method ResetGame()
      modifies this
      ensures Valid() && WellPlayed(history)
      ensures history == [EmptyBoard] && currentMove == 0 && xIsNext
    {
      history := [EmptyBoard];
      currentMove := 0;
      xIsNext := true;
    }

    /** A click on square i of the board on show: handleClick, then
        handlePlay when the click is not ignored. */
    method Click(i: Square, gameMode: GameMode, isAiTurn: bool)
      requires Valid()
      modifies this
      ensures Valid()
      ensures var next := HandleClick(old(CurrentSquares()), old(xIsNext), gameMode, isAiTurn, i);
        if next.None? then
          history == old(history) && currentMove == old(currentMove) && xIsNext == old(xIsNext)
        else
          history == old(history[..currentMove + 1]) + [next.value] &&
          currentMove == old(currentMove) + 1 && xIsNext == !old(xIsNext)
      ensures old(WellPlayed(history)) ==> WellPlayed(history)
    {
      var squares := CurrentSquares();
      var next := HandleClick(squares, xIsNext, gameMode, isAiTurn, i);
      if next.Some? {
        assert next.value == squares[i := TurnMark(currentMove)];
        MoveAt(squares, i, TurnMark(currentMove));
        HandlePlay(next.value);
      }
    }

    /** The computer's turn (vs-ai mode, O to move, no winner, no draw): the
        move of ChooseAiMove, written as O into a copy of the board and
        played. */
    method AiTurn(difficulty: Difficulty, useRandom: bool, pick: nat) returns (aiMove: int)
      requires Valid() && AiToMove(CurrentSquares(), xIsNext)
      requires difficulty != Hard && useRandom ==> pick < |GetEmptySquares(CurrentSquares())|
      modifies this
      ensures Valid()
      ensures 0 <= aiMove < 9 && old(CurrentSquares())[aiMove] == Empty
      ensures difficulty == Hard || !useRandom ==> aiMove == BestMove(old(CurrentSquares()))
      ensures difficulty != Hard && useRandom ==> aiMove == GetEmptySquares(old(CurrentSquares()))[pick]
      ensures history == old(history[..currentMove + 1]) + [old(CurrentSquares())[aiMove := O]]
      ensures currentMove == old(currentMove) + 1 && xIsNext
      ensures old(WellPlayed(history)) ==> WellPlayed(history)
    {
      var squares := CurrentSquares();
      OngoingHasEmpty(squares, xIsNext);
      aiMove := ChooseAiMove(squares, difficulty, useRandom, pick);
      if aiMove != -1 {
        var nextSquares := squares[aiMove := O];
        MoveAt(squares, aiMove, TurnMark(currentMove));
        HandlePlay(nextSquares);
      }
    }
  }
}
