/** Model of lib/ai-logic.ts: the outcome evaluator and the depth-biased
    minimax search that the computer opponent uses.

    A board is a sequence (or, for the in-place search, an array) of nine
    cells in row-major order:
        0 1 2
        3 4 5
        6 7 8
    The search hardcodes X as the maximising side. */
module AiLogic {

  /** A square: null, "X" or "O". */
  datatype Cell = Empty | X | O

  /** An index into a nine-cell board. */
  type Square = i: int | 0 <= i < 9

  /** The eight winning lines in the order the evaluator scans them:
      three rows, three columns, two diagonals. */
  const Lines: seq<(Square, Square, Square)> :=
    [(0, 1, 2), (3, 4, 5), (6, 7, 8),
     (0, 3, 6), (1, 4, 7), (2, 5, 8),
     (0, 4, 8), (2, 4, 6)]

  /** Stand-ins for Number.NEGATIVE_INFINITY and Number.POSITIVE_INFINITY:
      every score of a nine-cell board lies in [-10, 10] (ScoreBounds). */
  const NegInf: int := -11
  const PosInf: int := 11

  function Max(a: int, b: int): int { if a < b then b else a }
  function Min(a: int, b: int): int { if a < b then a else b }

  // ---------------------------------------------------------------------
  // Outcome evaluator

  /** Line k holds three equal non-null marks. */
  predicate Complete(s: seq<Cell>, k: nat)
    requires |s| == 9 && k < |Lines|
  {
    var (a, b, c) := Lines[k];
    s[a] != Empty && s[a] == s[b] && s[a] == s[c]
  }

  /** Mark m owns some complete line of s. */
  predicate HasLine(s: seq<Cell>, m: Cell)
    requires |s| == 9
  {
    exists k :: 0 <= k < |Lines| && Complete(s, k) && s[Lines[k].0] == m
  }

  /** X and O swapped. */
  function Opponent(m: Cell): Cell
  {
    match m
    case X => O
    case O => X
    case Empty => Empty
  }

  /** The scan of calculateWinner from line i on. */
  function WinnerFrom(squares: seq<Cell>, i: nat): Cell
    requires |squares| == 9 && i <= |Lines|
    decreases |Lines| - i
  {
    if i == |Lines| then Empty
    else if Complete(squares, i) then squares[Lines[i].0]
    else WinnerFrom(squares, i + 1)
  }

  lemma {:induction false} WinnerFromIsFirstComplete(squares: seq<Cell>, i: nat)
    requires |squares| == 9 && i <= |Lines|
    ensures var w := WinnerFrom(squares, i);
      (w == Empty <==> forall k :: i <= k < |Lines| ==> !Complete(squares, k)) &&
      (w != Empty ==>
        exists k :: i <= k < |Lines| && Complete(squares, k) && squares[Lines[k].0] == w &&
          forall j :: i <= j < k ==> !Complete(squares, j))
    decreases |Lines| - i
  {
    if i < |Lines| && !Complete(squares, i) {
      WinnerFromIsFirstComplete(squares, i + 1);
    }
  }

  /** calculateWinner: the mark of the first complete line in scan order,
      or Empty when no line is complete. */
  function CalculateWinner(squares: seq<Cell>): (w: Cell)
    requires |squares| == 9
    ensures w == Empty <==> forall k :: 0 <= k < |Lines| ==> !Complete(squares, k)
    ensures w != Empty ==>
      exists k :: 0 <= k < |Lines| && Complete(squares, k) && squares[Lines[k].0] == w &&
        forall j :: 0 <= j < k ==> !Complete(squares, j)
    ensures w != Empty ==> HasLine(squares, w)
    ensures w == Empty <==> !HasLine(squares, X) && !HasLine(squares, O)
  {
    WinnerFromIsFirstComplete(squares, 0);
    WinnerFrom(squares, 0)
  }

  /** When exactly one mark owns a line, that mark is the winner. */
  lemma SoleOwnerWins(s: seq<Cell>, m: Cell)
    requires |s| == 9 && m != Empty && HasLine(s, m) && !HasLine(s, Opponent(m))
    ensures CalculateWinner(s) == m
  {
    var w := CalculateWinner(s);
    assert w != Empty;
    assert w == X || w == O;
    assert HasLine(s, w);
  }

  // ---------------------------------------------------------------------
  // Empty squares

  /** The indices below n whose cell is Empty, ascending: the
      map-then-filter of getEmptySquares restricted to a prefix. */
  function EmptyBelow(s: seq<Cell>, n: nat): (r: seq<nat>)
    requires n <= |s|
    ensures forall k :: 0 <= k < |r| ==> r[k] < n
    ensures forall i: int :: i in r <==> 0 <= i < n && s[i] == Empty
    ensures forall j, k :: 0 <= j < k < |r| ==> r[j] < r[k]
  {
    if n == 0 then []
    else EmptyBelow(s, n - 1) + (if s[n - 1] == Empty then [n - 1] else [])
  }

  /** getEmptySquares: exactly the indices of the Empty cells, ascending. */
  function GetEmptySquares(board: seq<Cell>): (r: seq<nat>)
    ensures forall i: int :: i in r <==> 0 <= i < |board| && board[i] == Empty
    ensures forall j, k :: 0 <= j < k < |r| ==> r[j] < r[k]
    ensures r == [] <==> Empty !in board
  {
    var r := EmptyBelow(board, |board|);
    assert r != [] ==> r[0] in r;
    r
  }

  /** The number of Empty cells below n. */
  function EmptyCount(s: seq<Cell>, n: nat): (c: nat)
    requires n <= |s|
    ensures c <= n
  {
    if n == 0 then 0 else EmptyCount(s, n - 1) + (if s[n - 1] == Empty then 1 else 0)
  }

  /** The number of Empty cells of a board. */
  function Empties(s: seq<Cell>): nat
  {
    EmptyCount(s, |s|)
  }

  lemma {:induction false} EmptyCountPlace(s: seq<Cell>, n: nat, i: nat, m: Cell)
    requires n <= |s| && i < |s| && s[i] == Empty && m != Empty
    ensures EmptyCount(s[i := m], n) + (if i < n then 1 else 0) == EmptyCount(s, n)
  {
    if n > 0 {
      EmptyCountPlace(s, n - 1, i, m);
    }
  }

  /** Writing a mark into an Empty cell leaves one fewer Empty cell: the
      measure that makes the recursion of minimax well-founded. */
  lemma PlaceRemovesEmpty(s: seq<Cell>, i: nat, m: Cell)
    requires i < |s| && s[i] == Empty && m != Empty
    ensures Empties(s[i := m]) + 1 == Empties(s)
  {
    EmptyCountPlace(s, |s|, i, m);
  }

  lemma {:induction false} EmptyCountIsLength(s: seq<Cell>, n: nat)
    requires n <= |s|
    ensures EmptyCount(s, n) == |EmptyBelow(s, n)|
  {
    if n > 0 {
      EmptyCountIsLength(s, n - 1);
    }
  }

  /** getEmptySquares lists as many indices as the board has Empty cells. */
  lemma EmptySquaresCount(s: seq<Cell>)
    ensures |GetEmptySquares(s)| == Empties(s)
  {
    EmptyCountIsLength(s, |s|);
  }

  // ---------------------------------------------------------------------
  // Minimax scores as functions

  /** The mark the side to move writes: X when maximising, O otherwise. */
  function MarkOf(isMaximizingPlayer: bool): Cell
  {
    if isMaximizingPlayer then X else O
  }

  /** The value minimax(b, depth, isMaximizingPlayer) returns. */
  function MinimaxScore(b: seq<Cell>, depth: int, isMaximizingPlayer: bool): int
    requires |b| == 9
    decreases Empties(b), 1
  {
    var winner := CalculateWinner(b);
    if winner == X then 10 - depth
    else if winner == O then depth - 10
    else if Empty !in b then 0
    else ScanScore(b, depth, isMaximizingPlayer, |b|)
  }

  /** The initial bestScore of the loop for the side to move. */
  function MinimaxSentinel(isMaximizingPlayer: bool): int
  {
    if isMaximizingPlayer then NegInf else PosInf
  }

  /** Combining a running best with one more child score. */
  function Combine(isMaximizingPlayer: bool, best: int, score: int): int
  {
    if isMaximizingPlayer then Max(best, score) else Min(best, score)
  }

  /** bestScore after the loop of minimax has examined cells 0 .. n-1. */
  function ScanScore(b: seq<Cell>, depth: int, isMaximizingPlayer: bool, n: nat): int
    requires |b| == 9 && n <= |b|
    decreases Empties(b), 0, n
  {
    if n == 0 then MinimaxSentinel(isMaximizingPlayer)
    else
      var best := ScanScore(b, depth, isMaximizingPlayer, n - 1);
      if b[n - 1] == Empty then
        PlaceRemovesEmpty(b, n - 1, MarkOf(isMaximizingPlayer));
        var score := MinimaxScore(b[n - 1 := MarkOf(isMaximizingPlayer)], depth + 1, !isMaximizingPlayer);
        Combine(isMaximizingPlayer, best, score)
      else best
  }

  /** The score of the child in which the side to move writes its mark at j. */
  function ChildScore(b: seq<Cell>, depth: int, isMaximizingPlayer: bool, j: Square): int
    requires |b| == 9
  {
    MinimaxScore(b[j := MarkOf(isMaximizingPlayer)], depth + 1, !isMaximizingPlayer)
  }

  /** Some cell below n is Empty. */
  predicate EmptyBefore(b: seq<Cell>, n: nat)
    requires n <= |b|
  {
    exists j :: 0 <= j < n && b[j] == Empty
  }

  /** The search bound: scores stay in [depth - 10, 10 - depth], so in
      [-10, 10] from depth 0, strictly inside the two sentinels. */
  lemma {:induction false} ScoreBounds(b: seq<Cell>, depth: int, isMaximizingPlayer: bool)
    requires |b| == 9 && 0 <= depth && depth + Empties(b) <= 10
    ensures depth - 10 <= MinimaxScore(b, depth, isMaximizingPlayer) <= 10 - depth
    decreases Empties(b), 1
  {
    var winner := CalculateWinner(b);
    if winner == Empty && Empty in b {
      ScanBounds(b, depth, isMaximizingPlayer, |b|);
      var i :| 0 <= i < |b| && b[i] == Empty;
      assert EmptyBefore(b, |b|);
    }
  }

  lemma {:induction false} ScanBounds(b: seq<Cell>, depth: int, isMaximizingPlayer: bool, n: nat)
    requires |b| == 9 && n <= |b| && 0 <= depth && depth + Empties(b) <= 10
    ensures EmptyBefore(b, n) ==> depth - 9 <= ScanScore(b, depth, isMaximizingPlayer, n) <= 9 - depth
    ensures !EmptyBefore(b, n) ==> ScanScore(b, depth, isMaximizingPlayer, n) == MinimaxSentinel(isMaximizingPlayer)
    decreases Empties(b), 0, n
  {
    if n > 0 {
      ScanBounds(b, depth, isMaximizingPlayer, n - 1);
      if b[n - 1] == Empty {
        var m := MarkOf(isMaximizingPlayer);
        PlaceRemovesEmpty(b, n - 1, m);
        ScoreBounds(b[n - 1 := m], depth + 1, !isMaximizingPlayer);
      } else {
        assert EmptyBefore(b, n) ==> EmptyBefore(b, n - 1);
      }
    }
  }

  /** Score s is no better for the side to move than t. */
  predicate NoBetter(isMaximizingPlayer: bool, s: int, t: int)
  {
    if isMaximizingPlayer then s <= t else t <= s
  }

  lemma ScanStep(b: seq<Cell>, depth: int, isMaximizingPlayer: bool, last: Square)
    requires |b| == 9 && b[last] == Empty
    ensures ScanScore(b, depth, isMaximizingPlayer, last + 1) ==
      Combine(isMaximizingPlayer, ScanScore(b, depth, isMaximizingPlayer, last), ChildScore(b, depth, isMaximizingPlayer, last))
  {
  }

  /** Once the loop has met an Empty cell, bestScore is the score of one of
      the children examined so far. */
  lemma {:induction false} ScanAttained(b: seq<Cell>, depth: int, isMaximizingPlayer: bool, n: nat)
    requires |b| == 9 && n <= |b| && 0 <= depth && depth + Empties(b) <= 10
    requires EmptyBefore(b, n)
    ensures exists j: Square :: j < n && b[j] == Empty &&
             ScanScore(b, depth, isMaximizingPlayer, n) == ChildScore(b, depth, isMaximizingPlayer, j)
  {
    var last: Square := n - 1;
    var cur := ScanScore(b, depth, isMaximizingPlayer, n);
    if b[last] == Empty {
      var child := ChildScore(b, depth, isMaximizingPlayer, last);
      var prev := ScanScore(b, depth, isMaximizingPlayer, last);
      ScanStep(b, depth, isMaximizingPlayer, last);
      if EmptyBefore(b, last) {
        ScanAttained(b, depth, isMaximizingPlayer, last);
        if cur != child {
          assert cur == prev;
        }
      } else {
        ChildBounds(b, depth, isMaximizingPlayer, last);
        ScanBounds(b, depth, isMaximizingPlayer, last);
        assert cur == child;
      }
    } else {
      assert EmptyBefore(b, last);
      ScanAttained(b, depth, isMaximizingPlayer, last);
      assert cur == ScanScore(b, depth, isMaximizingPlayer, last);
    }
  }

  /** bestScore is at least as good for the side to move as every child
      examined so far. */
  lemma {:induction false} ScanDominates(b: seq<Cell>, depth: int, isMaximizingPlayer: bool, n: nat)
    requires |b| == 9 && n <= |b|
    ensures forall j: Square :: j < n && b[j] == Empty ==>
      NoBetter(isMaximizingPlayer, ChildScore(b, depth, isMaximizingPlayer, j), ScanScore(b, depth, isMaximizingPlayer, n))
  {
    if n > 0 {
      var last: Square := n - 1;
      ScanDominates(b, depth, isMaximizingPlayer, last);
      if b[last] == Empty {
        ScanStep(b, depth, isMaximizingPlayer, last);
      }
    }
  }

  lemma ChildBounds(b: seq<Cell>, depth: int, isMaximizingPlayer: bool, j: Square)
    requires |b| == 9 && b[j] == Empty && 0 <= depth && depth + Empties(b) <= 10
    ensures depth - 9 <= ChildScore(b, depth, isMaximizingPlayer, j) <= 9 - depth
  {
    PlaceRemovesEmpty(b, j, MarkOf(isMaximizingPlayer));
    ScoreBounds(b[j := MarkOf(isMaximizingPlayer)], depth + 1, !isMaximizingPlayer);
  }

  /** On an ongoing board, minimax returns the maximum (maximising turn) or
      the minimum (minimising turn) of its children's scores, and that value
      is the score of some child. */
  lemma MinimaxIsExtremum(b: seq<Cell>, depth: int, isMaximizingPlayer: bool)
    requires |b| == 9 && 0 <= depth && depth + Empties(b) <= 10
    requires CalculateWinner(b) == Empty && Empty in b
    ensures exists j: Square :: b[j] == Empty &&
             MinimaxScore(b, depth, isMaximizingPlayer) == ChildScore(b, depth, isMaximizingPlayer, j)
    ensures forall j: Square :: b[j] == Empty ==>
      NoBetter(isMaximizingPlayer, ChildScore(b, depth, isMaximizingPlayer, j), MinimaxScore(b, depth, isMaximizingPlayer))
  {
    var i :| 0 <= i < |b| && b[i] == Empty;
    assert EmptyBefore(b, |b|);
    ScanAttained(b, depth, isMaximizingPlayer, |b|);
    ScanDominates(b, depth, isMaximizingPlayer, |b|);
  }

  /** The terminal scores, stated through line ownership: 10 - depth when
      only X owns a line, depth - 10 when only O does, 0 on a full board
      without lines. */
  lemma TerminalScores(b: seq<Cell>, depth: int, isMaximizingPlayer: bool)
    requires |b| == 9
    ensures HasLine(b, X) && !HasLine(b, O) ==> MinimaxScore(b, depth, isMaximizingPlayer) == 10 - depth
    ensures HasLine(b, O) && !HasLine(b, X) ==> MinimaxScore(b, depth, isMaximizingPlayer) == depth - 10
    ensures !HasLine(b, X) && !HasLine(b, O) && Empty !in b ==> MinimaxScore(b, depth, isMaximizingPlayer) == 0
  {
    if HasLine(b, X) && !HasLine(b, O) {
      SoleOwnerWins(b, X);
    }
    if HasLine(b, O) && !HasLine(b, X) {
      SoleOwnerWins(b, O);
    }
  }

  // ---------------------------------------------------------------------
  // Minimax and findBestMove, in place

  /** minimax: explores by writing a mark into board and erasing it again;
      returns the score and leaves the board as it found it. */
  method Minimax(board: array<Cell>, depth: int, isMaximizingPlayer: bool) returns (score: int)
    requires board.Length == 9
    modifies board
    ensures board[..] == old(board[..])
    ensures score == MinimaxScore(old(board[..]), depth, isMaximizingPlayer)
    decreases Empties(board[..])
  {
    var winner := CalculateWinner(board[..]);
    if winner == X {
      return 10 - depth;
    } else if winner == O {
      return depth - 10;
    } else if Empty !in board[..] {
      return 0;
    }
    ghost var b := board[..];
    if isMaximizingPlayer {
      var bestScore := NegInf;
      for i := 0 to board.Length
        invariant board[..] == b
        invariant bestScore == ScanScore(b, depth, true, i)
      {
        if board[i] == Empty {
          board[i] := X;
          assert board[..] == b[i := X];
          PlaceRemovesEmpty(b, i, X);
          var s := Minimax(board, depth + 1, false);
          board[i] := Empty;
          assert board[..] == b;
          bestScore := Max(bestScore, s);
        }
      }
      return bestScore;
    } else {
      var bestScore := PosInf;
      for i := 0 to board.Length
        invariant board[..] == b
        invariant bestScore == ScanScore(b, depth, false, i)
      {
        if board[i] == Empty {
          board[i] := O;
          assert board[..] == b[i := O];
          PlaceRemovesEmpty(b, i, O);
          var s := Minimax(board, depth + 1, true);
          board[i] := Empty;
          assert board[..] == b;
          bestScore := Min(bestScore, s);
        }
      }
      return bestScore;
    }
  }

  /** The score findBestMove gives cell i: X written there, then minimax at
      depth 0 on the minimising turn. */
  function MoveScore(b: seq<Cell>, i: Square): int
    requires |b| == 9
  {
    MinimaxScore(b[i := X], 0, false)
  }

  /** (bestScore, bestMove) after the loop of findBestMove has examined
      cells 0 .. n-1. */
  function BestUpTo(b: seq<Cell>, n: nat): (int, int)
    requires |b| == 9 && n <= |b|
  {
    if n == 0 then (NegInf, -1)
    else
      var (bestScore, bestMove) := BestUpTo(b, n - 1);
      if b[n - 1] == Empty then
        var score := MoveScore(b, n - 1);
        if score > bestScore then (score, n - 1) else (bestScore, bestMove)
      else (bestScore, bestMove)
  }

  lemma {:induction false} BestUpToIsFirstMaximum(b: seq<Cell>, n: nat)
    requires |b| == 9 && n <= |b|
    ensures BestUpTo(b, n).1 == -1 <==> !EmptyBefore(b, n)
    ensures BestUpTo(b, n).1 == -1 ==> BestUpTo(b, n).0 == NegInf
    ensures BestUpTo(b, n).1 != -1 ==>
      var (s, m) := BestUpTo(b, n);
      0 <= m < n && b[m] == Empty && s == MoveScore(b, m) &&
      (forall j: Square :: j < n && b[j] == Empty ==> MoveScore(b, j) <= s) &&
      (forall j: Square :: j < m && b[j] == Empty ==> MoveScore(b, j) < s)
  {
    if n > 0 {
      BestUpToIsFirstMaximum(b, n - 1);
      var last: Square := n - 1;
      if b[last] == Empty {
        PlaceRemovesEmpty(b, last, X);
        ScoreBounds(b[last := X], 0, false);
      } else {
        assert EmptyBefore(b, n) ==> EmptyBefore(b, last);
      }
    }
  }

  /** The move findBestMove returns: -1 exactly when the board is full,
      otherwise an Empty cell whose score is the greatest, and the lowest
      such cell (every Empty cell before it scores strictly less). */
  function BestMove(b: seq<Cell>): (m: int)
    requires |b| == 9
    ensures m == -1 <==> Empty !in b
    ensures m != -1 ==> 0 <= m < 9 && b[m] == Empty
    ensures m != -1 ==> forall j: Square :: b[j] == Empty ==> MoveScore(b, j) <= MoveScore(b, m)
    ensures m != -1 ==> forall j: Square :: j < m && b[j] == Empty ==> MoveScore(b, j) < MoveScore(b, m)
  {
    BestUpToIsFirstMaximum(b, |b|);
    assert EmptyBefore(b, |b|) <==> Empty in b by {
      if Empty in b {
        var i :| 0 <= i < |b| && b[i] == Empty;
      }
    }
    BestUpTo(b, |b|).1
  }

  /** findBestMove: tries X in every Empty cell; leaves the board as it
      found it. */
  method FindBestMove(board: array<Cell>) returns (bestMove: int)
    requires board.Length == 9
    modifies board
    ensures board[..] == old(board[..])
    ensures bestMove == BestMove(old(board[..]))
    ensures bestMove == -1 <==> Empty !in old(board[..])
    ensures bestMove != -1 ==> 0 <= bestMove < 9 && old(board[bestMove]) == Empty
  {
    ghost var b := board[..];
    var bestScore := NegInf;
    bestMove := -1;
    for i := 0 to board.Length
      invariant board[..] == b
      invariant (bestScore, bestMove) == BestUpTo(b, i)
    {
      if board[i] == Empty {
        board[i] := X;
        assert board[..] == b[i := X];
        var score := Minimax(board, 0, false);
        board[i] := Empty;
        assert board[..] == b;
        if score > bestScore {
          bestScore := score;
          bestMove := i;
        }
      }
    }
  }

  // ---------------------------------------------------------------------
  // What the search does on boards with an immediate threat

  /** A line of mark p survives writing some other mark at j, and a line of
      p that exists after the write existed before it. */
  lemma LineSurvives(s: seq<Cell>, j: Square, m: Cell, p: Cell)
    requires |s| == 9 && p != m
    ensures HasLine(s[j := m], p) ==> HasLine(s, p)
  {
    if HasLine(s[j := m], p) {
      var k :| 0 <= k < |Lines| && Complete(s[j := m], k) && s[j := m][Lines[k].0] == p;
      assert Complete(s, k) && s[Lines[k].0] == p;
    }
  }

  lemma LineKept(s: seq<Cell>, j: Square, m: Cell, p: Cell)
    requires |s| == 9 && s[j] != p
    ensures HasLine(s, p) ==> HasLine(s[j := m], p)
  {
    if HasLine(s, p) {
      var k :| 0 <= k < |Lines| && Complete(s, k) && s[Lines[k].0] == p;
      assert Complete(s[j := m], k) && s[j := m][Lines[k].0] == p;
    }
  }

  /** At depth 0 on the minimising turn the score is 10 exactly when X
      has already won: any other position scores at most 9. */
  lemma ImmediateWinScore(c: seq<Cell>)
    requires |c| == 9
    ensures MinimaxScore(c, 0, false) == 10 <==> CalculateWinner(c) == X
  {
    if CalculateWinner(c) == Empty && Empty in c {
      MinimaxIsExtremum(c, 0, false);
      var j: Square :| c[j] == Empty && MinimaxScore(c, 0, false) == ChildScore(c, 0, false, j);
      ChildBounds(c, 0, false, j);
    }
  }

  /** When X can complete a line, findBestMove returns the lowest cell
      that does so. */
  lemma TakesFirstWinningMove(b: seq<Cell>, j: Square)
    requires |b| == 9 && b[j] == Empty && CalculateWinner(b[j := X]) == X
    requires forall i: Square :: i < j && b[i] == Empty ==> CalculateWinner(b[i := X]) != X
    ensures BestMove(b) == j
  {
    var r := BestMove(b);
    assert MoveScore(b, j) == 10;
    PlaceRemovesEmpty(b, r, X);
    ScoreBounds(b[r := X], 0, false);
    ImmediateWinScore(b[r := X]);
  }

  /** On the maximising turn at depth 1, a position O has not won scores
      at least -8. */
  lemma DepthOneNoLoss(e: seq<Cell>)
    requires |e| == 9 && CalculateWinner(e) != O
    ensures MinimaxScore(e, 1, true) >= -8
  {
    if CalculateWinner(e) == Empty && Empty in e {
      MinimaxIsExtremum(e, 1, true);
      var g: Square :| e[g] == Empty && MinimaxScore(e, 1, true) == ChildScore(e, 1, true, g);
      ChildBounds(e, 1, true, g);
    }
  }

  lemma UpdatesCommute(s: seq<Cell>, i: Square, a: Cell, j: Square, m: Cell)
    requires |s| == 9 && i != j
    ensures s[i := a][j := m] == s[j := m][i := a]
  {
  }

  /** Writing m where it completes no line of m keeps an open board open. */
  lemma StillOpen(b: seq<Cell>, j: Square, m: Cell)
    requires |b| == 9 && CalculateWinner(b) == Empty && m != Empty && !HasLine(b[j := m], m)
    ensures CalculateWinner(b[j := m]) == Empty
  {
    LineSurvives(b, j, m, Opponent(m));
  }

  /** O's threat at k still wins after X writes elsewhere. */
  lemma ThreatStands(b: seq<Cell>, k: Square, j: Square)
    requires |b| == 9 && b[j] == Empty && j != k && !HasLine(b[j := X], X)
    requires HasLine(b[k := O], O)
    ensures CalculateWinner(b[j := X][k := O]) == O
  {
    UpdatesCommute(b, k, O, j, X);
    LineKept(b[k := O], j, X, O);
    LineSurvives(b[j := X], k, O, X);
    SoleOwnerWins(b[j := X][k := O], O);
  }

  /** Writing X anywhere but O's only winning cell k lets O win next ply. */
  lemma UnblockedLoses(b: seq<Cell>, k: Square, j: Square)
    requires |b| == 9 && CalculateWinner(b) == Empty
    requires b[j] == Empty && j != k && !HasLine(b[j := X], X)
    requires b[k] == Empty && HasLine(b[k := O], O)
    ensures MoveScore(b, j) <= -9
  {
    var c := b[j := X];
    StillOpen(b, j, X);
    assert c[k] == Empty;
    MinimaxIsExtremum(c, 0, false);
    ThreatStands(b, k, j);
    assert ChildScore(c, 0, false, k) == -9;
  }

  /** After X blocks k, no reply of O completes a line. */
  lemma ReplyOpen(b: seq<Cell>, k: Square, c: Square)
    requires |b| == 9 && CalculateWinner(b) == Empty
    requires b[k] == Empty && !HasLine(b[k := X], X)
    requires b[c] == Empty && c != k && !HasLine(b[c := O], O)
    ensures CalculateWinner(b[k := X][c := O]) != O
  {
    StillOpen(b, k, X);
    UpdatesCommute(b, c, O, k, X);
    LineSurvives(b[c := O], k, X, O);
  }

  /** Writing X on O's only winning cell k leaves O no win next ply. */
  lemma BlockHolds(b: seq<Cell>, k: Square)
    requires |b| == 9 && CalculateWinner(b) == Empty
    requires b[k] == Empty && !HasLine(b[k := X], X)
    requires forall j: Square :: j != k && b[j] == Empty ==> !HasLine(b[j := O], O)
    ensures MoveScore(b, k) >= -8
  {
    var d := b[k := X];
    StillOpen(b, k, X);
    if Empty in d {
      MinimaxIsExtremum(d, 0, false);
      var c: Square :| d[c] == Empty && MinimaxScore(d, 0, false) == ChildScore(d, 0, false, c);
      ReplyOpen(b, k, c);
      DepthOneNoLoss(d[c := O]);
    }
  }

  /** When X cannot complete a line and O threatens to complete one at
      exactly one cell k, findBestMove returns k. */
  lemma BlocksSingleThreat(b: seq<Cell>, k: Square)
    requires |b| == 9 && CalculateWinner(b) == Empty
    requires forall j: Square :: b[j] == Empty ==> !HasLine(b[j := X], X)
    requires b[k] == Empty && HasLine(b[k := O], O)
    requires forall j: Square :: j != k && b[j] == Empty ==> !HasLine(b[j := O], O)
    ensures BestMove(b) == k
  {
    var r := BestMove(b);
    BlockHolds(b, k);
    if r != k {
      UnblockedLoses(b, k, r);
      assert false;
    }
  }

  /** X X . / O O . / . . . with X to search: cell 2 completes the top row. */
  lemma WinScenario()
    ensures BestMove([X, X, Empty, O, O, Empty, Empty, Empty, Empty]) == 2
  {
    var b := [X, X, Empty, O, O, Empty, Empty, Empty, Empty];
    assert CalculateWinner(b[2 := X]) == X;
    TakesFirstWinningMove(b, 2);
  }

  /** A board whose scan finds no complete line has no line of either mark. */
  lemma NoLineOnOpenBoard(s: seq<Cell>)
    requires |s| == 9 && WinnerFrom(s, 0) == Empty
    ensures !HasLine(s, X) && !HasLine(s, O)
  {
    assert CalculateWinner(s) == Empty;
  }

  /** O O . / X . . / . . . */
  const ThreatBoard: seq<Cell> := [O, O, Empty, X, Empty, Empty, Empty, Empty, Empty]

  lemma ThreatBoardNoXWin(j: Square)
    requires ThreatBoard[j] == Empty
    ensures !HasLine(ThreatBoard[j := X], X)
  {
    if j <= 5 {
      ThreatBoardNoXWinLow(j);
    } else {
      ThreatBoardNoXWinHigh(j);
    }
  }

  lemma ThreatBoardNoXWinLow(j: Square)
    requires ThreatBoard[j] == Empty && j <= 5
    ensures !HasLine(ThreatBoard[j := X], X)
  {
    var b := ThreatBoard;
    if j == 2 { NoLineOnOpenBoard(b[2 := X]); }
    else if j == 4 { NoLineOnOpenBoard(b[4 := X]); }
    else { NoLineOnOpenBoard(b[5 := X]); }
  }

  lemma ThreatBoardNoXWinHigh(j: Square)
    requires ThreatBoard[j] == Empty && j > 5
    ensures !HasLine(ThreatBoard[j := X], X)
  {
    var b := ThreatBoard;
    if j == 6 { NoLineOnOpenBoard(b[6 := X]); }
    else if j == 7 { NoLineOnOpenBoard(b[7 := X]); }
    else { NoLineOnOpenBoard(b[8 := X]); }
  }

  lemma ThreatBoardSingleThreat(j: Square)
    requires ThreatBoard[j] == Empty && j != 2
    ensures !HasLine(ThreatBoard[j := O], O)
  {
    var b := ThreatBoard;
    if j == 4 { NoLineOnOpenBoard(b[4 := O]); }
    else if j == 5 { NoLineOnOpenBoard(b[5 := O]); }
    else if j == 6 { NoLineOnOpenBoard(b[6 := O]); }
    else if j == 7 { NoLineOnOpenBoard(b[7 := O]); }
    else { NoLineOnOpenBoard(b[8 := O]); }
  }

  /** With X to search on O O . / X . . / . . ., cell 2 blocks the top row. */
  lemma BlockScenario()
    ensures BestMove(ThreatBoard) == 2
  {
    var b := ThreatBoard;
    assert CalculateWinner(b) == Empty;
    forall j: Square | b[j] == Empty
      ensures !HasLine(b[j := X], X)
    {
      ThreatBoardNoXWin(j);
    }
    forall j: Square | j != 2 && b[j] == Empty
      ensures !HasLine(b[j := O], O)
    {
      ThreatBoardSingleThreat(j);
    }
    assert CalculateWinner(b[2 := O]) == O;
    BlocksSingleThreat(b, 2);
  }
}
