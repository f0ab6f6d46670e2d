// Exhaustive minimax search for the computer player ("cpu"): a score for a
// board, and the move that the computer picks from the board's empty cells.

module Search {
  import opened Board
  import opened Outcome

  /** std::numeric_limits<int>::min() and max() for a 32-bit int: the seeds of
      the running maximum and minimum. */
  const IntMin: int := -2147483648
  const IntMax: int := 2147483647

  /** The marks are the program's 'X' and 'O', so neither is ' '. With both
      marks blank the search could recurse forever on the same board; the
      model also excludes the case where only one of them is blank. */
  predicate Marks(cpu: char, human: char)
  {
    cpu != Blank && human != Blank
  }

  /** The match is over on this board: one side has a line or no cell is left. */
  predicate Terminal(g: Grid, cpu: char, human: char)
  {
    Wins(g, cpu) || Wins(g, human) || IsFull(g)
  }

  function Mover(isMax: bool, cpu: char, human: char): char
  {
    if isMax then cpu else human
  }

  function Max(a: int, b: int): int { if a < b then b else a }
  function Min(a: int, b: int): int { if b < a then b else a }

  /** The score minimax gives to board g, `depth` plies below the position the
      search started from; `isMax` says the computer is to move. */
  function MinimaxScore(g: Grid, isMax: bool, cpu: char, human: char, depth: int): int
    requires Marks(cpu, human)
    decreases Empties(g), 1, 0
  {
    if Wins(g, cpu) then 10 - depth
    else if Wins(g, human) then depth - 10
    else if IsFull(g) then 0
    else BestOver(g, isMax, cpu, human, depth, 9)
  }

  /** The score of the child reached by writing the mover's mark into the
      empty cell i. */
  function ChildScore(g: Grid, i: int, isMax: bool, cpu: char, human: char, depth: int): int
    requires Marks(cpu, human)
    requires 0 <= i < 9 && g[i] == Blank
    decreases Empties(g), 0, 0
  {
    PlaceShrinks(g, i, Mover(isMax, cpu, human));
    MinimaxScore(g[i := Mover(isMax, cpu, human)], !isMax, cpu, human, depth + 1)
  }

  /** The running best after the loop has looked at cells 0 .. n-1: the seed
      (INT_MIN for the maximiser, INT_MAX for the minimiser) combined with the
      score of every empty cell among them. */
  function BestOver(g: Grid, isMax: bool, cpu: char, human: char, depth: int, n: int): int
    requires Marks(cpu, human)
    requires 0 <= n <= 9
    decreases Empties(g), 0, n
  {
    if n == 0 then (if isMax then IntMin else IntMax)
    else
      var acc := BestOver(g, isMax, cpu, human, depth, n - 1);
      if g[n - 1] != Blank then acc
      else if isMax then Max(acc, ChildScore(g, n - 1, isMax, cpu, human, depth))
      else Min(acc, ChildScore(g, n - 1, isMax, cpu, human, depth))
  }

  /** One turn of the search loop: an occupied cell leaves the running best
      alone, an empty one folds in the score v of its child. */
  lemma BestOverStep(g: Grid, isMax: bool, cpu: char, human: char, depth: int, i: int, v: int)
    requires Marks(cpu, human)
    requires 0 <= i < 9 && g[i] == Blank
    requires v == MinimaxScore(g[i := Mover(isMax, cpu, human)], !isMax, cpu, human, depth + 1)
    ensures BestOver(g, isMax, cpu, human, depth, i + 1) ==
      if isMax then Max(BestOver(g, isMax, cpu, human, depth, i), v)
      else Min(BestOver(g, isMax, cpu, human, depth, i), v)
  {
    assert v == ChildScore(g, i, isMax, cpu, human, depth);
  }

  /** Scores stay within 10 - depth of zero, and a position where the game goes
      on scores strictly inside that range; in particular no score is ever
      the INT_MIN or INT_MAX seed. */
  lemma {:induction false} ScoreBounds(g: Grid, isMax: bool, cpu: char, human: char, depth: int)
    requires Marks(cpu, human)
    requires 0 <= depth && depth + Empties(g) <= 10
    ensures depth - 10 <= MinimaxScore(g, isMax, cpu, human, depth) <= 10 - depth
    ensures !Terminal(g, cpu, human) ==>
      depth - 9 <= MinimaxScore(g, isMax, cpu, human, depth) <= 9 - depth
    decreases Empties(g), 1, 0
  {
    if !Terminal(g, cpu, human) {
      BestOverFacts(g, isMax, cpu, human, depth, 9);
      assert HasEmptyBelow(g, 9);
    }
  }

  /** What the loop's running best is: the seed when no empty cell has been
      seen yet, and otherwise the maximum (minimum) of the scores seen, which
      is one of them. */
  lemma {:induction false} BestOverFacts(g: Grid, isMax: bool, cpu: char, human: char, depth: int, n: int)
    requires Marks(cpu, human)
    requires 0 <= depth && depth + Empties(g) <= 10
    requires 0 <= n <= 9
    ensures !HasEmptyBelow(g, n) ==>
      BestOver(g, isMax, cpu, human, depth, n) == (if isMax then IntMin else IntMax)
    ensures HasEmptyBelow(g, n) ==>
      depth - 9 <= BestOver(g, isMax, cpu, human, depth, n) <= 9 - depth
    ensures HasEmptyBelow(g, n) ==>
      exists j :: 0 <= j < n && g[j] == Blank &&
        BestOver(g, isMax, cpu, human, depth, n) == ChildScore(g, j, isMax, cpu, human, depth)
    ensures forall j :: 0 <= j < n && g[j] == Blank ==>
      if isMax then ChildScore(g, j, isMax, cpu, human, depth) <= BestOver(g, isMax, cpu, human, depth, n)
      else BestOver(g, isMax, cpu, human, depth, n) <= ChildScore(g, j, isMax, cpu, human, depth)
    decreases Empties(g), 0, n
  {
    if n > 0 {
      BestOverFacts(g, isMax, cpu, human, depth, n - 1);
      if g[n - 1] == Blank {
        var p := Mover(isMax, cpu, human);
        PlaceShrinks(g, n - 1, p);
        ScoreBounds(g[n - 1 := p], !isMax, cpu, human, depth + 1);
        assert HasEmptyBelow(g, n);
      } else {
        assert HasEmptyBelow(g, n) == HasEmptyBelow(g, n - 1);
      }
    }
  }

  /** At a position where the game goes on, the maximiser's score is the
      largest of its children's scores and the minimiser's the smallest:
      every child is bounded by it and some child attains it. */
  lemma MinimaxIsOptimal(g: Grid, isMax: bool, cpu: char, human: char, depth: int)
    requires Marks(cpu, human)
    requires 0 <= depth && depth + Empties(g) <= 10
    requires !Terminal(g, cpu, human)
    ensures var s := MinimaxScore(g, isMax, cpu, human, depth);
      (forall j :: 0 <= j < 9 && g[j] == Blank ==>
        if isMax then ChildScore(g, j, isMax, cpu, human, depth) <= s
        else s <= ChildScore(g, j, isMax, cpu, human, depth)) &&
      (exists j :: 0 <= j < 9 && g[j] == Blank && s == ChildScore(g, j, isMax, cpu, human, depth))
  {
    BestOverFacts(g, isMax, cpu, human, depth, 9);
    assert HasEmptyBelow(g, 9);
  }

  /** The best score a board can get, 10 - depth, comes only from a line the
      computer already owns: a win further down the tree scores less, which is
      how the search prefers the quickest win. */
  lemma TopScoreIffWon(g: Grid, isMax: bool, cpu: char, human: char, depth: int)
    requires Marks(cpu, human)
    requires 0 <= depth && depth + Empties(g) <= 9
    ensures MinimaxScore(g, isMax, cpu, human, depth) == 10 - depth <==> Wins(g, cpu)
  {
    ScoreBounds(g, isMax, cpu, human, depth);
  }

  /** Mirror image: the worst score, depth - 10, comes only from a line the
      opponent already owns (and the computer does not). */
  lemma BottomScoreIffLost(g: Grid, isMax: bool, cpu: char, human: char, depth: int)
    requires Marks(cpu, human)
    requires 0 <= depth && depth + Empties(g) <= 9
    ensures MinimaxScore(g, isMax, cpu, human, depth) == depth - 10 <==>
      !Wins(g, cpu) && Wins(g, human)
  {
    ScoreBounds(g, isMax, cpu, human, depth);
  }

  /** Scores a board the way the program does: a line for the computer, a line
      for the opponent, a full board, and otherwise every empty cell in turn,
      writing the mover's mark, scoring the child one ply deeper and erasing
      the mark again. The board is left as it was found. */
  method Minimax(board: array2<char>, isMax: bool, cpu: char, human: char, depth: int)
      returns (best: int)
    requires IsBoard(board) && Marks(cpu, human)
    modifies board
    ensures Cells(board) == old(Cells(board))
    ensures best == MinimaxScore(old(Cells(board)), isMax, cpu, human, depth)
    decreases Empties(Cells(board))
  {
    var won := HasWinner(board, cpu);
    if won {
      return 10 - depth;
    }
    won := HasWinner(board, human);
    if won {
      return depth - 10;
    }
    var full := IsDraw(board);
    if full {
      return 0;
    }
    ghost var g := Cells(board);
    assert MinimaxScore(g, isMax, cpu, human, depth) == BestOver(g, isMax, cpu, human, depth, 9);
    if isMax {
      best := IntMin;
      for i := 0 to 9
        invariant Cells(board) == g
        invariant best == BestOver(g, true, cpu, human, depth, i)
      {
        var r, c := i / 3, i % 3;
        CellAt(board, r, c);
        assert 3 * r + c == i;
        if board[r, c] == Blank {
          Put(board, r, c, cpu);
          PlaceShrinks(g, i, cpu);
          var v := Minimax(board, false, cpu, human, depth + 1);
          BestOverStep(g, true, cpu, human, depth, i, v);
          best := Max(best, v);
          Put(board, r, c, Blank);
          assert g[i := cpu][i := Blank] == g;
        }
      }
    } else {
      best := IntMax;
      for i := 0 to 9
        invariant Cells(board) == g
        invariant best == BestOver(g, false, cpu, human, depth, i)
      {
        var r, c := i / 3, i % 3;
        CellAt(board, r, c);
        assert 3 * r + c == i;
        if board[r, c] == Blank {
          Put(board, r, c, human);
          PlaceShrinks(g, i, human);
          var v := Minimax(board, true, cpu, human, depth + 1);
          BestOverStep(g, false, cpu, human, depth, i, v);
          best := Min(best, v);
          Put(board, r, c, Blank);
          assert g[i := human][i := Blank] == g;
        }
      }
    }
  }

  /** The score of the computer's candidate move i, as the program evaluates
      it: the child is scored with the opponent to move and depth 0. */
  function RootScore(g: Grid, i: int, cpu: char, human: char): int
    requires Marks(cpu, human)
    requires 0 <= i < 9 && g[i] == Blank
  {
    MinimaxScore(g[i := cpu], false, cpu, human, 0)
  }

  /** (bestVal, bestMove) after the scan has looked at cells 0 .. n-1: a move
      replaces the current one only when its score is strictly greater. */
  function Scan(g: Grid, cpu: char, human: char, n: int): (int, int)
    requires Marks(cpu, human)
    requires 0 <= n <= 9
  {
    if n == 0 then (IntMin, -1)
    else
      var acc := Scan(g, cpu, human, n - 1);
      if g[n - 1] == Blank && RootScore(g, n - 1, cpu, human) > acc.0 then
        (RootScore(g, n - 1, cpu, human), n - 1)
      else acc
  }

  /** The move the computer picks on board g. */
  function BestMoveOf(g: Grid, cpu: char, human: char): int
    requires Marks(cpu, human)
  {
    Scan(g, cpu, human, 9).1
  }

  /** The scan keeps no move while it has seen no empty cell, and otherwise
      the lowest-indexed empty cell among those seen with the greatest score. */
  lemma {:induction false} ScanFacts(g: Grid, cpu: char, human: char, n: int)
    requires Marks(cpu, human)
    requires 0 <= n <= 9
    ensures var (v, m) := Scan(g, cpu, human, n);
      (m == -1 <==> !HasEmptyBelow(g, n)) &&
      (m == -1 ==> v == IntMin) &&
      (m != -1 ==>
        0 <= m < n && g[m] == Blank && v == RootScore(g, m, cpu, human) &&
        (forall j :: 0 <= j < n && g[j] == Blank ==> RootScore(g, j, cpu, human) <= v) &&
        (forall j :: 0 <= j < m && g[j] == Blank ==> RootScore(g, j, cpu, human) < v))
  {
    if n > 0 {
      ScanFacts(g, cpu, human, n - 1);
      if g[n - 1] == Blank {
        PlaceShrinks(g, n - 1, cpu);
        ScoreBounds(g[n - 1 := cpu], false, cpu, human, 0);
        assert HasEmptyBelow(g, n);
      } else {
        assert HasEmptyBelow(g, n) == HasEmptyBelow(g, n - 1);
      }
    }
  }

  /** The computer's move: -1 exactly when the board is full; otherwise a
      valid move whose score no other empty cell beats, and the lowest such
      index, every empty cell before it scoring strictly less. */
  lemma BestMoveIsOptimal(g: Grid, cpu: char, human: char)
    requires Marks(cpu, human)
    ensures var m := BestMoveOf(g, cpu, human);
      (m == -1 <==> IsFull(g)) &&
      (m != -1 ==>
        0 <= m < 9 && IsMoveValid(g, m / 3, m % 3) &&
        (forall j :: 0 <= j < 9 && g[j] == Blank ==> RootScore(g, j, cpu, human) <= RootScore(g, m, cpu, human)) &&
        (forall j :: 0 <= j < m && g[j] == Blank ==> RootScore(g, j, cpu, human) < RootScore(g, m, cpu, human)))
  {
    ScanFacts(g, cpu, human, 9);
    var m := BestMoveOf(g, cpu, human);
    if IsFull(g) {
      assert !HasEmptyBelow(g, 9);
    } else {
      assert HasEmptyBelow(g, 9);
    }
    if m != -1 {
      MoveValidFlat(g, m, cpu);
    }
  }

  /** When some empty cell completes a line for the computer, the computer
      plays the lowest such cell. */
  lemma ImmediateWinIsChosen(g: Grid, cpu: char, human: char, i: int)
    requires Marks(cpu, human)
    requires 0 <= i < 9 && g[i] == Blank && Wins(g[i := cpu], cpu)
    requires forall j :: 0 <= j < i && g[j] == Blank ==> !Wins(g[j := cpu], cpu)
    ensures BestMoveOf(g, cpu, human) == i
  {
    BestMoveIsOptimal(g, cpu, human);
    var m := BestMoveOf(g, cpu, human);
    assert !IsFull(g);
    assert RootScore(g, i, cpu, human) == 10;
    PlaceShrinks(g, m, cpu);
    ScoreBounds(g[m := cpu], false, cpu, human, 0);
    TopScoreIffWon(g[m := cpu], false, cpu, human, 0);
    assert RootScore(g, m, cpu, human) == 10;
    assert Wins(g[m := cpu], cpu);
  }

  /** X X _ / _ O _ / _ _ O with X to move: the computer completes the top row. */
  lemma TopRowWinScenario()
    ensures BestMoveOf(['X', 'X', ' ', ' ', 'O', ' ', ' ', ' ', 'O'], 'X', 'O') == 2
  {
    var g: Grid := ['X', 'X', ' ', ' ', 'O', ' ', ' ', ' ', 'O'];
    assert Owns(g[2 := 'X'], 'X', 0);
    ImmediateWinIsChosen(g, 'X', 'O', 2);
  }

  /** Picks the computer's move: every empty cell in ascending order gets the
      computer's mark, is scored by Minimax with the opponent to move, and is
      erased again; the first strictly better score wins, and -1 means no
      empty cell. The board is left as it was found. */
  method GetBestMoveMinimax(board: array2<char>, cpu: char, human: char) returns (bestMove: int)
    requires IsBoard(board) && Marks(cpu, human)
    modifies board
    ensures Cells(board) == old(Cells(board))
    ensures bestMove == BestMoveOf(old(Cells(board)), cpu, human)
    ensures bestMove == -1 <==> IsFull(Cells(board))
    ensures bestMove != -1 ==> IsMoveValid(Cells(board), bestMove / 3, bestMove % 3)
  {
    ghost var g := Cells(board);
    var bestVal := IntMin;
    bestMove := -1;
    for i := 0 to 9
      invariant Cells(board) == g
      invariant (bestVal, bestMove) == Scan(g, cpu, human, i)
    {
      var r, c := i / 3, i % 3;
      CellAt(board, r, c);
      assert 3 * r + c == i;
      if board[r, c] == Blank {
        Put(board, r, c, cpu);
        var val := Minimax(board, false, cpu, human, 0);
        Put(board, r, c, Blank);
        assert g[i := cpu][i := Blank] == g;
        if val > bestVal {
          bestVal := val;
          bestMove := i;
        }
      }
    }
    BestMoveIsOptimal(g, cpu, human);
  }
}
