// Outcome evaluation: does a mark own a whole line, and is the board full.

module Outcome {
  import opened Board

  /** The eight winning lines as triples of flat indices:
      k = 0..2 the rows, k = 3..5 the columns, 6 and 7 the two diagonals. */
  function Line(k: int): (t: (int, int, int))
    requires 0 <= k < 8
    ensures 0 <= t.0 < 9 && 0 <= t.1 < 9 && 0 <= t.2 < 9
    ensures t.0 < t.1 < t.2 && t.1 - t.0 == t.2 - t.1
  {
    if k < 3 then (3 * k, 3 * k + 1, 3 * k + 2)
    else if k < 6 then (k - 3, k, k + 3)
    else if k == 6 then (0, 4, 8)
    else (2, 4, 6)
  }

  /** Mark p occupies all three cells of line k. */
  predicate Owns(g: Grid, p: char, k: int)
    requires 0 <= k < 8
  {
    var t := Line(k);
    g[t.0] == p && g[t.1] == p && g[t.2] == p
  }

  /** Mark p has three in a row somewhere: a row, a column or a diagonal. */
  predicate Wins(g: Grid, p: char)
  {
    exists k :: 0 <= k < 8 && Owns(g, p, k)
  }

  /** Scans the rows, then the columns, then the two diagonals, and answers
      whether `player` owns one of them. The board is only read. */
  method HasWinner(board: array2<char>, player: char) returns (won: bool)
    requires IsBoard(board)
    ensures won <==> Wins(Cells(board), player)
  {
    ghost var g := Cells(board);
    for i := 0 to 3
      invariant forall k :: 0 <= k < i ==> !Owns(g, player, k)
    {
      if board[i, 0] == player && board[i, 1] == player && board[i, 2] == player {
        assert Owns(g, player, i);
        return true;
      }
    }
    for i := 0 to 3
      invariant forall k :: 0 <= k < 3 + i ==> !Owns(g, player, k)
    {
      if board[0, i] == player && board[1, i] == player && board[2, i] == player {
        assert Owns(g, player, 3 + i);
        return true;
      }
    }
    if board[0, 0] == player && board[1, 1] == player && board[2, 2] == player {
      assert Owns(g, player, 6);
      return true;
    }
    if board[0, 2] == player && board[1, 1] == player && board[2, 0] == player {
      assert Owns(g, player, 7);
      return true;
    }
    assert !Owns(g, player, 6) && !Owns(g, player, 7);
    return false;
  }

  /** Answers whether no cell is empty. It looks at nothing else: a full board
      on which a line is complete is reported as a draw as well. */
  method IsDraw(board: array2<char>) returns (full: bool)
    requires IsBoard(board)
    ensures full <==> IsFull(Cells(board))
    ensures full <==> Empties(Cells(board)) == 0
  {
    ghost var g := Cells(board);
    for r := 0 to 3
      invariant forall k :: 0 <= k < 3 * r ==> g[k] != Blank
    {
      for c := 0 to 3
        invariant forall k :: 0 <= k < 3 * r + c ==> g[k] != Blank
      {
        if board[r, c] == Blank {
          assert g[3 * r + c] == Blank;
          return false;
        }
      }
    }
    return true;
  }

  /** Being full says nothing about lines: this full board is a win for 'X'
      (top row) and still full, so the search must test wins before fullness. */
  lemma FullDoesNotExcludeWin()
    ensures var g: Grid := ['X', 'X', 'X', 'O', 'O', 'X', 'X', 'O', 'O'];
      IsFull(g) && Wins(g, 'X') && !Wins(g, 'O')
  {
    var g: Grid := ['X', 'X', 'X', 'O', 'O', 'X', 'X', 'O', 'O'];
    assert Owns(g, 'X', 0);
    forall k | 0 <= k < 8 ensures !Owns(g, 'O', k) {
    }
  }

  /** A full board where no line is complete: X O X / X O O / O X X. */
  lemma FullWithoutLine()
    ensures var g: Grid := ['X', 'O', 'X', 'X', 'O', 'O', 'O', 'X', 'X'];
      IsFull(g) && !Wins(g, 'X') && !Wins(g, 'O')
  {
    var g: Grid := ['X', 'O', 'X', 'X', 'O', 'O', 'O', 'X', 'X'];
    forall k | 0 <= k < 8 ensures !Owns(g, 'X', k) && !Owns(g, 'O', k) {
    }
  }
}
