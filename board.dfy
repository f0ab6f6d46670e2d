// The 3x3 board of the game: a `char` grid where ' ' is an empty cell and
// the players' marks are other characters ('X' and 'O' in the program).

module Board {

  const Blank: char := ' '

  /** The nine cells of a board in row-major order: cell (r, c) is at 3 * r + c. */
  type Grid = g: seq<char> | |g| == 9 witness [' ', ' ', ' ', ' ', ' ', ' ', ' ', ' ', ' ']

  const EmptyGrid: Grid := [' ', ' ', ' ', ' ', ' ', ' ', ' ', ' ', ' ']

  /** The program's board type is `char[3][3]`. */
  predicate IsBoard(board: array2<char>)
  {
    board.Length0 == 3 && board.Length1 == 3
  }

  /** The current contents of a board, flattened row by row. */
  function Cells(board: array2<char>): Grid
    reads board
    requires IsBoard(board)
  {
    [board[0, 0], board[0, 1], board[0, 2],
     board[1, 0], board[1, 1], board[1, 2],
     board[2, 0], board[2, 1], board[2, 2]]
  }

  /** Cell (r, c) of the board is element 3 * r + c of its flat view. */
  lemma CellAt(board: array2<char>, r: int, c: int)
    requires IsBoard(board) && 0 <= r < 3 && 0 <= c < 3
    ensures Cells(board)[3 * r + c] == board[r, c]
  {
  }

  /** Number of empty cells; it bounds the number of plies left. */
  function Empties(s: seq<char>): (n: nat)
    ensures n <= |s|
    ensures n == 0 <==> IsFull(s)
  {
    if |s| == 0 then 0 else (if s[0] == Blank then 1 else 0) + Empties(s[1..])
  }

  /** No cell is empty. */
  predicate IsFull(s: seq<char>)
  {
    forall i :: 0 <= i < |s| ==> s[i] != Blank
  }

  /** Some cell among the first n is empty. */
  predicate HasEmptyBelow(s: seq<char>, n: int)
  {
    exists j :: 0 <= j < n && j < |s| && s[j] == Blank
  }

  /** Writing a mark into an empty cell removes exactly one empty cell. */
  lemma {:induction false} PlaceShrinks(s: seq<char>, i: int, p: char)
    requires 0 <= i < |s| && s[i] == Blank && p != Blank
    ensures Empties(s[i := p]) == Empties(s) - 1
  {
    if i == 0 {
      assert s[i := p][1..] == s[1..];
    } else {
      PlaceShrinks(s[1..], i - 1, p);
      assert s[i := p][1..] == s[1..][i - 1 := p];
    }
  }

  /** Sets every cell to ' ', row by row. */
  method ResetBoard(board: array2<char>)
    requires IsBoard(board)
    modifies board
    ensures Cells(board) == EmptyGrid
  {
    for r := 0 to 3
      invariant forall i, j :: 0 <= i < r && 0 <= j < 3 ==> board[i, j] == Blank
    {
      for c := 0 to 3
        invariant forall i, j :: 0 <= i < r && 0 <= j < 3 ==> board[i, j] == Blank
        invariant forall j :: 0 <= j < c ==> board[r, j] == Blank
      {
        board[r, c] := Blank;
      }
    }
  }

  /** The single-cell write `board[r][c] = p` that the search uses both to
      place a mark and to erase it: cell 3 * r + c of the flat view changes
      and nothing else does. */
  method Put(board: array2<char>, r: int, c: int, p: char)
    requires IsBoard(board) && 0 <= r < 3 && 0 <= c < 3
    modifies board
    ensures Cells(board) == old(Cells(board))[3 * r + c := p]
  {
    board[r, c] := p;
  }

  /** A move at (row, col) is valid when it is on the board and the cell is empty.
      The bounds are tested first, so the cell is only read when it exists. */
  function IsMoveValid(g: Grid, row: int, col: int): (ok: bool)
    ensures ok ==> 0 <= row < 3 && 0 <= col < 3 && g[row * 3 + col] == Blank
    ensures ok ==> !IsFull(g) && Empties(g) > 0
  {
    0 <= row && row < 3 && 0 <= col && col < 3 && g[row * 3 + col] == Blank
  }

  /** The (row, col) form agrees with the flat index used by the search, and a
      valid move always has an empty cell to write and shrinks the empty cells. */
  lemma MoveValidFlat(g: Grid, i: int, p: char)
    requires 0 <= i < 9 && p != Blank
    ensures IsMoveValid(g, i / 3, i % 3) <==> g[i] == Blank
    ensures IsMoveValid(g, i / 3, i % 3) ==> Empties(g[i := p]) == Empties(g) - 1
  {
    assert (i / 3) * 3 + i % 3 == i;
    if g[i] == Blank {
      PlaceShrinks(g, i, p);
    }
  }
}
