# Tic-tac-toe engine: board, outcome checks and minimax search

This project models the game engine of a terminal tic-tac-toe program
(`src/main.cpp`). It does not model the menus, the input handling or the
scoreboard. The parts modelled are:

- **Board** (`board.dfy`). The board is the program's `char[3][3]`, kept as a
  Dafny `array2<char>`. A blank `' '` marks an empty cell. `Cells(board)` is a
  pure view of the board: the nine cells in row-major order (a `Grid`), so cell
  (r, c) is flat index `3 * r + c`, as in the program's `i / 3`, `i % 3`.
  - `ResetBoard` blanks every cell, row by row.
  - `IsMoveValid` checks the bounds, then checks that the cell is empty.
  - `Put` is the single write `board[r][c] = p` that the search uses to place
    and to erase a mark.
- **Outcome** (`outcome.dfy`). `Wins(g, p)` is the reference definition of a
  win: `p` holds all three cells of one of the eight lines (3 rows, 3 columns,
  2 diagonals). `HasWinner` is proved against it. `HasWinner` is a method with
  the program's loops: rows, then columns, then the two diagonals. `IsDraw` is
  the program's nested scan for an empty cell, and it is proved to answer
  exactly "the board is full". As in the program, `IsDraw` ignores lines, so a
  full board with a completed line is also a "draw". This is why the search
  tests for wins first.
- **Search** (`search.dfy`). `MinimaxScore` is the score the program computes:
  - `10 - depth` if the computer has a line;
  - `depth - 10` if the opponent has a line;
  - `0` for a full board;
  - otherwise the maximum (computer to move) or the minimum (opponent to move)
    over the empty cells, folded from the `INT_MIN` / `INT_MAX` seed in
    ascending index order (`BestOver`).

  `Minimax` is the program's recursive, in-place search. It writes a mark,
  recurses one ply deeper and erases the mark. It is proved to return
  `MinimaxScore` of the board it was given and to leave the board exactly as it
  found it. It terminates because each recursive call has one empty cell fewer.
  `GetBestMoveMinimax` is the program's root scan. It scores each empty cell
  (with the opponent to move and depth 0) and keeps the first strictly greater
  score. It is proved equal to `BestMoveOf` and to leave the board unchanged.
  Lemmas then characterise both functions:
  - scores lie in `[depth - 10, 10 - depth]`, so the seeds are never returned;
  - a non-terminal node scores the true maximum or minimum of its children;
  - the top score means an immediate win, and the bottom score an immediate loss;
  - the chosen move is `-1` exactly on a full board; otherwise it is a valid,
    best-scoring move and the lowest such index;
  - an immediately winning cell is always taken.

The marks must differ from `' '`, which is what `Marks(cpu, human)` requires.
This follows the marks the program documents for the search, `'X'` or `'O'`
(src/main.cpp:104). The search could recurse forever only when both marks are
blank, and then only on some boards. With exactly one blank mark, the other
side's writes still use up cells and the search ends; the model excludes that
case too (see "## Left out").

The lemmas about scores require `0 <= depth` and `depth + Empties(g) <= 10` (9 for the
top/bottom-score lemmas). The program meets both: it starts at depth 0 on a
child of the current board, which has at most 8 empty cells.

Integers are unbounded here. In the program, `depth` and the scores stay
within `[-10, 10]` on every call it makes, so the 32-bit `int` never overflows.
The only place 32-bit width shows is the two seeds, which are written out as
`IntMin` and `IntMax`.

The program's behaviour differs in one way from a natural reading of "draw":
`isDraw` only tests that the board is full. The model follows the code, and
`FullDoesNotExcludeWin` shows a full board that is won and still counts as a
draw.

## Model

| member | source | states |
|---|---|---|
| `Board.ResetBoard` | src/main.cpp:35-40 | afterwards all nine cells are `' '`; only the board is written |
| `Board.Put` | src/main.cpp:123-125 | one write changes exactly one cell of the board's flat view, and nothing else |
| `Board.IsMoveValid` | src/main.cpp:68-71 | a valid move has `0 <= row < 3` and `0 <= col < 3` (the bounds are tested before the cell is read) and cell (row, col) is `' '`, so the board is not full |
| `Board.MoveValidFlat` | src/main.cpp:68-71 | for a flat index 0..8, `isMoveValid(i / 3, i % 3)` holds iff that cell is empty; a valid move then removes exactly one empty cell |
| `Board.Empties` | src/main.cpp:92-99 | the number of empty cells is at most the board size, and it is zero iff no cell is `' '` |
| `Board.PlaceShrinks` | src/main.cpp:121-125 | writing a non-blank mark into an empty cell lowers the empty-cell count by exactly one (the search's termination measure) |
| `Outcome.Line` | src/main.cpp:76-87 | the eight lines are triples of distinct in-range cells, evenly spaced |
| `Outcome.HasWinner` | src/main.cpp:74-89 | the row/column/diagonal scan answers true iff the player holds all three cells of some line; it only reads the board |
| `Outcome.IsDraw` | src/main.cpp:92-99 | the nested scan answers true iff no cell is `' '` (equivalently, zero empty cells); lines are not considered |
| `Outcome.FullDoesNotExcludeWin` | src/main.cpp:92-99 | a full board on which 'X' has a line still counts as full, so it is a "draw" unless wins are tested first |
| `Outcome.FullWithoutLine` | src/main.cpp:74-99 | the full board X O X / X O O / O X X is full and won by neither mark |
| `Search.Minimax` | src/main.cpp:106-145 | the in-place search returns `MinimaxScore` of the board it was given, and leaves every cell as it found it |
| `Search.BestOverFacts` | src/main.cpp:115-144 | the running best is the seed until an empty cell is seen; after that it bounds every child score seen, equals one of them, and lies in `[depth - 9, 9 - depth]` |
| `Search.ScoreBounds` | src/main.cpp:106-145 | every score lies in `[depth - 10, 10 - depth]`, and strictly inside it when the game is not over, so it is never `INT_MIN`/`INT_MAX` |
| `Search.MinimaxIsOptimal` | src/main.cpp:115-144 | when the game is not over, the score is the maximum (computer to move) or minimum (opponent to move) of the children's scores: all children are bounded by it and one attains it |
| `Search.TopScoreIffWon` | src/main.cpp:108-109 | a score of `10 - depth` is reached iff the computer already has a line, so quicker wins score higher |
| `Search.BottomScoreIffLost` | src/main.cpp:110-111 | a score of `depth - 10` is reached iff the opponent has a line and the computer does not |
| `Search.ScanFacts` | src/main.cpp:151-167 | after scanning cells 0..n-1 the kept move is -1 iff none was empty; otherwise it is an empty cell whose score is the kept value, no scanned empty cell scores more, and every earlier empty cell scores strictly less |
| `Search.BestMoveIsOptimal` | src/main.cpp:149-169 | the chosen move is -1 iff the board is full; otherwise it is a valid move with the greatest score, and the lowest index with that score |
| `Search.ImmediateWinIsChosen` | src/main.cpp:153-165 | if some empty cell completes a line for the computer, the lowest such cell is chosen |
| `Search.TopRowWinScenario` | src/main.cpp:149-169 | on X X _ / _ O _ / _ _ O with X to move, the chosen move is 2 |
| `Search.GetBestMoveMinimax` | src/main.cpp:149-169 | the root scan returns `BestMoveOf` of the board it was given (so -1 iff the board is full, otherwise a valid move) and leaves the board unchanged |

## Left out

- Marks: the search is modelled only for marks other than `' '`. Calls with exactly one blank mark, on which the program's search still terminates, are not modelled.
- `clearInput`, `printBoard`, `readCellSelection` and `main`: console input and output, the interactive menu and the game loop. The turn-taking loop and the code that applies a human move live there and are not modelled.
- The match state machine (in progress / won / drawn) is not modelled. It lives in the game loop in `main`.
- The random computer move (`<random>`) is not modelled; it is a nondeterministic library call.
- The scoreboard saved to `scoreboard.txt` is not modelled; it is file I/O.
- Claims about the whole game tree are not proved. These include "optimal play against optimal play always draws" and "on the empty board the chosen move is 0". Proving them means evaluating the whole tree from the empty board, which is far beyond what the verifier can unfold. The model states the search's rules, not the values they produce on the full tree.
- 32-bit overflow of `depth` and of the scores is not modelled, because on every call the program makes they stay within `[-10, 10]`.
