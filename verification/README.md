# Tic-tac-toe engine in Dafny

A model of the engine of a console tic-tac-toe game in which a human (X) plays the
computer (O) on an n-by-n board. It covers three parts of the program, and each is
proved to keep the promises the program makes.

- **Board** (`board.dfy`, with `rules.dfy`, `linescan.dfy` and `grid.dfy`). The grid
  is a flat sequence of optional marks, and cell (row, col) sits at position
  `row + n*col`. The model covers guarded placement, clearing, the open-slot listing
  and its count, the full-board test, the win/draw detector `checkFinished`, the
  cached `winner` field with `whoWon`/`getWinner`, `clone` and `getSize`.
  - `checkFinished` walks its index loops: contiguous runs, strided runs, the main
    diagonal, then the anti-diagonal. Each loop is modelled as a *probe* (start, step,
    limit) and proved to test exactly one geometric line.
  - The detector is therefore proved to report the owner of the first complete line
    in scan order.
- **Alpha-beta minimax** (`minimax.dfy`). `Search`/`SearchLoop` follow the source's
  recursion closely.
  - Each candidate places the mover's mark, searches the child with the current
    window, folds the score into `best` and into beta (X) or alpha (O), clears the
    mark, and stops once `beta <= alpha`.
  - The board is threaded through every call, so returning its cells unchanged is a
    proved property, on the pruning path too. That property is also what makes
    termination go through: every recursive call is made on a board with one empty
    cell fewer. The cached `winner` field is not restored: a nested
    `checkFinished` can rewrite it (it does whenever the first cell of some line,
    in row 0 or column 0, is set), in the model as in the source.
  - `Value` is plain minimax without pruning. `SearchSound` proves the windowed search
    *fail-soft* sound against it: a score at or below alpha bounds the true value
    from above, one at or above beta bounds it from below, and one strictly inside
    is exact.
  - `run`'s window (-1000, 1000) contains every score, so `Run` equals `Value`.
- **Move choice** (`tictactoe.dfy`). `getMultithreadedMove` scores every open slot by
  running minimax on a clone that holds O there, then keeps the first slot with the
  highest score.
  - Each thread owns its clone and the results are read back in slot order, so the
    model is a sequential map followed by a first-best argmax.
  - The choice is proved to be the unique first best slot. On a board where the game
    is not over, its score is proved to be the minimax value of the position for O.
    Those are the only boards the game loop passes in: it asks for a move only after
    `checkFinished` returned false.

Scores are -1 (X wins), 0 (draw) and +1 (O wins). X (turn = true) minimizes.

## Model

| member | source | states |
|---|---|---|
| `Grid.IdxInjective` | src/Board.java:33 | distinct in-bounds cells have distinct flat positions `row + n*col` |
| `Boards.MarkOf` | src/Board.java:32 | only the strings "X" and "O" name a mark, and the mark's name gives the string back |
| `Boards.NewBoard` | src/Board.java:26-29 | a new board has n*n empty cells and no winner |
| `Boards.SetSquare` | src/Board.java:31-39 | succeeds iff row and col are in [0, n), v is "X" or "O" and the cell is empty; on success exactly cell `row+n*col` gets the mark and nothing else changes; on failure the board is unchanged |
| `Boards.ClearSquare` | src/Board.java:48-52 | in bounds it empties cell `row+n*col` and no other cell; out of bounds the board is unchanged |
| `Boards.SetThenClear` | src/Board.java:31-52 | a successful setSquare followed by clearSquare on the same cell restores the original board |
| `Boards.OpenSlots` | src/Board.java:151-163 | every listed pair is an in-bounds empty cell; `Boards.OpenSlotsSpec` adds that every empty cell is listed, once, in scan order |
| `Boards.SlotsFromSpec` | src/Board.java:151-163 | the scan from (row, col) lists in-bounds empty cells at or after (row, col), lists all of them, and lists them in strictly increasing row-outer, column-inner order |
| `Boards.OpenSlotsSpec` | src/Board.java:151-163 | openSlots lists exactly the empty cells, each once, ordered row outer then column inner |
| `Boards.SlotCount` | src/Board.java:151-175 | there are as many open slots as empty flat positions |
| `Boards.IsFull` | src/Board.java:54-56 | isFull holds iff no cell is empty |
| `Boards.NumberOpenSlots` | src/Board.java:165-175 | the count equals the number of empty cells, and open plus occupied cells make n*n |
| `LineScan.ProbeMatchesLine` | src/Board.java:59-113 | each of checkFinished's 2n+2 index loops succeeds with a mark iff the corresponding column, row or diagonal is complete with that mark |
| `LineScan.OwnerByProbe` | src/Board.java:59-113 | a loop that starts on a set cell and matches reports that cell's mark as the line's owner; otherwise the line has no owner |
| `LineScan.RunProbes` | src/Board.java:59-113 | a reported win carries the mark on the first cell of one of the remaining loops; without a win the winner field is left as it came in or cleared |
| `LineScan.RunProbesAgree` | src/Board.java:58-113 | the loops report a line iff some line at or after the current one is complete, and then report the owner of the first such line; otherwise the winner is cleared or left as it was, and on a full board it is cleared |
| `Rules.FirstWinnerFromSpec` | src/Board.java:59-113 | the first winner is defined iff some line at or after k is complete, and it is the mark of a complete line before which no line is complete |
| `Boards.CheckFinished` | src/Board.java:58-116 | true iff some line is complete or the board is full; a complete line records the first complete line's owner as winner; a full board with no line records no winner; cells are untouched |
| `Boards.WhoWon` | src/Board.java:118-123 | fails iff no winner is recorded; otherwise true iff the winner is X and false iff it is O |
| `Boards.GetWinner` | src/Board.java:125-127 | the recorded winner is set iff whoWon succeeds, and then whoWon says whether it is X |
| `Boards.WhoWonAfterCheck` | src/Board.java:118-127 | after checkFinished, whoWon and getWinner report the first complete line's owner (true iff X), and whoWon fails on a drawn full board |
| `Boards.Clone` | src/Board.java:41-46 | the copy has the same size and cells, and its winner is the owner of the first complete line |
| `Boards.GetSize` | src/Board.java:177-179 | the size is the number of cells |
| `Minimax.MovesWhileNotOver` | src/Minimax.java:37-41 | a board that is not finished has at least one open slot, so the loop runs and best is overwritten |
| `Minimax.TrialPlace` | src/Minimax.java:42 | placing the mover's mark on an open slot succeeds, marks just that cell and leaves one empty cell fewer |
| `Minimax.TrialClear` | src/Minimax.java:51-55 | clearing the trial cell gives back the cells before the trial |
| `Minimax.Value` | src/Minimax.java:36-69 | plain minimax without pruning is always -1, 0 or 1 |
| `Minimax.Search` | src/Minimax.java:36-69 | the result is -1, 0 or 1 and never a sentinel; on a finished board it is 0 for no winner, -1 for X and +1 for O; the board comes back with its cells as on entry |
| `Minimax.TryMove` | src/Minimax.java:41-56 | one candidate returns a child score in -1..1 and restores the cells |
| `Minimax.SearchLoop` | src/Minimax.java:38-58 | the candidate loop restores the cells on every path, including the prune break, and returns a score in -1..1 once a candidate was tried |
| `Minimax.WindowStep` | src/Minimax.java:44-54 | folding a fail-soft child score either prunes with a result already fail-soft for the node, or keeps the loop invariant for the next candidate |
| `Minimax.LoopStep` | src/Minimax.java:40-56 | one iteration of the loop either prunes soundly or hands a sound state to the rest of the loop |
| `Minimax.LoopSound` | src/Minimax.java:38-58 | the loop's result agrees fail-soft with the true value of the node |
| `Minimax.SearchSound` | src/Minimax.java:36-69 | the windowed search agrees fail-soft with plain minimax on the same board and turn |
| `Minimax.Run` | src/Minimax.java:28-30 | with the root window (-1000, 1000) the pruned result equals plain minimax with X to move |
| `TicTacToe.FirstBestUnique` | src/TicTacToe.java:128-140 | at most one slot is the first one holding the highest score, so the choice is determined by the scores and not by thread completion order |
| `TicTacToe.ChildrenMax` | src/Minimax.java:47-49 | O's fold of the child values bounds every candidate score and is reached by one of them |
| `TicTacToe.BestIsValue` | src/TicTacToe.java:128-136 | on a board that is not finished, the chosen slot's score is the minimax value of the position with O to move |
| `TicTacToe.CandidateRun` | src/TicTacToe.java:120-125 | for open slot k, placing O succeeds, minimax's run on the clone gives candidate k's score, and clearing the slot gives the board back exactly |
| `TicTacToe.ScoreCandidates` | src/TicTacToe.java:119-126 | marking each open slot O, running minimax on a clone and clearing the slot yields, in slot order, the minimax value of each candidate with X to move, and leaves the board as it was |
| `TicTacToe.PickFirstBest` | src/TicTacToe.java:128-140 | the strict-improvement scan from -1000 takes nothing iff no score exceeds -1000, and otherwise takes the candidate at the first position holding the highest score |
| `TicTacToe.GetMultithreadedMove` | src/TicTacToe.java:113-143 | no choice iff there is no open slot; otherwise the chosen pair is the open slot whose score (minimax with X to move after O takes it) is the highest, the earliest on ties; the board is unchanged afterwards |

## Left out

- The console game loops and input handling (`main`, `twoPlayerGameLoop`,
  `aiGameLoop` in src/TicTacToe.java) are left out, because they are terminal I/O.
- `toString` and `underscoreRow` are left out, because they only build display
  strings.
- Threads, `start`/`join`, and the ignored `InterruptedException` are left out. Every
  thread works on its own clone and its result is read back in slot order, so the
  model computes the scores one after the other.
- The `Minimax` object (constructor, `res` field, `getResult`) is folded into `Run`,
  which returns the result directly.
- The `depth` parameter of `minimax` is dropped, because it is passed along but never
  read.
- Java `int` overflow is not modelled. No score or window bound ever leaves
  [-1000, 1000].
- Boards with n <= 0 are excluded (`Valid` demands n >= 1, and `NewBoard` takes a
  `nat`). The constructor accepts any `int`, and the game's size prompt does not
  reject zero or negative input (src/TicTacToe.java:35), but `checkFinished` crashes
  on such boards. With n = 0 the array is empty and the diagonal test reads
  `squares[0]` (src/Board.java:89). With n < 0 the array has n*n cells, and the
  row loop steps its index from 0 down to n and reads `squares[n]`
  (src/Board.java:59-60).
- `setSquare` with a null string is not modelled, because strings here are never null.
- The `Integer[]` null padding at the end of `openSlots`'s array is not modelled.
  `OpenSlots` holds only the filled entries, which is what every caller uses:
  `numberOpenSlots` stops at the first null, `isFull` tests the first entry, and the
  search loop skips null entries.
- Unfolding the full search of concrete positions (for example, that the empty 3-by-3
  board is a draw) is left out, because it is too expensive for the verifier. The
  model proves the general properties instead.
- Boards.CheckFinished: when the game goes on, the contract says only that the winner
  is cleared or left as it was, not which. The source leaves a stale value only when
  no line's first cell is set, and the winner is read only after checkFinished
  returned true.
- Minimax.Value: its own contract states only the range -1..1. What it computes is
  stated through `SearchSound`, `Run` and `BestIsValue`, which tie it to the source's
  search.
