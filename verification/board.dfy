/**
 * The Board class: an n-by-n grid stored as a flat sequence of optional marks, where
 * cell (row, col) lives at position `row + n*col`, together with the cached `winner`
 * field that checkFinished refreshes. Mutating Java methods become functions that
 * return the updated board.
 */
module Boards {
  import opened Wrappers
  import opened Grid
  import opened Rules
  import opened LineScan

  datatype Board = Board(n: nat, squares: seq<Cell>, winner: Cell)

  /** A usable board: at least one row and exactly n*n cells. */
  predicate Valid(b: Board) {
    b.n >= 1 && |b.squares| == b.n * b.n
  }

  /** The exception whoWon throws on a board with no recorded winner. */
  datatype Error = UnsupportedOperation(message: string)

  /** The string spelling of a mark, as the game passes it to setSquare. */
  function Name(m: Mark): (s: string) {
    match m
    case X => "X"
    case O => "O"
  }

  /** The mark a string names: only "X" and "O" are marks. */
  function MarkOf(v: string): (r: Option<Mark>)
    ensures r.Some? <==> v == "X" || v == "O"
    ensures r.Some? ==> Name(r.value) == v
  {
    if v == "X" then Some(X) else if v == "O" then Some(O) else None
  }

  /** The constructor: an n-by-n board with every cell empty and no winner. */
  function NewBoard(n: nat): (b: Board)
    ensures b.n == n && |b.squares| == n * n && b.winner == None
    ensures forall i :: 0 <= i < |b.squares| ==> b.squares[i] == None
  {
    Board(n, seq(n * n, _ => None), None)
  }

  /**
   * setSquare: places the mark named v at (row, col). Succeeds exactly when both
   * coordinates are in range, v is "X" or "O" and the cell is empty; on success only
   * that cell changes, on failure nothing does.
   */
  function SetSquare(b: Board, row: int, col: int, v: string): (r: (bool, Board))
    requires Valid(b)
    ensures r.1.n == b.n && r.1.winner == b.winner && |r.1.squares| == |b.squares|
    ensures r.0 <==> InBounds(b.n, row, col) && MarkOf(v).Some? && b.squares[Idx(b.n, row, col)] == None
    ensures r.0 ==> r.1.squares[Idx(b.n, row, col)] == MarkOf(v)
    ensures r.0 ==> forall i :: 0 <= i < |b.squares| && i != Idx(b.n, row, col) ==> r.1.squares[i] == b.squares[i]
    ensures !r.0 ==> r.1 == b
  {
    if InBounds(b.n, row, col) && MarkOf(v).Some? then
      var i := Idx(b.n, row, col);
      if b.squares[i] == None then (true, b.(squares := b.squares[i := MarkOf(v)])) else (false, b)
    else (false, b)
  }

  /**
   * clearSquare: empties cell (row, col) when both coordinates are in range and
   * does nothing otherwise; no other cell changes.
   */
  function ClearSquare(b: Board, row: int, col: int): (r: Board)
    requires Valid(b)
    ensures r.n == b.n && r.winner == b.winner && |r.squares| == |b.squares|
    ensures InBounds(b.n, row, col) ==> r.squares[Idx(b.n, row, col)] == None
    ensures InBounds(b.n, row, col) ==>
              forall i :: 0 <= i < |b.squares| && i != Idx(b.n, row, col) ==> r.squares[i] == b.squares[i]
    ensures !InBounds(b.n, row, col) ==> r == b
  {
    if InBounds(b.n, row, col) then b.(squares := b.squares[Idx(b.n, row, col) := None]) else b
  }

  /** Undoing a successful placement with clearSquare gives back the original board. */
  lemma SetThenClear(b: Board, row: int, col: int, v: string)
    requires Valid(b) && SetSquare(b, row, col, v).0
    ensures ClearSquare(SetSquare(b, row, col, v).1, row, col) == b
  {
    var r := ClearSquare(SetSquare(b, row, col, v).1, row, col);
    assert r.squares == b.squares;
  }

  /** Scan order of open slots: row outer, column inner. */
  predicate Before(a: (int, int), b: (int, int)) {
    a.0 < b.0 || (a.0 == b.0 && a.1 < b.1)
  }

  /** The scan of openSlots from (row, col) on: row outer, column inner, keeping empty cells. */
  function SlotsFrom(n: nat, sq: seq<Cell>, row: int, col: int): (slots: seq<(int, int)>)
    requires n >= 1 && |sq| == n * n && 0 <= row <= n && 0 <= col <= n
    decreases n - row, n - col
  {
    if row == n then []
    else if col == n then SlotsFrom(n, sq, row + 1, 0)
    else
      var rest := SlotsFrom(n, sq, row, col + 1);
      if sq[Idx(n, row, col)] == None then [(row, col)] + rest else rest
  }

  /** The scan from (row, col) lists, in scan order, exactly the empty cells at or after (row, col). */
  lemma {:induction false} SlotsFromSpec(n: nat, sq: seq<Cell>, row: int, col: int)
    requires n >= 1 && |sq| == n * n && 0 <= row <= n && 0 <= col <= n
    decreases n - row, n - col
    ensures forall k :: 0 <= k < |SlotsFrom(n, sq, row, col)| ==>
              && InBounds(n, SlotsFrom(n, sq, row, col)[k].0, SlotsFrom(n, sq, row, col)[k].1)
              && sq[Idx(n, SlotsFrom(n, sq, row, col)[k].0, SlotsFrom(n, sq, row, col)[k].1)] == None
              && !Before(SlotsFrom(n, sq, row, col)[k], (row, col))
    ensures forall rr, cc :: InBounds(n, rr, cc) && sq[Idx(n, rr, cc)] == None && !Before((rr, cc), (row, col))
              ==> (rr, cc) in SlotsFrom(n, sq, row, col)
    ensures forall j, k :: 0 <= j < k < |SlotsFrom(n, sq, row, col)| ==>
              Before(SlotsFrom(n, sq, row, col)[j], SlotsFrom(n, sq, row, col)[k])
  {
    if row < n {
      if col == n {
        SlotsFromSpec(n, sq, row + 1, 0);
      } else {
        SlotsFromSpec(n, sq, row, col + 1);
      }
    }
  }

  /** Cell c is on the board and empty. */
  predicate IsOpen(b: Board, c: (int, int))
    requires Valid(b)
  {
    InBounds(b.n, c.0, c.1) && b.squares[Idx(b.n, c.0, c.1)] == None
  }

  /** openSlots: the empty cells as (row, col) pairs, row outer then column inner. */
  function OpenSlots(b: Board): (slots: seq<(int, int)>)
    requires Valid(b)
    ensures forall k {:trigger IsOpen(b, slots[k])} :: 0 <= k < |slots| ==> IsOpen(b, slots[k])
  {
    SlotsFromSpec(b.n, b.squares, 0, 0);
    SlotsFrom(b.n, b.squares, 0, 0)
  }

  /**
   * openSlots lists exactly the empty cells, each once, ordered row outer then
   * column inner.
   */
  lemma OpenSlotsSpec(b: Board)
    requires Valid(b)
    ensures forall k :: 0 <= k < |OpenSlots(b)| ==>
              InBounds(b.n, OpenSlots(b)[k].0, OpenSlots(b)[k].1) && b.squares[Idx(b.n, OpenSlots(b)[k].0, OpenSlots(b)[k].1)] == None
    ensures forall row, col :: InBounds(b.n, row, col) && b.squares[Idx(b.n, row, col)] == None ==> (row, col) in OpenSlots(b)
    ensures forall j, k :: 0 <= j < k < |OpenSlots(b)| ==> Before(OpenSlots(b)[j], OpenSlots(b)[k])
  {
    SlotsFromSpec(b.n, b.squares, 0, 0);
  }

  /** Every listed slot is an in-bounds empty cell. */
  lemma SlotIsOpen(b: Board, k: int)
    requires Valid(b) && 0 <= k < |OpenSlots(b)|
    ensures InBounds(b.n, OpenSlots(b)[k].0, OpenSlots(b)[k].1)
    ensures b.squares[Idx(b.n, OpenSlots(b)[k].0, OpenSlots(b)[k].1)] == None
  {
    OpenSlotsSpec(b);
  }

  /** Each empty flat position corresponds to one open slot, so there are as many of each. */
  lemma SlotCount(b: Board)
    requires Valid(b)
    ensures |OpenSlots(b)| == |EmptyCells(b.squares)|
  {
    var n, sq, s := b.n, b.squares, OpenSlots(b);
    OpenSlotsSpec(b);
    var ix := seq(|s|, k requires 0 <= k < |s| => Idx(n, s[k].0, s[k].1));
    forall j, k | 0 <= j < k < |ix| ensures ix[j] != ix[k] {
      assert Before(s[j], s[k]);
      if ix[j] == ix[k] {
        IdxInjective(n, s[j].0, s[j].1, s[k].0, s[k].1);
      }
    }
    DistinctCard(ix);
    forall i | i in EmptyCells(sq) ensures i in ix {
      IdxCover(n, i);
      assert (i % n, i / n) in s;
      var k :| 0 <= k < |s| && s[k] == (i % n, i / n);
      assert ix[k] == i;
    }
    assert (set x | x in ix) == EmptyCells(sq);
  }

  /** isFull: true exactly when no cell is empty (the source tests that openSlots found nothing). */
  function IsFull(b: Board): (r: bool)
    requires Valid(b)
    ensures r <==> Full(b.squares)
  {
    SlotCount(b);
    CellsPartition(b.squares);
    |OpenSlots(b)| == 0
  }

  /**
   * numberOpenSlots: the number of empty cells; together with the occupied cells they
   * make up the whole n*n board.
   */
  function NumberOpenSlots(b: Board): (r: nat)
    requires Valid(b)
    ensures r == |EmptyCells(b.squares)|
    ensures r + |OccupiedCells(b.squares)| == b.n * b.n
  {
    SlotCount(b);
    CellsPartition(b.squares);
    |OpenSlots(b)|
  }

  /**
   * checkFinished: true exactly when some line is complete or the board is full.
   * A complete line records the owner of the first complete line in scan order as
   * the winner; a full board without one records no winner. When the game goes on,
   * the winner is either cleared or left as it was.
   */
  function CheckFinished(b: Board): (r: (bool, Board))
    requires Valid(b)
    ensures r.1.n == b.n && r.1.squares == b.squares
    ensures r.0 <==> GameOver(b.n, b.squares)
    ensures FirstWinner(b.n, b.squares).Some? ==> r.1.winner == FirstWinner(b.n, b.squares)
    ensures FirstWinner(b.n, b.squares).None? && Full(b.squares) ==> r.1.winner == None
    ensures !r.0 ==> r.1.winner == b.winner || r.1.winner == None
  {
    RunProbesAgree(b.n, b.squares, 0, b.winner);
    var scan := RunProbes(b.squares, Probes(b.n), 0, b.winner);
    if scan.0 then (true, b.(winner := scan.1))
    else (IsFull(b), b.(winner := scan.1))
  }

  /** getWinner: the recorded winner, meaningful only after checkFinished returned true. */
  function GetWinner(b: Board): (w: Cell)
    ensures w.Some? <==> WhoWon(b).Ok?
    ensures w.Some? ==> WhoWon(b) == Ok(w == Some(X))
  {
    b.winner
  }

  /** whoWon: fails when no winner is recorded; otherwise says whether X won. */
  function WhoWon(b: Board): (r: Result<bool, Error>)
    ensures r.Ok? <==> b.winner.Some?
    ensures r.Ok? ==> (r.value <==> b.winner == Some(X)) && (!r.value <==> b.winner == Some(O))
  {
    match b.winner
    case Some(m) => Ok(m == X)
    case None => Err(UnsupportedOperation("Game must be over before you can check who won!"))
  }

  /**
   * After checkFinished, whoWon reports the owner of the first complete line, and
   * fails on a drawn (full, line-less) board.
   */
  lemma WhoWonAfterCheck(b: Board)
    requires Valid(b)
    ensures var after := CheckFinished(b).1;
            && (FirstWinner(b.n, b.squares).Some? ==>
                  WhoWon(after) == Ok(FirstWinner(b.n, b.squares) == Some(X)) && GetWinner(after) == FirstWinner(b.n, b.squares))
            && (FirstWinner(b.n, b.squares).None? && Full(b.squares) ==>
                  WhoWon(after).Err? && GetWinner(after) == None)
  {
  }

  /**
   * clone: a fresh board with the same size and cells, whose winner is refreshed by
   * checkFinished; since a fresh board starts with no winner, the copy's winner is
   * exactly the owner of the first complete line.
   */
  function Clone(b: Board): (r: Board)
    requires Valid(b)
    ensures Valid(r) && r.n == b.n && r.squares == b.squares
    ensures r.winner == FirstWinner(b.n, b.squares)
  {
    var blank := NewBoard(b.n);
    var copy := blank.(squares := b.squares);
    CheckFinished(copy).1
  }

  /** getSize: the number of cells. */
  function GetSize(b: Board): (r: nat)
    requires Valid(b)
    ensures r == |b.squares|
  {
    b.n * b.n
  }
}
