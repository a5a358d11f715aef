/**
 * The rules of the game, stated geometrically and independently of how the board
 * scans its cells: marks, the lines a player can complete, the first complete line
 * in the board's scan order, and when a game is over.
 */
module Rules {
  import opened Wrappers
  import opened Grid

  /** The two marks: X is the human (the minimizer), O the computer (the maximizer). */
  datatype Mark = X | O

  /** A cell is empty (`None`) or holds a mark. */
  type Cell = Option<Mark>

  /** Flat positions of the empty cells. */
  function EmptyCells(sq: seq<Cell>): (e: set<int>) {
    set i | 0 <= i < |sq| && sq[i] == None
  }

  /** Flat positions of the occupied cells. */
  function OccupiedCells(sq: seq<Cell>): (o: set<int>) {
    set i | 0 <= i < |sq| && sq[i] != None
  }

  /** No cell is empty. */
  predicate Full(sq: seq<Cell>) {
    forall i :: 0 <= i < |sq| ==> sq[i] != None
  }

  /** Every cell is either empty or occupied, so the two counts add up to the board size. */
  lemma {:induction false} CellsPartition(sq: seq<Cell>)
    ensures |EmptyCells(sq)| + |OccupiedCells(sq)| == |sq|
    ensures Full(sq) <==> |EmptyCells(sq)| == 0
  {
    CellsCount(sq);
    if !Full(sq) {
      var i :| 0 <= i < |sq| && sq[i] == None;
      assert i in EmptyCells(sq);
    } else {
      assert EmptyCells(sq) == {};
    }
  }

  /** The counting half of CellsPartition, by induction on the length. */
  lemma {:induction false} CellsCount(sq: seq<Cell>)
    ensures |EmptyCells(sq)| + |OccupiedCells(sq)| == |sq|
  {
    if |sq| > 0 {
      var k := |sq| - 1;
      var init := sq[..k];
      CellsCount(init);
      if sq[k] == None {
        assert EmptyCells(sq) == EmptyCells(init) + {k};
        assert OccupiedCells(sq) == OccupiedCells(init);
      } else {
        assert EmptyCells(sq) == EmptyCells(init);
        assert OccupiedCells(sq) == OccupiedCells(init) + {k};
      }
    }
  }

  /** Marking an empty cell removes exactly that cell from the empty ones. */
  lemma MarkShrinks(sq: seq<Cell>, i: int, m: Mark)
    requires 0 <= i < |sq| && sq[i] == None
    ensures EmptyCells(sq[i := Some(m)]) == EmptyCells(sq) - {i}
    ensures |EmptyCells(sq[i := Some(m)])| == |EmptyCells(sq)| - 1
  {
    assert EmptyCells(sq[i := Some(m)]) == EmptyCells(sq) - {i};
  }

  /**
   * The lines that win the game. The board stores cell (row, col) at `row + n*col`,
   * so a Contiguous line (fixed col) occupies n consecutive positions and a Strided
   * line (fixed row) occupies positions n apart.
   */
  datatype Line = Contiguous(col: int) | Strided(row: int) | MainDiagonal | AntiDiagonal

  /** Cell (row, col) lies on the line. */
  predicate OnLine(n: int, line: Line, row: int, col: int) {
    match line
    case Contiguous(k) => col == k
    case Strided(k) => row == k
    case MainDiagonal => row == col
    case AntiDiagonal => row + col == n - 1
  }

  /** The lines in the order the board checks them. */
  function ScanLines(n: nat): (lines: seq<Line>)
    ensures |lines| == 2 * n + 2
  {
    seq(n, k => Contiguous(k)) + seq(n, k => Strided(k)) + [MainDiagonal, AntiDiagonal]
  }

  /** Every cell of the line holds mark m. */
  predicate Complete(n: int, sq: seq<Cell>, line: Line, m: Mark)
    requires |sq| == n * n
  {
    forall row, col :: 0 <= row < n && 0 <= col < n && OnLine(n, line, row, col) ==> sq[Idx(n, row, col)] == Some(m)
  }

  /** The mark that completes the line, if any. */
  function Owner(n: int, sq: seq<Cell>, line: Line): (owner: Option<Mark>)
    requires |sq| == n * n
  {
    if Complete(n, sq, line, X) then Some(X)
    else if Complete(n, sq, line, O) then Some(O)
    else None
  }

  /** The owner of the first complete line at or after position k of the scan order. */
  function FirstWinnerFrom(n: nat, sq: seq<Cell>, k: nat): (w: Option<Mark>)
    requires |sq| == n * n
    decreases 2 * n + 2 - k
  {
    if k >= 2 * n + 2 then None
    else if Owner(n, sq, ScanLines(n)[k]).Some? then Owner(n, sq, ScanLines(n)[k])
    else FirstWinnerFrom(n, sq, k + 1)
  }

  /** The owner of the first complete line in scan order, or None when no line is complete. */
  function FirstWinner(n: nat, sq: seq<Cell>): (w: Option<Mark>)
    requires |sq| == n * n
  {
    FirstWinnerFrom(n, sq, 0)
  }

  /** Some line is complete or no cell is empty. */
  predicate GameOver(n: nat, sq: seq<Cell>)
    requires |sq| == n * n
  {
    FirstWinner(n, sq).Some? || Full(sq)
  }

  /** FirstWinnerFrom names a complete line at or after k, and the lines it skipped are not complete. */
  lemma {:induction false} FirstWinnerFromSpec(n: nat, sq: seq<Cell>, k: nat)
    requires |sq| == n * n
    decreases 2 * n + 2 - k
    ensures FirstWinnerFrom(n, sq, k).Some? <==>
              exists j, m :: k <= j < 2 * n + 2 && Complete(n, sq, ScanLines(n)[j], m)
    ensures FirstWinnerFrom(n, sq, k).Some? ==>
              exists j :: && k <= j < 2 * n + 2
                           && Complete(n, sq, ScanLines(n)[j], FirstWinnerFrom(n, sq, k).value)
                           && forall j', m :: k <= j' < j ==> !Complete(n, sq, ScanLines(n)[j'], m)
  {
    if k < 2 * n + 2 {
      FirstWinnerFromSpec(n, sq, k + 1);
      var line := ScanLines(n)[k];
      var w := FirstWinnerFrom(n, sq, k);
      if Owner(n, sq, line).Some? {
        assert Complete(n, sq, ScanLines(n)[k], w.value);
      } else {
        NoOwner(n, sq, line);
        if w.Some? {
          var j :| && k + 1 <= j < 2 * n + 2
                   && Complete(n, sq, ScanLines(n)[j], w.value)
                   && forall j', m :: k + 1 <= j' < j ==> !Complete(n, sq, ScanLines(n)[j'], m);
          assert forall j', m :: k <= j' < j ==> !Complete(n, sq, ScanLines(n)[j'], m);
        }
      }
    }
  }

  /** A line without an owner is complete for neither mark. */
  lemma NoOwner(n: int, sq: seq<Cell>, line: Line)
    requires |sq| == n * n && Owner(n, sq, line).None?
    ensures forall m :: !Complete(n, sq, line, m)
  {
    forall m ensures !Complete(n, sq, line, m) {
      if m == X { } else { }
    }
  }
}
