/**
 * The TicTacToe class's move choice for the computer player O: score every open slot
 * with minimax's run on a copy of the board holding O's mark there, then keep the
 * first slot with the highest score. The source scores the candidates on separate
 * threads; every thread works on its own clone and the results are read back in slot
 * order, so the model computes them one after the other.
 */
module TicTacToe {
  import opened Wrappers
  import opened Rules
  import opened Boards
  import opened Minimax

  /** The score of O's candidate k: plain minimax's value, X to move, once O holds slot k. */
  function CandidateScore(b: Board, k: nat): (score: int)
    requires Valid(b) && k < |OpenSlots(b)|
  {
    SlotIsOpen(b, k);
    Value(b.n, Child(b.n, b.squares, OpenSlots(b)[k], O), true)
  }

  /** The candidate scores in slot order. */
  function Scores(b: Board): (s: seq<int>)
    requires Valid(b)
    ensures |s| == |OpenSlots(b)|
  {
    seq(|OpenSlots(b)|, k requires 0 <= k < |OpenSlots(b)| => CandidateScore(b, k))
  }

  /** k is the first position holding the largest score. */
  predicate FirstBest(scores: seq<int>, k: int) {
    && 0 <= k < |scores|
    && (forall j :: 0 <= j < |scores| ==> scores[j] <= scores[k])
    && (forall j :: 0 <= j < k ==> scores[j] < scores[k])
  }

  /** At most one position is the first best, so the choice is determined by the scores. */
  lemma FirstBestUnique(scores: seq<int>, k1: int, k2: int)
    requires FirstBest(scores, k1) && FirstBest(scores, k2)
    ensures k1 == k2
  {
    assert scores[k1] == scores[k2];
  }

  /** O's fold of the child values takes in candidate i's score; after the last candidate comes O's sentinel -10. */
  lemma CandidateStep(b: Board, i: nat)
    requires Valid(b) && i < |OpenSlots(b)|
    ensures i + 1 <= |Moves(b.n, b.squares)|
    ensures ChildrenValue(b.n, b.squares, false, i) == Max(CandidateScore(b, i), ChildrenValue(b.n, b.squares, false, i + 1))
    ensures i + 1 == |OpenSlots(b)| ==> ChildrenValue(b.n, b.squares, false, i + 1) == -10
  {
    MovesOfBoard(b);
    ChildrenStep(b.n, b.squares, false, i);
  }

  /**
   * From move i on, the maximizer's fold of child values bounds every later candidate
   * score and is reached by one of them.
   */
  lemma {:induction false} ChildrenMax(b: Board, i: nat)
    requires Valid(b) && i < |OpenSlots(b)|
    decreases |OpenSlots(b)| - i
    ensures forall j :: i <= j < |OpenSlots(b)| ==> CandidateScore(b, j) <= ChildrenValue(b.n, b.squares, false, i)
    ensures exists j :: i <= j < |OpenSlots(b)| && CandidateScore(b, j) == ChildrenValue(b.n, b.squares, false, i)
  {
    CandidateStep(b, i);
    if i + 1 < |OpenSlots(b)| {
      ChildrenMax(b, i + 1);
    }
  }

  /**
   * On a board that is not over, the first best candidate's score is the plain minimax
   * value of the position with O to move: the choice is an optimal move for O.
   */
  lemma BestIsValue(b: Board, k: int)
    requires Valid(b) && !GameOver(b.n, b.squares) && FirstBest(Scores(b), k)
    ensures Scores(b)[k] == Value(b.n, b.squares, false)
  {
    MovesWhileNotOver(b.n, b.squares);
    MovesOfBoard(b);
    ChildrenMax(b, 0);
    var j :| 0 <= j < |OpenSlots(b)| && CandidateScore(b, j) == ChildrenValue(b.n, b.squares, false, 0);
    assert Scores(b)[j] == CandidateScore(b, j);
    assert Scores(b)[k] == CandidateScore(b, k);
  }

  /**
   * The first loop of getMultithreadedMove: for each open slot, mark it O, hand a clone
   * to minimax's run and clear the slot again. The results are the candidate scores in
   * slot order, and the board comes back unchanged.
   */
  method ScoreCandidates(board: Board) returns (results: seq<int>, after: Board)
    requires Valid(board)
    ensures after == board
    ensures results == Scores(board)
  {
    var choices := OpenSlots(board);
    var b := board;
    SlotCount(board);
    results := [];
    var i := 0;
    while i < NumberOpenSlots(b)
      invariant b == board
      invariant 0 <= i <= |choices|
      invariant results == Scores(board)[..i]
    {
      CandidateRun(board, i);
      var placed := SetSquare(b, choices[i].0, choices[i].1, "O");
      results := results + [Run(Clone(placed.1))];
      assert results == Scores(board)[..i + 1];
      b := ClearSquare(placed.1, choices[i].0, choices[i].1);
      i := i + 1;
    }
    after := b;
  }

  /**
   * One round of the scoring loop: O's mark goes on open slot k, minimax's run on a
   * clone gives candidate k's score, and clearing the slot gives the board back.
   */
  lemma CandidateRun(b: Board, k: nat)
    requires Valid(b) && k < |OpenSlots(b)|
    ensures var c := OpenSlots(b)[k];
            && SetSquare(b, c.0, c.1, "O").0
            && Run(Clone(SetSquare(b, c.0, c.1, "O").1)) == Scores(b)[k]
            && ClearSquare(SetSquare(b, c.0, c.1, "O").1, c.0, c.1) == b
  {
    var c := OpenSlots(b)[k];
    SlotIsOpen(b, k);
    TrialPlace(b, c, O);
    SetThenClear(b, c.0, c.1, "O");
  }

  /**
   * The second loop of getMultithreadedMove: starting from best = -1000, take candidate
   * i whenever its score is strictly greater than the best so far. Nothing is taken
   * when no score beats -1000; otherwise the taken candidate is the first best one.
   */
  method PickFirstBest(choices: seq<(int, int)>, results: seq<int>) returns (choice: Option<(int, int)>)
    requires |choices| == |results|
    ensures choice.None? <==> forall j :: 0 <= j < |results| ==> results[j] <= -1000
    ensures choice.Some? ==> exists k :: FirstBest(results, k) && choice.value == choices[k]
  {
    var best := -1000;
    choice := None;
    ghost var k := -1;
    var i := 0;
    while i < |results|
      invariant 0 <= i <= |results|
      invariant -1 <= k < i
      invariant k == -1 ==> best == -1000 && choice == None
      invariant k >= 0 ==> best == results[k] && best > -1000 && choice == Some(choices[k])
      invariant forall j :: 0 <= j < i ==> results[j] <= best
      invariant k >= 0 ==> forall j :: 0 <= j < k ==> results[j] < best
    {
      if results[i] > best {
        best := results[i];
        choice := Some(choices[i]);
        k := i;
      }
      i := i + 1;
    }
    if k >= 0 {
      assert FirstBest(results, k);
    }
  }

  /**
   * getMultithreadedMove: score every open slot, then pick the first best one. None
   * stands for the unset pair returned when there is no open slot. The board comes
   * back unchanged.
   */
  method GetMultithreadedMove(board: Board) returns (choice: Option<(int, int)>, after: Board)
    requires Valid(board)
    ensures after == board
    ensures choice.None? <==> |OpenSlots(board)| == 0
    ensures choice.Some? ==> exists k :: FirstBest(Scores(board), k) && choice.value == OpenSlots(board)[k]
  {
    var results;
    results, after := ScoreCandidates(board);
    choice := PickFirstBest(OpenSlots(board), results);
    if |results| > 0 {
      assert results[0] > -1000;
    }
  }
}
