/**
 * The Minimax class: alpha-beta search over a board that is mutated and restored
 * (Search, SearchLoop), the plain minimax value it must agree with (Value), and the
 * proof that the pruned search is sound.
 *
 * X (turn = true) is the minimizer and O (turn = false) the maximizer. Scores are
 * -1 (X wins), 0 (draw) and +1 (O wins).
 */
module Minimax {
  import opened Wrappers
  import opened Grid
  import opened Rules
  import opened Boards

  /** The window `run` opens the search with. */
  const RootAlpha: int := -1000
  const RootBeta: int := 1000

  function Min(a: int, b: int): (m: int) { if a <= b then a else b }
  function Max(a: int, b: int): (m: int) { if a >= b then a else b }

  /** The mark the side to move places. */
  function Mover(turn: bool): (m: Mark) {
    if turn then X else O
  }

  /** The initial `best` of a node: +10 for the minimizer, -10 for the maximizer. */
  function Sentinel(turn: bool): (s: int) {
    if turn then 10 else -10
  }

  /** The score of a finished game with recorded winner w. */
  function TerminalScore(w: Cell): (score: int) {
    match w
    case None => 0
    case Some(X) => -1
    case Some(O) => 1
  }

  /** The board after the side to move tries cell c: setSquare with the mover's mark. */
  function Trial(b: Board, turn: bool, c: (int, int)): (placed: Board)
    requires Valid(b)
  {
    SetSquare(b, c.0, c.1, Name(Mover(turn))).1
  }

  /** alpha after folding best: only the maximizer raises it. */
  function NextAlpha(turn: bool, alpha: int, best: int): (alpha': int) {
    if turn then alpha else Max(alpha, best)
  }

  /** beta after folding best: only the minimizer lowers it. */
  function NextBeta(turn: bool, beta: int, best: int): (beta': int) {
    if turn then Min(beta, best) else beta
  }

  /** Folds a child value into a running best, as the side to move does. */
  function Combine(turn: bool, a: int, b: int): (c: int) {
    if turn then Min(a, b) else Max(a, b)
  }

  /** The cells after mark m is placed on cell c. */
  function Child(n: int, sq: seq<Cell>, c: (int, int), m: Mark): (child: seq<Cell>)
    requires |sq| == n * n && InBounds(n, c.0, c.1)
  {
    sq[Idx(n, c.0, c.1) := Some(m)]
  }

  /** The open slots of a cell sequence. */
  function Moves(n: nat, sq: seq<Cell>): (moves: seq<(int, int)>)
    requires n >= 1 && |sq| == n * n
  {
    OpenSlots(Board(n, sq, None))
  }

  /** The open slots of a board depend on its cells alone. */
  lemma MovesOfBoard(b: Board)
    requires Valid(b)
    ensures OpenSlots(b) == Moves(b.n, b.squares)
  {
  }

  /** A board that is not over has a move. */
  lemma MovesWhileNotOver(n: nat, sq: seq<Cell>)
    requires n >= 1 && |sq| == n * n && !GameOver(n, sq)
    ensures |Moves(n, sq)| > 0
  {
    SlotCount(Board(n, sq, None));
    CellsPartition(sq);
  }

  /**
   * A trial move on an empty cell: setSquare succeeds, marks exactly that cell and
   * leaves one empty cell fewer.
   */
  lemma TrialPlace(b: Board, c: (int, int), m: Mark)
    requires Valid(b) && InBounds(b.n, c.0, c.1) && b.squares[Idx(b.n, c.0, c.1)] == None
    ensures SetSquare(b, c.0, c.1, Name(m)).0
    ensures Valid(SetSquare(b, c.0, c.1, Name(m)).1)
    ensures SetSquare(b, c.0, c.1, Name(m)).1.squares == Child(b.n, b.squares, c, m)
    ensures |EmptyCells(Child(b.n, b.squares, c, m))| < |EmptyCells(b.squares)|
  {
    MarkShrinks(b.squares, Idx(b.n, c.0, c.1), m);
    assert SetSquare(b, c.0, c.1, Name(m)).1.squares == Child(b.n, b.squares, c, m);
  }

  /** Clearing the trial cell of a board holding the trial position restores the cells before the trial. */
  lemma TrialClear(b: Board, after: Board, c: (int, int), m: Mark)
    requires Valid(b) && InBounds(b.n, c.0, c.1) && b.squares[Idx(b.n, c.0, c.1)] == None
    requires after.n == b.n && after.squares == Child(b.n, b.squares, c, m)
    ensures ClearSquare(after, c.0, c.1).n == b.n
    ensures ClearSquare(after, c.0, c.1).squares == b.squares
  {
    assert ClearSquare(after, c.0, c.1).squares == b.squares;
  }

  /**
   * Plain minimax without pruning: the score of a finished game, or else the best
   * child value for the side to move. Always -1, 0 or 1.
   */
  function Value(n: nat, sq: seq<Cell>, turn: bool): (v: int)
    requires n >= 1 && |sq| == n * n
    decreases |EmptyCells(sq)|, 1, 0
    ensures -1 <= v <= 1
  {
    if GameOver(n, sq) then TerminalScore(FirstWinner(n, sq))
    else
      MovesWhileNotOver(n, sq);
      ChildrenValue(n, sq, turn, 0)
  }

  /** The minimum (for X) or maximum (for O) of the child values from move i on. */
  function ChildrenValue(n: nat, sq: seq<Cell>, turn: bool, i: nat): (v: int)
    requires n >= 1 && |sq| == n * n && i <= |Moves(n, sq)|
    decreases |EmptyCells(sq)|, 0, |Moves(n, sq)| - i
    ensures i < |Moves(n, sq)| ==> -1 <= v <= 1
    ensures i == |Moves(n, sq)| ==> v == Sentinel(turn)
  {
    var cases := Moves(n, sq);
    if i == |cases| then Sentinel(turn)
    else
      var c := cases[i];
      SlotIsOpen(Board(n, sq, None), i);
      MarkShrinks(sq, Idx(n, c.0, c.1), Mover(turn));
      var v := Value(n, Child(n, sq, c, Mover(turn)), !turn);
      var rest := ChildrenValue(n, sq, turn, i + 1);
      if turn then Min(v, rest) else Max(v, rest)
  }

  /**
   * minimax(board, turn, depth, alpha, beta): on a finished board the terminal score;
   * otherwise the alpha-beta loop over the open slots. The returned board has the same
   * cells as the given one: every trial mark is cleared again.
   */
  function Search(b: Board, turn: bool, alpha: int, beta: int): (r: (int, Board))
    requires Valid(b)
    decreases |EmptyCells(b.squares)|, 2, 0
    ensures r.1.n == b.n && r.1.squares == b.squares
    ensures -1 <= r.0 <= 1
    ensures GameOver(b.n, b.squares) ==> r.0 == TerminalScore(FirstWinner(b.n, b.squares))
  {
    var (finished, b1) := CheckFinished(b);
    if !finished then
      MovesWhileNotOver(b.n, b.squares);
      SearchLoop(b1, turn, OpenSlots(b1), 0, Sentinel(turn), alpha, beta)
    else (TerminalScore(GetWinner(b1)), b1)
  }

  /**
   * One candidate of minimax's loop: place the mover's mark on the empty cell c, search
   * the child with the turn flipped and the current window, and clear the mark again.
   * It returns the child's score and the board with its cells as before.
   */
  function TryMove(b: Board, turn: bool, c: (int, int), alpha: int, beta: int): (r: (int, Board))
    requires Valid(b) && InBounds(b.n, c.0, c.1) && b.squares[Idx(b.n, c.0, c.1)] == None
    decreases |EmptyCells(b.squares)|, 0, 0
    ensures r.1.n == b.n && r.1.squares == b.squares
    ensures -1 <= r.0 <= 1
  {
    TrialPlace(b, c, Mover(turn));
    var child := Search(Trial(b, turn, c), !turn, alpha, beta);
    TrialClear(b, child.1, c, Mover(turn));
    (child.0, ClearSquare(child.1, c.0, c.1))
  }

  /**
   * The candidate loop of minimax from candidate i on: try each open slot in turn,
   * fold the child score into best and into beta (X) or alpha (O), and stop once
   * beta <= alpha.
   */
  function SearchLoop(b: Board, turn: bool, cases: seq<(int, int)>, i: nat, best: int, alpha: int, beta: int): (r: (int, Board))
    requires Valid(b) && cases == OpenSlots(b) && i <= |cases|
    requires -1 <= best <= 1 || best == Sentinel(turn)
    decreases |EmptyCells(b.squares)|, 1, |cases| - i
    ensures r.1.n == b.n && r.1.squares == b.squares
    ensures i < |cases| || -1 <= best <= 1 ==> -1 <= r.0 <= 1
  {
    if i == |cases| then (best, b)
    else
      SlotIsOpen(b, i);
      var child := TryMove(b, turn, cases[i], alpha, beta);
      var best' := Combine(turn, best, child.0);
      var alpha' := NextAlpha(turn, alpha, best');
      var beta' := NextBeta(turn, beta, best');
      if beta' <= alpha' then (best', child.1)
      else SearchLoop(child.1, turn, cases, i + 1, best', alpha', beta')
  }

  /** run: the root call, X to move, window (-1000, 1000). It returns plain minimax's value. */
  function Run(b: Board): (r: int)
    requires Valid(b)
    ensures r == Value(b.n, b.squares, true)
  {
    SearchSound(b, true, RootAlpha, RootBeta);
    Search(b, true, RootAlpha, RootBeta).0
  }

  /**
   * Fail-soft agreement of a windowed score r with the true value v: a score at or
   * below alpha bounds v from above, one at or above beta bounds it from below, and
   * one strictly inside the window is exact.
   */
  predicate FailSoft(r: int, v: int, alpha: int, beta: int) {
    && (r <= alpha ==> v <= r)
    && (r >= beta ==> v >= r)
    && (alpha < r < beta ==> v == r)
  }

  /**
   * What holds between iterations of a node's loop entered with window (alpha0, beta0):
   * `seen` is the true value folded over the candidates tried so far.
   */
  predicate LoopState(turn: bool, i: nat, best: int, alpha: int, beta: int, alpha0: int, beta0: int, seen: int) {
    && alpha < beta && alpha0 < 10 && beta0 > -10
    && (i == 0 ==> best == Sentinel(turn) && seen == Sentinel(turn))
    && (i > 0 ==> -1 <= best <= 1)
    && (if turn then
          && alpha == alpha0
          && beta == (if i == 0 then beta0 else Min(beta0, best))
          && seen >= best
          && (best < beta0 ==> seen == best)
        else
          && beta == beta0
          && alpha == (if i == 0 then alpha0 else Max(alpha0, best))
          && seen <= best
          && (best > alpha0 ==> seen == best))
  }

  /**
   * One iteration of a node's loop, on scores alone: the child was searched with the
   * current window and agrees fail-soft with its true value v. Either the node prunes
   * and its result already agrees fail-soft with the node's value, whatever the
   * remaining children are worth, or LoopState holds for the next iteration.
   */
  lemma WindowStep(turn: bool, i: nat, best: int, alpha: int, beta: int, alpha0: int, beta0: int,
                   seen: int, score: int, v: int, rest: int)
    requires LoopState(turn, i, best, alpha, beta, alpha0, beta0, seen)
    requires -1 <= score <= 1 && FailSoft(score, v, alpha, beta)
    ensures NextBeta(turn, beta, Combine(turn, best, score)) <= NextAlpha(turn, alpha, Combine(turn, best, score)) ==>
              FailSoft(Combine(turn, best, score), Combine(turn, seen, Combine(turn, v, rest)), alpha0, beta0)
    ensures NextBeta(turn, beta, Combine(turn, best, score)) > NextAlpha(turn, alpha, Combine(turn, best, score)) ==>
              LoopState(turn, i + 1, Combine(turn, best, score), NextAlpha(turn, alpha, Combine(turn, best, score)),
                        NextBeta(turn, beta, Combine(turn, best, score)), alpha0, beta0, Combine(turn, seen, v))
    ensures Combine(turn, Combine(turn, seen, v), rest) == Combine(turn, seen, Combine(turn, v, rest))
  {
  }

  /** Consequences of LoopState that the loop and the child searches need. */
  lemma LoopStateBounds(turn: bool, i: nat, best: int, alpha: int, beta: int, alpha0: int, beta0: int, seen: int)
    requires LoopState(turn, i, best, alpha, beta, alpha0, beta0, seen)
    ensures alpha < beta && alpha < 10 && beta > -10
    ensures -1 <= best <= 1 || best == Sentinel(turn)
  {
  }

  /** When the candidates run out, best agrees fail-soft with the node's value. */
  lemma WindowEnd(turn: bool, i: nat, best: int, alpha: int, beta: int, alpha0: int, beta0: int, seen: int)
    requires LoopState(turn, i, best, alpha, beta, alpha0, beta0, seen)
    ensures FailSoft(best, Combine(turn, seen, Sentinel(turn)), alpha0, beta0)
  {
  }

  /** ChildrenValue folds the value of move i into the value of the later moves. */
  lemma ChildrenStep(n: nat, sq: seq<Cell>, turn: bool, i: nat)
    requires n >= 1 && |sq| == n * n && i < |Moves(n, sq)|
    ensures InBounds(n, Moves(n, sq)[i].0, Moves(n, sq)[i].1)
    ensures ChildrenValue(n, sq, turn, i) ==
              Combine(turn, Value(n, Child(n, sq, Moves(n, sq)[i], Mover(turn)), !turn), ChildrenValue(n, sq, turn, i + 1))
  {
    SlotIsOpen(Board(n, sq, None), i);
  }

  /**
   * One iteration of a node's loop entered in LoopState. It names the folded score,
   * the narrowed window, the folded true value and the board after the trial is
   * cleared. Either the node prunes and its result already agrees fail-soft with its
   * value, or LoopState holds for the next candidate and agreement of the rest of the
   * loop carries over to the node.
   */
  lemma {:induction false} LoopStep(b: Board, turn: bool, cases: seq<(int, int)>, i: nat, best: int, alpha: int, beta: int,
                                    alpha0: int, beta0: int, seen: int)
      returns (best': int, alpha': int, beta': int, seen': int, cleared: Board)
    requires Valid(b) && cases == OpenSlots(b) && cases == Moves(b.n, b.squares) && i < |cases|
    requires LoopState(turn, i, best, alpha, beta, alpha0, beta0, seen)
    requires -1 <= best <= 1 || best == Sentinel(turn)
    decreases |EmptyCells(b.squares)|, 1, |cases| - i, 0
    ensures -1 <= best' <= 1
    ensures Valid(cleared) && cleared.squares == b.squares
    ensures OpenSlots(cleared) == cases && Moves(cleared.n, cleared.squares) == cases
    ensures beta' <= alpha' ==>
              FailSoft(SearchLoop(b, turn, cases, i, best, alpha, beta).0,
                       Combine(turn, seen, ChildrenValue(b.n, b.squares, turn, i)), alpha0, beta0)
    ensures beta' > alpha' ==> LoopState(turn, i + 1, best', alpha', beta', alpha0, beta0, seen')
    ensures beta' > alpha' &&
            FailSoft(SearchLoop(cleared, turn, cases, i + 1, best', alpha', beta').0,
                     Combine(turn, seen', ChildrenValue(cleared.n, cleared.squares, turn, i + 1)), alpha0, beta0) ==>
              FailSoft(SearchLoop(b, turn, cases, i, best, alpha, beta).0,
                       Combine(turn, seen, ChildrenValue(b.n, b.squares, turn, i)), alpha0, beta0)
  {
    var n, sq := b.n, b.squares;
    var c := cases[i];
    LoopStateBounds(turn, i, best, alpha, beta, alpha0, beta0, seen);
    SlotIsOpen(b, i);
    TrialPlace(b, c, Mover(turn));
    var placed := Trial(b, turn, c);
    var child := TryMove(b, turn, c, alpha, beta);
    cleared := child.1;
    ChildrenStep(n, sq, turn, i);
    SearchSound(placed, !turn, alpha, beta);
    var v := Value(n, placed.squares, !turn);
    var rest := ChildrenValue(n, sq, turn, i + 1);
    MovesOfBoard(cleared);
    WindowStep(turn, i, best, alpha, beta, alpha0, beta0, seen, child.0, v, rest);
    best' := Combine(turn, best, child.0);
    alpha' := NextAlpha(turn, alpha, best');
    beta' := NextBeta(turn, beta, best');
    seen' := Combine(turn, seen, v);
  }

  /** Alpha-beta soundness: the windowed search agrees fail-soft with plain minimax. */
  lemma {:induction false} SearchSound(b: Board, turn: bool, alpha: int, beta: int)
    requires Valid(b) && alpha < beta && alpha < 10 && beta > -10
    decreases |EmptyCells(b.squares)|, 2, 0, 0
    ensures FailSoft(Search(b, turn, alpha, beta).0, Value(b.n, b.squares, turn), alpha, beta)
  {
    var (finished, b1) := CheckFinished(b);
    if !finished {
      MovesWhileNotOver(b.n, b.squares);
      MovesOfBoard(b1);
      LoopSound(b1, turn, OpenSlots(b1), 0, Sentinel(turn), alpha, beta, alpha, beta, Sentinel(turn));
    }
  }

  /** When the candidates run out, the loop returns best, which agrees fail-soft with the node's value. */
  lemma LoopDone(b: Board, turn: bool, cases: seq<(int, int)>, i: nat, best: int,
                 alpha: int, beta: int, alpha0: int, beta0: int, seen: int)
    requires Valid(b) && cases == OpenSlots(b) && cases == Moves(b.n, b.squares) && i == |cases|
    requires LoopState(turn, i, best, alpha, beta, alpha0, beta0, seen)
    requires -1 <= best <= 1 || best == Sentinel(turn)
    ensures FailSoft(SearchLoop(b, turn, cases, i, best, alpha, beta).0,
                     Combine(turn, seen, ChildrenValue(b.n, b.squares, turn, i)), alpha0, beta0)
  {
    WindowEnd(turn, i, best, alpha, beta, alpha0, beta0, seen);
  }

  /** The candidate loop keeps LoopState and ends fail-soft with respect to the node's value. */
  lemma {:induction false} LoopSound(b: Board, turn: bool, cases: seq<(int, int)>, i: nat, best: int,
                                     alpha: int, beta: int, alpha0: int, beta0: int, seen: int)
    requires Valid(b) && cases == OpenSlots(b) && cases == Moves(b.n, b.squares) && i <= |cases|
    requires LoopState(turn, i, best, alpha, beta, alpha0, beta0, seen)
    requires -1 <= best <= 1 || best == Sentinel(turn)
    decreases |EmptyCells(b.squares)|, 1, |cases| - i, 1
    ensures FailSoft(SearchLoop(b, turn, cases, i, best, alpha, beta).0,
                     Combine(turn, seen, ChildrenValue(b.n, b.squares, turn, i)), alpha0, beta0)
  {
    if i == |cases| {
      LoopDone(b, turn, cases, i, best, alpha, beta, alpha0, beta0, seen);
    } else {
      var best', alpha', beta', seen', cleared := LoopStep(b, turn, cases, i, best, alpha, beta, alpha0, beta0, seen);
      if beta' > alpha' {
        LoopSound(cleared, turn, cases, i + 1, best', alpha', beta', alpha0, beta0, seen');
      }
    }
  }
}
