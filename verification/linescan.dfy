/**
 * How the board looks for a winning line: each line is checked by a "probe" that
 * starts at one flat position and walks with a fixed stride until a limit, exactly
 * as the index loops of Board.checkFinished do. The lemmas here show that a probe
 * succeeds precisely when its geometric line is complete.
 */
module LineScan {
  import opened Wrappers
  import opened Grid
  import opened Rules

  /** One inner loop of checkFinished: `for (i = start; i < limit; i += step)`. */
  datatype Probe = Probe(start: int, step: int, limit: int)

  /** The probe stays inside a board of `len` cells and its loop terminates. */
  predicate Fits(p: Probe, len: int) {
    0 <= p.start < len && p.limit <= len && p.step >= 0 && (p.step > 0 || p.start >= p.limit)
  }

  /**
   * The probes in checkFinished's order: the n index-contiguous lines (outer loop
   * `i = 0, n, 2n, ...`), the n index-strided lines (outer loop `i = 0, 1, ..., n-1`),
   * the main diagonal (step n+1) and the anti-diagonal (from n-1, step n-1, below n*n-1).
   */
  function Probes(n: nat): (ps: seq<Probe>)
    requires n >= 1
    ensures |ps| == 2 * n + 2
    ensures forall k :: 0 <= k < |ps| ==> Fits(ps[k], n * n)
  {
    var ps := seq(n, k => Probe(k * n, 1, k * n + n))
            + seq(n, k => Probe(k, n, n * n))
            + [Probe(0, n + 1, n * n), Probe(n - 1, n - 1, n * n - 1)];
    assert forall k :: 0 <= k < n ==> k * n + n <= n * n by {
      forall k | 0 <= k < n ensures k * n + n <= n * n {
        assert Idx(n, n - 1, k) < n * n;
        assert k * n == n * k;
      }
    }
    ps
  }

  /** The inner loop: every visited cell holds m. */
  predicate Matches(sq: seq<Cell>, m: Mark, i: int, step: int, limit: int)
    requires 0 <= i && step >= 0 && limit <= |sq|
    requires step > 0 || i >= limit
    decreases limit - i
  {
    i >= limit || (sq[i] == Some(m) && Matches(sq, m, i + step, step, limit))
  }

  /** Position visited at iteration t of a probe loop. */
  function Nth(start: int, step: int, t: int): (idx: int) {
    start + t * step
  }

  /** A probe loop that runs exactly cnt iterations checks exactly the cells Nth(0..cnt-1). */
  lemma {:induction false} MatchesAlong(sq: seq<Cell>, m: Mark, start: int, step: int, limit: int, cnt: nat)
    requires 0 <= start && step >= 0 && limit <= |sq|
    requires step > 0 || start >= limit
    requires Nth(start, step, cnt) >= limit
    requires cnt > 0 ==> Nth(start, step, cnt - 1) < limit
    requires forall t :: 0 <= t < cnt ==> 0 <= Nth(start, step, t) < |sq|
    ensures Matches(sq, m, start, step, limit) <==>
              forall t :: 0 <= t < cnt ==> sq[Nth(start, step, t)] == Some(m)
    decreases cnt
  {
    if cnt > 0 {
      assert Nth(start, step, 0) == start;
      assert 0 <= (cnt - 1) * step;
      assert start < limit;
      assert Nth(start + step, step, cnt - 1) == Nth(start, step, cnt) by {
        assert cnt * step == (cnt - 1) * step + step;
      }
      assert cnt - 1 > 0 ==> Nth(start + step, step, cnt - 2) == Nth(start, step, cnt - 1) by {
        assert (cnt - 1) * step == (cnt - 2) * step + step;
      }
      var next := start + step;
      forall t | 0 <= t < cnt - 1 ensures 0 <= Nth(next, step, t) < |sq| {
        ShiftNth(start, step, t);
      }
      MatchesAlong(sq, m, next, step, limit, cnt - 1);
      if Matches(sq, m, start, step, limit) {
        forall t | 0 <= t < cnt ensures sq[Nth(start, step, t)] == Some(m) {
          if t > 0 {
            ShiftNth(start, step, t - 1);
          }
        }
      } else if sq[start] == Some(m) {
        assert !Matches(sq, m, start + step, step, limit);
        var t :| 0 <= t < cnt - 1 && sq[Nth(start + step, step, t)] != Some(m);
        ShiftNth(start, step, t);
      }
    } else {
      assert Nth(start, step, 0) == start;
    }
  }

  /** Starting one step later shifts the iteration count by one. */
  lemma ShiftNth(start: int, step: int, t: int)
    ensures Nth(start + step, step, t) == Nth(start, step, t + 1)
  {
    assert (t + 1) * step == t * step + step;
  }

  /** The line's kind index lies within the board. */
  predicate LineValid(n: int, line: Line) {
    match line
    case Contiguous(k) => 0 <= k < n
    case Strided(k) => 0 <= k < n
    case MainDiagonal => true
    case AntiDiagonal => true
  }

  /** The t-th cell of the line, in the order its probe visits it. */
  function LineCell(n: int, line: Line, t: int): (c: (int, int))
    requires LineValid(n, line) && 0 <= t < n
    ensures InBounds(n, c.0, c.1) && OnLine(n, line, c.0, c.1)
  {
    match line
    case Contiguous(k) => (t, k)
    case Strided(k) => (k, t)
    case MainDiagonal => (t, t)
    case AntiDiagonal => (n - 1 - t, t)
  }

  /** Which iteration of the probe visits cell (row, col) of the line. */
  function LineParam(line: Line, row: int, col: int): (t: int) {
    match line
    case Contiguous(_) => row
    case Strided(_) => col
    case MainDiagonal => row
    case AntiDiagonal => col
  }

  /** Every cell of a line is visited by exactly the iteration LineParam names. */
  lemma LineParamInverse(n: int, line: Line, row: int, col: int)
    requires LineValid(n, line) && InBounds(n, row, col) && OnLine(n, line, row, col)
    ensures 0 <= LineParam(line, row, col) < n
    ensures LineCell(n, line, LineParam(line, row, col)) == (row, col)
  {
  }

  /**
   * A probe of n iterations that visits the line's cells succeeds with m exactly
   * when the line is complete with m.
   */
  lemma Bridge(n: nat, sq: seq<Cell>, m: Mark, line: Line, p: Probe)
    requires n >= 1 && |sq| == n * n && LineValid(n, line)
    requires Fits(p, |sq|) && p.step > 0
    requires Nth(p.start, p.step, n) >= p.limit && Nth(p.start, p.step, n - 1) < p.limit
    requires forall t :: 0 <= t < n ==>
               Nth(p.start, p.step, t) == Idx(n, LineCell(n, line, t).0, LineCell(n, line, t).1)
    ensures (sq[p.start] == Some(m) && Matches(sq, m, p.start, p.step, p.limit)) <==> Complete(n, sq, line, m)
  {
    MatchesAlong(sq, m, p.start, p.step, p.limit, n);
    assert Nth(p.start, p.step, 0) == p.start;
    if Matches(sq, m, p.start, p.step, p.limit) {
      forall row, col | 0 <= row < n && 0 <= col < n && OnLine(n, line, row, col)
        ensures sq[Idx(n, row, col)] == Some(m)
      {
        LineParamInverse(n, line, row, col);
        var t := LineParam(line, row, col);
        assert Nth(p.start, p.step, t) == Idx(n, row, col);
      }
    }
    if Complete(n, sq, line, m) {
      forall t | 0 <= t < n ensures sq[Nth(p.start, p.step, t)] == Some(m) {
        var c := LineCell(n, line, t);
        assert OnLine(n, line, c.0, c.1);
      }
    }
  }

  /** The probe succeeds with m: its first cell and every cell it visits hold m. */
  predicate Hits(sq: seq<Cell>, p: Probe, m: Mark)
    requires Fits(p, |sq|)
  {
    sq[p.start] == Some(m) && Matches(sq, m, p.start, p.step, p.limit)
  }

  /** Index-contiguous probe k checks the cells of column k. */
  lemma ContiguousProbe(n: nat, sq: seq<Cell>, k: int, m: Mark)
    requires n >= 1 && |sq| == n * n && 0 <= k < n
    ensures Fits(Probe(k * n, 1, k * n + n), |sq|)
    ensures Hits(sq, Probe(k * n, 1, k * n + n), m) <==> Complete(n, sq, Contiguous(k), m)
  {
    var p := Probe(k * n, 1, k * n + n);
    assert k * n + n == (k + 1) * n <= n * n;
    forall t | 0 <= t < n
      ensures Nth(p.start, p.step, t) == Idx(n, LineCell(n, Contiguous(k), t).0, LineCell(n, Contiguous(k), t).1)
    {
    }
    Bridge(n, sq, m, Contiguous(k), p);
  }

  /** Index-strided probe k checks the cells of row k. */
  lemma StridedProbe(n: nat, sq: seq<Cell>, k: int, m: Mark)
    requires n >= 1 && |sq| == n * n && 0 <= k < n
    ensures Fits(Probe(k, n, n * n), |sq|)
    ensures Hits(sq, Probe(k, n, n * n), m) <==> Complete(n, sq, Strided(k), m)
  {
    var p := Probe(k, n, n * n);
    assert Nth(p.start, p.step, n - 1) == k + (n - 1) * n == k + n * n - n;
    assert Nth(p.start, p.step, n) == k + n * n;
    forall t | 0 <= t < n
      ensures Nth(p.start, p.step, t) == Idx(n, LineCell(n, Strided(k), t).0, LineCell(n, Strided(k), t).1)
    {
    }
    Bridge(n, sq, m, Strided(k), p);
  }

  /** The probe from 0 with step n+1 checks the main diagonal. */
  lemma MainProbe(n: nat, sq: seq<Cell>, m: Mark)
    requires n >= 1 && |sq| == n * n
    ensures Fits(Probe(0, n + 1, n * n), |sq|)
    ensures Hits(sq, Probe(0, n + 1, n * n), m) <==> Complete(n, sq, MainDiagonal, m)
  {
    var p := Probe(0, n + 1, n * n);
    assert Nth(p.start, p.step, n - 1) == (n - 1) * (n + 1) == n * n - 1;
    assert Nth(p.start, p.step, n) == n * (n + 1) == n * n + n;
    forall t | 0 <= t < n
      ensures Nth(p.start, p.step, t) == Idx(n, LineCell(n, MainDiagonal, t).0, LineCell(n, MainDiagonal, t).1)
    {
      assert t * (n + 1) == t + n * t;
    }
    Bridge(n, sq, m, MainDiagonal, p);
  }

  /** On a 1-by-1 board the anti-diagonal probe's loop never runs; its first-cell test alone checks the one cell. */
  lemma SingleCellAntiProbe(sq: seq<Cell>, m: Mark)
    requires |sq| == 1
    ensures Fits(Probe(0, 0, 0), |sq|)
    ensures Hits(sq, Probe(0, 0, 0), m) <==> Complete(1, sq, AntiDiagonal, m)
  {
    assert Matches(sq, m, 0, 0, 0);
    if sq[0] == Some(m) {
      forall row, col | 0 <= row < 1 && 0 <= col < 1 && OnLine(1, AntiDiagonal, row, col)
        ensures sq[Idx(1, row, col)] == Some(m)
      {
      }
    }
    if Complete(1, sq, AntiDiagonal, m) {
      assert OnLine(1, AntiDiagonal, 0, 0);
    }
  }

  /** The probe from n-1 with step n-1 below n*n-1 checks the anti-diagonal when n >= 2. */
  lemma AntiProbe(n: nat, sq: seq<Cell>, m: Mark)
    requires n >= 2 && |sq| == n * n
    ensures Fits(Probe(n - 1, n - 1, n * n - 1), |sq|)
    ensures Hits(sq, Probe(n - 1, n - 1, n * n - 1), m) <==> Complete(n, sq, AntiDiagonal, m)
  {
    var p := Probe(n - 1, n - 1, n * n - 1);
    assert Nth(p.start, p.step, n - 1) == n * n - n by {
      assert (n - 1) * (n - 1) == n * n - 2 * n + 1;
    }
    assert Nth(p.start, p.step, n) == n * n - 1 by {
      assert n * (n - 1) == n * n - n;
    }
    forall t | 0 <= t < n
      ensures Nth(p.start, p.step, t) == Idx(n, LineCell(n, AntiDiagonal, t).0, LineCell(n, AntiDiagonal, t).1)
    {
      assert t * (n - 1) == n * t - t;
    }
    Bridge(n, sq, m, AntiDiagonal, p);
  }

  /** The probe for line k of the scan order succeeds with m exactly when that line is complete with m. */
  lemma ProbeMatchesLine(n: nat, sq: seq<Cell>, k: nat, m: Mark)
    requires n >= 1 && |sq| == n * n && k < 2 * n + 2
    ensures Hits(sq, Probes(n)[k], m) <==> Complete(n, sq, ScanLines(n)[k], m)
  {
    var ps := Probes(n);
    var lines := ScanLines(n);
    if k < n {
      assert ps[k] == Probe(k * n, 1, k * n + n) && lines[k] == Contiguous(k);
      ContiguousProbe(n, sq, k, m);
    } else if k < 2 * n {
      assert ps[k] == Probe(k - n, n, n * n) && lines[k] == Strided(k - n);
      StridedProbe(n, sq, k - n, m);
    } else if k == 2 * n {
      assert ps[k] == Probe(0, n + 1, n * n) && lines[k] == MainDiagonal;
      MainProbe(n, sq, m);
    } else {
      assert ps[k] == Probe(n - 1, n - 1, n * n - 1) && lines[k] == AntiDiagonal;
      if n == 1 {
        SingleCellAntiProbe(sq, m);
      } else {
        AntiProbe(n, sq, m);
      }
    }
  }

  /** The owner of line k is the mark of its probe's first cell when the probe succeeds, and nobody otherwise. */
  lemma OwnerByProbe(n: nat, sq: seq<Cell>, k: nat)
    requires n >= 1 && |sq| == n * n && k < 2 * n + 2
    ensures var p := Probes(n)[k];
            Owner(n, sq, ScanLines(n)[k]) ==
              if sq[p.start] != None && Matches(sq, sq[p.start].value, p.start, p.step, p.limit)
              then sq[p.start] else None
  {
    var p := Probes(n)[k];
    var line := ScanLines(n)[k];
    assert Fits(p, |sq|);
    ProbeMatchesLine(n, sq, k, X);
    ProbeMatchesLine(n, sq, k, O);
    var cx := Complete(n, sq, line, X);
    var co := Complete(n, sq, line, O);
    assert Owner(n, sq, line) == if cx then Some(X) else if co then Some(O) else None;
    assert cx == Hits(sq, p, X) && co == Hits(sq, p, O);
    match sq[p.start]
    case None =>
    case Some(X) =>
      assert !co;
    case Some(O) =>
      assert !cx;
  }

  /** The probe loop of checkFinished, from probe k on, with winner field w on entry. */
  function RunProbes(sq: seq<Cell>, probes: seq<Probe>, k: nat, w: Cell): (r: (bool, Cell))
    requires forall j :: 0 <= j < |probes| ==> Fits(probes[j], |sq|)
    requires k <= |probes|
    decreases |probes| - k
    ensures r.0 ==> r.1.Some? && exists j :: k <= j < |probes| && Fits(probes[j], |sq|) && r.1 == sq[probes[j].start]
    ensures !r.0 ==> r.1 == w || r.1 == None
  {
    if k == |probes| then (false, w)
    else
      var p := probes[k];
      assert Fits(p, |sq|);
      if sq[p.start] == None then RunProbes(sq, probes, k + 1, w)
      else if Matches(sq, sq[p.start].value, p.start, p.step, p.limit) then (true, sq[p.start])
      else RunProbes(sq, probes, k + 1, None)
  }

  /**
   * Running the probes from k on finds a line exactly when some line from k on is
   * complete, and then reports the owner of the first such line. Otherwise the winner
   * is cleared or left as it was, and on a full board it is always cleared.
   */
  lemma {:induction false} RunProbesAgree(n: nat, sq: seq<Cell>, k: nat, w: Cell)
    requires n >= 1 && |sq| == n * n && k <= 2 * n + 2
    decreases 2 * n + 2 - k
    ensures var r := RunProbes(sq, Probes(n), k, w);
            && (r.0 <==> FirstWinnerFrom(n, sq, k).Some?)
            && (r.0 ==> r.1 == FirstWinnerFrom(n, sq, k))
            && (!r.0 ==> r.1 == w || r.1 == None)
            && (!r.0 && k < 2 * n + 2 && Full(sq) ==> r.1 == None)
  {
    if k < 2 * n + 2 {
      OwnerByProbe(n, sq, k);
      RunProbesAgree(n, sq, k + 1, w);
      RunProbesAgree(n, sq, k + 1, None);
    }
  }
}
