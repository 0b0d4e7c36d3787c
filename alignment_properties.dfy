/** Properties of the Smith-Waterman model: the best score is the table maximum,
    the best locations are exactly the cells reaching it in row-major order,
    the degenerate inputs, and the branching of the backtrace. */
module AlignmentProperties {
  import opened Errors
  import opened Scoring
  import opened SmithWaterman

  /** Every cell of the table, row 0 and column 0 included, is non-negative. */
  lemma CellsNonNegative(pr: Problem)
    ensures forall i, j :: 0 <= i <= |pr.s1| && 0 <= j <= |pr.s2| ==> Cell(pr, i, j) >= 0
    ensures forall i, j :: 0 <= i <= |pr.s1| && 0 <= j <= |pr.s2| && (i == 0 || j == 0) ==>
              Cell(pr, i, j) == 0
  {
  }

  /** The best of row `i` after `j` columns is at least 0 and at least every cell visited. */
  lemma {:induction false} RowBestBounds(pr: Problem, i: nat, j: nat)
    requires 1 <= i <= |pr.s1| && j <= |pr.s2|
    ensures RowBest(pr, i, j) >= 0
    ensures forall q :: 1 <= q <= j ==> Cell(pr, i, q) <= RowBest(pr, i, j)
  {
    if j > 0 {
      RowBestBounds(pr, i, j - 1);
      var before, best := RowBest(pr, i, j - 1), RowBest(pr, i, j);
      assert best == Max(before, Cell(pr, i, j));
      forall q | 1 <= q <= j
        ensures Cell(pr, i, q) <= best
      {
        if q < j {
          assert Cell(pr, i, q) <= before;
        }
      }
    }
  }

  /** The best of row `i` after `j` columns is 0 or the value of one of those cells. */
  lemma {:induction false} RowBestAttained(pr: Problem, i: nat, j: nat)
    requires 1 <= i <= |pr.s1| && j <= |pr.s2|
    ensures RowBest(pr, i, j) == 0 || exists q :: 1 <= q <= j && Cell(pr, i, q) == RowBest(pr, i, j)
  {
    if j > 0 {
      RowBestAttained(pr, i, j - 1);
      var before, cell := RowBest(pr, i, j - 1), Cell(pr, i, j);
      assert RowBest(pr, i, j) == Max(before, cell);
      if RowBest(pr, i, j) == cell {
        assert exists q :: 1 <= q <= j && Cell(pr, i, q) == RowBest(pr, i, j);
      } else if before != 0 {
        var q :| 1 <= q <= j - 1 && Cell(pr, i, q) == before;
        assert 1 <= q <= j && Cell(pr, i, q) == RowBest(pr, i, j);
      }
    }
  }

  /** The best of a row is its maximum: non-negative, at least every cell, and
      either 0 or attained. */
  lemma RowBestIsMax(pr: Problem, i: nat, j: nat)
    requires 1 <= i <= |pr.s1| && j <= |pr.s2|
    ensures RowBest(pr, i, j) >= 0
    ensures forall q :: 1 <= q <= j ==> Cell(pr, i, q) <= RowBest(pr, i, j)
    ensures RowBest(pr, i, j) == 0 || exists q :: 1 <= q <= j && Cell(pr, i, q) == RowBest(pr, i, j)
  {
    RowBestBounds(pr, i, j);
    RowBestAttained(pr, i, j);
  }

  /** `best_score` after `i` rows: at least 0, at least every cell visited, and
      either 0 or the value of one of them. */
  lemma {:induction false} TableBestIsMax(pr: Problem, i: nat)
    requires i <= |pr.s1|
    ensures TableBest(pr, i) >= 0
    ensures forall r, q :: 1 <= r <= i && 1 <= q <= |pr.s2| ==> Cell(pr, r, q) <= TableBest(pr, i)
    ensures TableBest(pr, i) == 0 ||
            exists r, q :: 1 <= r <= i && 1 <= q <= |pr.s2| && Cell(pr, r, q) == TableBest(pr, i)
  {
    if i > 0 {
      TableBestIsMax(pr, i - 1);
      RowBestIsMax(pr, i, |pr.s2|);
    }
  }

  /** The best score of a successful alignment is the maximum over the whole
      table and 0: no cell exceeds it, and some cell attains it. */
  lemma BestIsTableMaximum(pr: Problem)
    requires Align(pr).Ok?
    ensures var best := Align(pr).value.bestScore;
      (forall i, j :: 0 <= i <= |pr.s1| && 0 <= j <= |pr.s2| ==> Cell(pr, i, j) <= best) &&
      exists i, j :: 0 <= i <= |pr.s1| && 0 <= j <= |pr.s2| && Cell(pr, i, j) == best
  {
    TableBestIsMax(pr, |pr.s1|);
    var best := Align(pr).value.bestScore;
    if best == 0 {
      assert Cell(pr, 0, 0) == best;
    }
  }

  /** Whether location `x` comes before location `y` in row-major order. */
  predicate RowMajor(x: (nat, nat), y: (nat, nat)) {
    x.0 < y.0 || (x.0 == y.0 && x.1 < y.1)
  }

  /** Strictly increasing in row-major order, so also free of repeats. */
  predicate Ascending(locs: seq<(nat, nat)>) {
    forall a, b :: 0 <= a < b < |locs| ==> RowMajor(locs[a], locs[b])
  }

  /** A row's locations for `v` are exactly its first `j` cells holding `v`, left to right. */
  lemma {:induction false} RowLocationsExact(pr: Problem, v: int, i: nat, j: nat)
    requires 1 <= i <= |pr.s1| && j <= |pr.s2|
    ensures forall c :: 1 <= c <= j && Cell(pr, i, c) == v ==> (i, c) in RowLocations(pr, v, i, j)
    ensures forall x :: x in RowLocations(pr, v, i, j) ==> x.0 == i && 1 <= x.1 <= j && Cell(pr, x.0, x.1) == v
    ensures Ascending(RowLocations(pr, v, i, j))
  {
    if j > 0 {
      RowLocationsExact(pr, v, i, j - 1);
    }
  }

  /** The locations for `v` after `i` rows are exactly the cells of rows 1 .. i
      holding `v`, in row-major order. */
  lemma {:induction false} LocationsExact(pr: Problem, v: int, i: nat)
    requires i <= |pr.s1|
    ensures forall r, c :: 1 <= r <= i && 1 <= c <= |pr.s2| && Cell(pr, r, c) == v ==>
              (r, c) in Locations(pr, v, i)
    ensures forall x :: x in Locations(pr, v, i) ==>
              1 <= x.0 <= i && 1 <= x.1 <= |pr.s2| && Cell(pr, x.0, x.1) == v
    ensures Ascending(Locations(pr, v, i))
  {
    if i > 0 {
      LocationsExact(pr, v, i - 1);
      RowLocationsExact(pr, v, i, |pr.s2|);
      var above, row := Locations(pr, v, i - 1), RowLocations(pr, v, i, |pr.s2|);
      assert Locations(pr, v, i) == above + row;
      forall a, b | 0 <= a < b < |above + row|
        ensures RowMajor((above + row)[a], (above + row)[b])
      {
        if b < |above| {
        } else if a < |above| {
          assert above[a] in above && row[b - |above|] in row;
        } else {
          assert (above + row)[a] == row[a - |above|] && (above + row)[b] == row[b - |above|];
        }
      }
    }
  }

  /** The best locations of a successful alignment: each cell of the table
      holding the best score appears, nothing else does, and they appear in
      the order the fill visits them. */
  lemma BestLocationsExact(pr: Problem)
    ensures var best, locs := TableBest(pr, |pr.s1|), Locations(pr, TableBest(pr, |pr.s1|), |pr.s1|);
      (forall r, c :: 1 <= r <= |pr.s1| && 1 <= c <= |pr.s2| ==> (Cell(pr, r, c) == best <==> (r, c) in locs)) &&
      (forall x :: x in locs ==> 1 <= x.0 <= |pr.s1| && 1 <= x.1 <= |pr.s2|) &&
      Ascending(locs)
  {
    LocationsExact(pr, TableBest(pr, |pr.s1|), |pr.s1|);
  }

  /** With an empty second sequence no row has a cell to fill. */
  lemma {:induction false} NoColumns(pr: Problem, v: int, i: nat)
    requires |pr.s2| == 0 && i <= |pr.s1|
    ensures FillError(pr, i).None? && TableBest(pr, i) == 0 && Locations(pr, v, i) == []
  {
    if i > 0 {
      NoColumns(pr, v, i - 1);
    }
  }

  /** Either sequence empty: best score 0 and no alignment. */
  lemma EmptySequence(pr: Problem)
    requires |pr.s1| == 0 || |pr.s2| == 0
    ensures Align(pr) == Ok(Output(0, []))
  {
    if |pr.s1| > 0 {
      NoColumns(pr, 0, |pr.s1|);
    }
    assert Starts([]) == [];
  }

  /** With every cell 0, each row contributes all of its cells. */
  lemma {:induction false} ZeroRowLocations(pr: Problem, i: nat, j: nat)
    requires 1 <= i <= |pr.s1| && j <= |pr.s2|
    requires forall c :: 1 <= c <= j ==> Cell(pr, i, c) == 0
    ensures |RowLocations(pr, 0, i, j)| == j
  {
    if j > 0 {
      ZeroRowLocations(pr, i, j - 1);
    }
  }

  lemma {:induction false} ZeroLocations(pr: Problem, i: nat)
    requires i <= |pr.s1|
    requires forall r, c :: 1 <= r <= i && 1 <= c <= |pr.s2| ==> Cell(pr, r, c) == 0
    ensures |Locations(pr, 0, i)| == i * |pr.s2|
  {
    if i > 0 {
      ZeroLocations(pr, i - 1);
      ZeroRowLocations(pr, i, |pr.s2|);
      assert i * |pr.s2| == (i - 1) * |pr.s2| + |pr.s2|;
    }
  }

  /** A worklist whose partials all sit at zero cells emits each partial's
      strings and has no successors. */
  lemma {:induction false} AllAtZero(pr: Problem, ps: seq<Partial>)
    requires AllInTable(pr, ps)
    requires forall k :: 0 <= k < |ps| ==> Cell(pr, ps[k].i, ps[k].j) == 0
    ensures |Emitted(pr, ps)| == |ps|
    ensures forall k :: 0 <= k < |ps| ==> Emitted(pr, ps)[k] == (ps[k].a1, ps[k].a2)
    ensures Successors(pr, ps) == []
  {
    if ps != [] {
      AllAtZero(pr, ps[..|ps| - 1]);
    }
  }

  /** Both sequences non-empty but no cell positive: every cell ties with the
      best score 0 and is emitted at once as an empty alignment, one per cell. */
  lemma NothingPositive(pr: Problem)
    requires FillError(pr, |pr.s1|).None?
    requires forall i, j :: 1 <= i <= |pr.s1| && 1 <= j <= |pr.s2| ==> Cell(pr, i, j) == 0
    ensures Align(pr).Ok? && Align(pr).value.bestScore == 0
    ensures |Align(pr).value.alignments| == |pr.s1| * |pr.s2|
    ensures forall k :: 0 <= k < |Align(pr).value.alignments| ==> Align(pr).value.alignments[k] == ("", "")
  {
    var n := |pr.s1|;
    TableBestIsMax(pr, n);
    assert TableBest(pr, n) == 0;
    var locs := Locations(pr, 0, n);
    ZeroLocations(pr, n);
    LocationsHold(pr, 0, n);
    var ps := Starts(locs);
    AllAtZero(pr, ps);
    if ps != [] {
      BacktraceStep(pr, ps);
      assert BacktraceFrom(pr, ps) == Emitted(pr, ps) + [];
    }
    assert Align(pr) == Ok(Output(0, BacktraceFrom(pr, ps)));
  }

  /** A partial at a non-zero cell has at least one successor: the cell's value
      came from one of its three non-zero terms. */
  lemma ExpandNonEmpty(pr: Problem, p: Partial)
    requires InTable(pr, p.i, p.j) && Cell(pr, p.i, p.j) != 0
    ensures |Expand(pr, p)| >= 1
  {
  }

  /** Every tie is followed: a partial's successors are exactly the diagonal,
      upper and left moves whose term of the maximum reproduces the cell's
      value, in that order. */
  lemma ExpandFollowsTies(pr: Problem, p: Partial)
    requires InTable(pr, p.i, p.j) && Cell(pr, p.i, p.j) != 0
    ensures var i, j, v, gap := p.i, p.j, Cell(pr, p.i, p.j), pr.scheme.gapPenalty;
      var next, diagonal, up, left := Expand(pr, p), DiagonalMove(pr, p), UpMove(pr, p), LeftMove(pr, p);
      (diagonal in next <==> v == Cell(pr, i - 1, j - 1) + Diagonal(pr, i, j)) &&
      (up in next <==> v == Cell(pr, i - 1, j) + gap) &&
      (left in next <==> v == Cell(pr, i, j - 1) + gap) &&
      (forall q :: q in next ==> q == diagonal || q == up || q == left) &&
      (diagonal in next ==> next[0] == diagonal) &&
      (left in next ==> next[|next| - 1] == left)
  {
    StepTies(pr, p);
    ExpandSplit(pr, p);
    TiesMembers(DiagonalStep(pr, p), UpStep(pr, p), LeftStep(pr, p), DiagonalMove(pr, p), UpMove(pr, p), LeftMove(pr, p));
  }

  /** Each step holds its one move exactly when that move's term ties with the cell. */
  lemma StepTies(pr: Problem, p: Partial)
    requires 1 <= p.i <= |pr.s1| && 1 <= p.j <= |pr.s2|
    ensures var i, j, v, gap := p.i, p.j, Cell(pr, p.i, p.j), pr.scheme.gapPenalty;
      (DiagonalStep(pr, p) == [] || DiagonalStep(pr, p) == [DiagonalMove(pr, p)]) &&
      (UpStep(pr, p) == [] || UpStep(pr, p) == [UpMove(pr, p)]) &&
      (LeftStep(pr, p) == [] || LeftStep(pr, p) == [LeftMove(pr, p)]) &&
      (DiagonalStep(pr, p) != [] <==> v == Cell(pr, i - 1, j - 1) + Diagonal(pr, i, j)) &&
      (UpStep(pr, p) != [] <==> v == Cell(pr, i - 1, j) + gap) &&
      (LeftStep(pr, p) != [] <==> v == Cell(pr, i, j - 1) + gap) &&
      DiagonalMove(pr, p) != UpMove(pr, p) && DiagonalMove(pr, p) != LeftMove(pr, p) &&
      UpMove(pr, p) != LeftMove(pr, p)
  {
    DiagonalStepIs(pr, p);
    UpStepIs(pr, p);
    LeftStepIs(pr, p);
  }

  /** Of three distinct candidates, each kept or dropped in the order diagonal,
      up, left, exactly the kept ones are present; the diagonal one first and
      the left one last. */
  lemma TiesMembers(ds: seq<Partial>, us: seq<Partial>, ls: seq<Partial>,
                    diagonal: Partial, up: Partial, left: Partial)
    requires diagonal != up && diagonal != left && up != left
    requires (ds == [] || ds == [diagonal]) && (us == [] || us == [up]) && (ls == [] || ls == [left])
    ensures var next := ds + us + ls;
      (diagonal in next <==> ds != []) && (up in next <==> us != []) && (left in next <==> ls != []) &&
      (forall q :: q in next ==> q == diagonal || q == up || q == left) &&
      (ds != [] ==> next[0] == diagonal) && (ls != [] ==> next[|next| - 1] == left)
  {
  }

  /** The default scheme of `ScoringScheme()`. */
  function DefaultParams(): Params {
    Params(1, -1, -1, 0, None)
  }

  /** Two one-symbol sequences under the default scheme. */
  predicate OneSymbolEach(pr: Problem) {
    pr.scheme == DefaultParams() && |pr.s1| == 1 && |pr.s2| == 1 && pr.s1[0] != Gap && pr.s2[0] != Gap
  }

  /** The table of a symbol against itself: one positive cell, the best, found at (1, 1). */
  lemma SelfMatchTable(pr: Problem)
    requires OneSymbolEach(pr) && pr.s1 == pr.s2
    ensures FillError(pr, 1) == None && TableBest(pr, 1) == 1 && Locations(pr, 1, 1) == [(1, 1)]
    ensures Cell(pr, 1, 1) == 1 && Cell(pr, 0, 0) == 0
  {
    assert Pair(pr, 1, 1) == PairScore(pr.scheme, pr.s1[0], pr.s2[0]) == Ok(1);
    assert Cell(pr, 1, 1) == 1;
    assert RowError(pr, 1, 1) == None;
    assert RowBest(pr, 1, 1) == 1;
    assert RowLocations(pr, 1, 1, 1) == [] + [(1, 1)];
  }

  /** The backtrace of a symbol against itself from (1, 1): one diagonal step to (0, 0). */
  lemma SelfMatchBacktrace(pr: Problem)
    requires OneSymbolEach(pr) && pr.s1 == pr.s2
    ensures BacktraceFrom(pr, [Partial("", "", 1, 1)]) == [(pr.s1, pr.s1)]
  {
    SelfMatchTable(pr);
    var start := Partial("", "", 1, 1);
    var last := Partial(pr.s1, pr.s1, 0, 0);
    assert [pr.s1[0]] + "" == pr.s1;
    assert Expand(pr, start) == [last];
    assert Successors(pr, [start]) == [last];
    assert Emitted(pr, [start]) == [];
    assert Emitted(pr, [last]) == [(pr.s1, pr.s1)];
    assert Successors(pr, [last]) == [];
    BacktraceStep(pr, [start]);
    BacktraceStep(pr, [last]);
  }

  /** With the default scheme a symbol aligned with itself scores 1, with that
      one column as the only alignment. */
  lemma SelfMatch(pr: Problem)
    requires OneSymbolEach(pr) && pr.s1 == pr.s2
    ensures Align(pr) == Ok(Output(1, [(pr.s1, pr.s1)]))
  {
    SelfMatchTable(pr);
    SelfMatchBacktrace(pr);
    assert Starts([(1, 1)]) == [Partial("", "", 1, 1)];
  }

  /** With the default scheme two different symbols fill a table of zeros, so
      the best score is 0 and the one cell yields the empty alignment. */
  lemma Mismatch(pr: Problem)
    requires OneSymbolEach(pr) && pr.s1 != pr.s2
    ensures Align(pr) == Ok(Output(0, [("", "")]))
  {
    assert Pair(pr, 1, 1) == PairScore(pr.scheme, pr.s1[0], pr.s2[0]) == Ok(-1);
    assert Cell(pr, 1, 1) == 0;
    assert RowError(pr, 1, 1) == None;
    assert FillError(pr, 1) == None;
    NothingPositive(pr);
    assert Align(pr).value.alignments == [("", "")];
  }

  /** The same problem with gap penalty `g`. */
  function WithGap(pr: Problem, g: int): Problem {
    pr.(scheme := pr.scheme.(gapPenalty := g))
  }

  /** A larger gap penalty raises no pair score of the table, and every pair
      fails exactly as before. */
  lemma PairGapMonotone(pr: Problem, g: int, i: nat, j: nat)
    requires g >= pr.scheme.gapPenalty && 1 <= i <= |pr.s1| && 1 <= j <= |pr.s2|
    ensures Diagonal(WithGap(pr, g), i, j) >= Diagonal(pr, i, j)
    ensures Pair(WithGap(pr, g), i, j).Err? == Pair(pr, i, j).Err?
    ensures Pair(pr, i, j).Err? ==> Pair(WithGap(pr, g), i, j) == Pair(pr, i, j)
  {
  }

  /** Every cell is at least as large under a larger gap penalty. */
  lemma {:induction false} CellGapMonotone(pr: Problem, g: int, i: nat, j: nat)
    requires g >= pr.scheme.gapPenalty && InTable(pr, i, j)
    ensures Cell(WithGap(pr, g), i, j) >= Cell(pr, i, j)
    decreases i + j
  {
    if i > 0 && j > 0 {
      CellGapMonotone(pr, g, i - 1, j - 1);
      CellGapMonotone(pr, g, i - 1, j);
      CellGapMonotone(pr, g, i, j - 1);
      PairGapMonotone(pr, g, i, j);
    }
  }

  lemma {:induction false} RowBestGapMonotone(pr: Problem, g: int, i: nat, j: nat)
    requires g >= pr.scheme.gapPenalty && 1 <= i <= |pr.s1| && j <= |pr.s2|
    ensures RowBest(WithGap(pr, g), i, j) >= RowBest(pr, i, j)
    ensures RowError(WithGap(pr, g), i, j) == RowError(pr, i, j)
  {
    if j > 0 {
      RowBestGapMonotone(pr, g, i, j - 1);
      CellGapMonotone(pr, g, i, j);
      PairGapMonotone(pr, g, i, j);
    }
  }

  lemma {:induction false} TableBestGapMonotone(pr: Problem, g: int, i: nat)
    requires g >= pr.scheme.gapPenalty && i <= |pr.s1|
    ensures TableBest(WithGap(pr, g), i) >= TableBest(pr, i)
    ensures FillError(WithGap(pr, g), i) == FillError(pr, i)
  {
    if i > 0 {
      TableBestGapMonotone(pr, g, i - 1);
      RowBestGapMonotone(pr, g, i, |pr.s2|);
    }
  }

  /** Making the gap penalty less negative never lowers the best score, and
      it neither causes nor removes an exception. */
  lemma GapMonotone(pr: Problem, g: int)
    requires g >= pr.scheme.gapPenalty
    ensures Align(WithGap(pr, g)).Ok? <==> Align(pr).Ok?
    ensures Align(pr).Ok? ==> Align(WithGap(pr, g)).value.bestScore >= Align(pr).value.bestScore
  {
    TableBestGapMonotone(pr, g, |pr.s1|);
  }

  /** When every pair of the table scores, the fill raises nothing. */
  lemma {:induction false} RowErrorNone(pr: Problem, i: nat, j: nat)
    requires 1 <= i <= |pr.s1| && j <= |pr.s2|
    requires forall q :: 1 <= q <= j ==> Pair(pr, i, q).Ok?
    ensures RowError(pr, i, j).None?
  {
    if j > 0 {
      RowErrorNone(pr, i, j - 1);
    }
  }

  lemma {:induction false} FillErrorNone(pr: Problem, i: nat)
    requires i <= |pr.s1|
    requires forall r, q :: 1 <= r <= i && 1 <= q <= |pr.s2| ==> Pair(pr, r, q).Ok?
    ensures FillError(pr, i).None?
  {
    if i > 0 {
      FillErrorNone(pr, i - 1);
      RowErrorNone(pr, i, |pr.s2|);
    }
  }

  /** A gap-free sequence against itself with no matrix loaded: each diagonal
      cell gains at least the match score over the one before it. */
  lemma {:induction false} SelfDiagonalBound(pr: Problem, k: nat)
    requires pr.s1 == pr.s2 && pr.scheme.table.None? && k <= |pr.s1|
    requires forall c :: 0 <= c < |pr.s1| ==> pr.s1[c] != Gap
    ensures Cell(pr, k, k) >= k * pr.scheme.matchScore
  {
    if k > 0 {
      SelfDiagonalBound(pr, k - 1);
      assert Diagonal(pr, k, k) == pr.scheme.matchScore;
      assert (k - 1) * pr.scheme.matchScore + pr.scheme.matchScore == k * pr.scheme.matchScore;
    }
  }

  /** A sequence without gaps aligned with itself, with no matrix loaded, raises
      nothing and scores at least its length times the match score. */
  lemma SelfAlignmentBound(pr: Problem)
    requires pr.s1 == pr.s2 && pr.scheme.table.None?
    requires forall c :: 0 <= c < |pr.s1| ==> pr.s1[c] != Gap
    ensures Align(pr).Ok? && Align(pr).value.bestScore >= |pr.s1| * pr.scheme.matchScore
  {
    var n := |pr.s1|;
    forall r, q | 1 <= r <= n && 1 <= q <= |pr.s2|
      ensures Pair(pr, r, q).Ok?
    {
      assert pr.s1[r - 1] != Gap && pr.s2[q - 1] != Gap;
    }
    FillErrorNone(pr, n);
    TableBestIsMax(pr, n);
    SelfDiagonalBound(pr, n);
    if n > 0 {
      assert Cell(pr, n, n) <= TableBest(pr, n);
    } else {
      assert TableBest(pr, n) >= 0;
    }
  }
}
