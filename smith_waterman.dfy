/** `smith_waterman(sequence1, sequence2, scoring_scheme)`: the dynamic-programming
    fill of local-alignment scores, the tracking of the best cells, and the
    breadth-first backtrace that emits one alignment per tie-following path from
    a best cell back to its first zero cell, duplicates included. The functions below define what each phase computes; the methods run the
    source's loops and are proved to compute it. */
module SmithWaterman {
  import opened Errors
  import opened Scoring

  /** The inputs of one alignment: the field values of the scheme and the two sequences. */
  datatype Problem = Problem(scheme: Params, s1: string, s2: string)

  /** What the engine returns: the best score and the alignments, each a pair of
      gapped strings. */
  datatype Output = Output(bestScore: int, alignments: seq<(string, string)>)

  /** A partial alignment of the backtrace: the two strings built so far and the
      cell reached. */
  datatype Partial = Partial(a1: string, a2: string, i: nat, j: nat)

  predicate InTable(pr: Problem, i: nat, j: nat) {
    i <= |pr.s1| && j <= |pr.s2|
  }

  function Max(a: int, b: int): int {
    if a < b then b else a
  }

  /** `max(a, b, c, d)`. */
  function Max4(a: int, b: int, c: int, d: int): int {
    Max(Max(a, b), Max(c, d))
  }

  /** `scoring_scheme(sequence1[i - 1], sequence2[j - 1])`, asked for at cell (i, j). */
  function Pair(pr: Problem, i: nat, j: nat): Result<int, Error>
    requires 1 <= i <= |pr.s1| && 1 <= j <= |pr.s2|
  {
    PairScore(pr.scheme, pr.s1[i - 1], pr.s2[j - 1])
  }

  /** The value of `Pair`, where it succeeds; the fill stops before any cell
      whose pair fails, so the 0 is never used. */
  function Diagonal(pr: Problem, i: nat, j: nat): int
    requires 1 <= i <= |pr.s1| && 1 <= j <= |pr.s2|
  {
    match Pair(pr, i, j)
    case Ok(v) => v
    case Err(_) => 0
  }

  /** `A[i, j]`: 0 on row 0 and column 0, elsewhere the best of extending the
      diagonal neighbour with the pair score, the upper or the left neighbour
      with a gap, and restarting at 0. */
  function Cell(pr: Problem, i: nat, j: nat): (v: int)
    requires InTable(pr, i, j)
    ensures v >= 0
    decreases i + j
  {
    if i == 0 || j == 0 then 0
    else Max4(Cell(pr, i - 1, j - 1) + Diagonal(pr, i, j),
              Cell(pr, i - 1, j) + pr.scheme.gapPenalty,
              Cell(pr, i, j - 1) + pr.scheme.gapPenalty,
              0)
  }

  /** The first failing pair among cells (i, 1) .. (i, j). */
  function RowError(pr: Problem, i: nat, j: nat): Option<Error>
    requires 1 <= i <= |pr.s1| && j <= |pr.s2|
  {
    if j == 0 then None
    else if RowError(pr, i, j - 1).Some? then RowError(pr, i, j - 1)
    else if Pair(pr, i, j).Err? then Some(Pair(pr, i, j).error)
    else None
  }

  /** The first failing pair, in row-major order, among rows 1 .. i: the
      exception that stops the fill. */
  function FillError(pr: Problem, i: nat): Option<Error>
    requires i <= |pr.s1|
  {
    if i == 0 then None
    else if FillError(pr, i - 1).Some? then FillError(pr, i - 1)
    else RowError(pr, i, |pr.s2|)
  }

  /** The largest of 0 and the cells (i, 1) .. (i, j). */
  function RowBest(pr: Problem, i: nat, j: nat): int
    requires 1 <= i <= |pr.s1| && j <= |pr.s2|
  {
    if j == 0 then 0 else Max(RowBest(pr, i, j - 1), Cell(pr, i, j))
  }

  /** The largest of 0 and the cells of rows 1 .. i. */
  function TableBest(pr: Problem, i: nat): int
    requires i <= |pr.s1|
  {
    if i == 0 then 0 else Max(TableBest(pr, i - 1), RowBest(pr, i, |pr.s2|))
  }

  /** The cells (i, 1) .. (i, j) whose value is `v`, left to right. */
  function RowLocations(pr: Problem, v: int, i: nat, j: nat): seq<(nat, nat)>
    requires 1 <= i <= |pr.s1| && j <= |pr.s2|
  {
    if j == 0 then []
    else RowLocations(pr, v, i, j - 1) + (if Cell(pr, i, j) == v then [(i, j)] else [])
  }

  /** The cells of rows 1 .. i whose value is `v`, in row-major order. */
  function Locations(pr: Problem, v: int, i: nat): seq<(nat, nat)>
    requires i <= |pr.s1|
  {
    if i == 0 then [] else Locations(pr, v, i - 1) + RowLocations(pr, v, i, |pr.s2|)
  }

  /** Every location of a row lies in that row, in its first `j` columns, and
      holds `v`. */
  lemma {:induction false} RowLocationsHold(pr: Problem, v: int, i: nat, j: nat)
    requires 1 <= i <= |pr.s1| && j <= |pr.s2|
    ensures forall k :: 0 <= k < |RowLocations(pr, v, i, j)| ==>
              var (r, c) := RowLocations(pr, v, i, j)[k];
              r == i && 1 <= c <= j && Cell(pr, r, c) == v
  {
    if j > 0 {
      RowLocationsHold(pr, v, i, j - 1);
    }
  }

  /** Every location lies in rows 1 .. i, off row and column 0, and holds `v`. */
  lemma {:induction false} LocationsHold(pr: Problem, v: int, i: nat)
    requires i <= |pr.s1|
    ensures forall k :: 0 <= k < |Locations(pr, v, i)| ==>
              var (r, c) := Locations(pr, v, i)[k];
              1 <= r <= i && 1 <= c <= |pr.s2| && Cell(pr, r, c) == v
  {
    if i > 0 {
      LocationsHold(pr, v, i - 1);
      RowLocationsHold(pr, v, i, |pr.s2|);
    }
  }

  predicate AllInTable(pr: Problem, ps: seq<Partial>) {
    forall k :: 0 <= k < |ps| ==> InTable(pr, ps[k].i, ps[k].j)
  }

  /** The successors of a partial at a non-zero cell: one for each of the
      diagonal, upper and left terms that reproduces the cell's value, in that
      order, each prepending that column to the strings. */
  function Expand(pr: Problem, p: Partial): (next: seq<Partial>)
    requires InTable(pr, p.i, p.j) && Cell(pr, p.i, p.j) != 0
    ensures AllInTable(pr, next)
  {
    var i, j, v, gap := p.i, p.j, Cell(pr, p.i, p.j), pr.scheme.gapPenalty;
    var diagonal: seq<Partial> :=
      if v == Cell(pr, i - 1, j - 1) + Diagonal(pr, i, j)
      then [Partial([pr.s1[i - 1]] + p.a1, [pr.s2[j - 1]] + p.a2, i - 1, j - 1)] else [];
    var up :=
      if v == Cell(pr, i - 1, j) + gap
      then diagonal + [Partial([pr.s1[i - 1]] + p.a1, [Gap] + p.a2, i - 1, j)] else diagonal;
    if v == Cell(pr, i, j - 1) + gap
    then up + [Partial([Gap] + p.a1, [pr.s2[j - 1]] + p.a2, i, j - 1)] else up
  }

  // The three successors are written out in `Expand`, which follows the
  // source's `if`s, and again in the moves and steps below, which name each
  // successor on its own for the lemmas about ties. `DiagonalStepIs`,
  // `UpStepIs`, `LeftStepIs` and `ExpandSplit` prove the copies agree;
  // defining one copy through another makes the backtrace proofs much costlier.

  /** A diagonal step back: both symbols taken. */
  function DiagonalMove(pr: Problem, p: Partial): Partial
    requires 1 <= p.i <= |pr.s1| && 1 <= p.j <= |pr.s2|
  {
    Partial([pr.s1[p.i - 1]] + p.a1, [pr.s2[p.j - 1]] + p.a2, p.i - 1, p.j - 1)
  }

  /** A step up: a symbol of the first sequence against a gap. */
  function UpMove(pr: Problem, p: Partial): Partial
    requires 1 <= p.i <= |pr.s1|
  {
    Partial([pr.s1[p.i - 1]] + p.a1, [Gap] + p.a2, p.i - 1, p.j)
  }

  /** A step left: a gap against a symbol of the second sequence. */
  function LeftMove(pr: Problem, p: Partial): Partial
    requires 1 <= p.j <= |pr.s2|
  {
    Partial([Gap] + p.a1, [pr.s2[p.j - 1]] + p.a2, p.i, p.j - 1)
  }

  /** The diagonal successor, when its term reproduces the cell's value. */
  function DiagonalStep(pr: Problem, p: Partial): seq<Partial>
    requires 1 <= p.i <= |pr.s1| && 1 <= p.j <= |pr.s2|
  {
    if Cell(pr, p.i, p.j) == Cell(pr, p.i - 1, p.j - 1) + Diagonal(pr, p.i, p.j)
    then [Partial([pr.s1[p.i - 1]] + p.a1, [pr.s2[p.j - 1]] + p.a2, p.i - 1, p.j - 1)] else []
  }

  /** The upper successor, when its term reproduces the cell's value. */
  function UpStep(pr: Problem, p: Partial): seq<Partial>
    requires 1 <= p.i <= |pr.s1| && p.j <= |pr.s2|
  {
    if Cell(pr, p.i, p.j) == Cell(pr, p.i - 1, p.j) + pr.scheme.gapPenalty
    then [Partial([pr.s1[p.i - 1]] + p.a1, [Gap] + p.a2, p.i - 1, p.j)] else []
  }

  /** The left successor, when its term reproduces the cell's value. */
  function LeftStep(pr: Problem, p: Partial): seq<Partial>
    requires p.i <= |pr.s1| && 1 <= p.j <= |pr.s2|
  {
    if Cell(pr, p.i, p.j) == Cell(pr, p.i, p.j - 1) + pr.scheme.gapPenalty
    then [Partial([Gap] + p.a1, [pr.s2[p.j - 1]] + p.a2, p.i, p.j - 1)] else []
  }

  /** The diagonal step holds its move exactly when the diagonal term ties with the cell. */
  lemma DiagonalStepIs(pr: Problem, p: Partial)
    requires 1 <= p.i <= |pr.s1| && 1 <= p.j <= |pr.s2|
    ensures DiagonalStep(pr, p) == [] || DiagonalStep(pr, p) == [DiagonalMove(pr, p)]
    ensures DiagonalStep(pr, p) != [] <==>
              Cell(pr, p.i, p.j) == Cell(pr, p.i - 1, p.j - 1) + Diagonal(pr, p.i, p.j)
  {
  }

  /** The upper step holds its move exactly when the upper term ties with the cell. */
  lemma UpStepIs(pr: Problem, p: Partial)
    requires 1 <= p.i <= |pr.s1| && p.j <= |pr.s2|
    ensures UpStep(pr, p) == [] || UpStep(pr, p) == [UpMove(pr, p)]
    ensures UpStep(pr, p) != [] <==> Cell(pr, p.i, p.j) == Cell(pr, p.i - 1, p.j) + pr.scheme.gapPenalty
  {
  }

  /** The left step holds its move exactly when the left term ties with the cell. */
  lemma LeftStepIs(pr: Problem, p: Partial)
    requires p.i <= |pr.s1| && 1 <= p.j <= |pr.s2|
    ensures LeftStep(pr, p) == [] || LeftStep(pr, p) == [LeftMove(pr, p)]
    ensures LeftStep(pr, p) != [] <==> Cell(pr, p.i, p.j) == Cell(pr, p.i, p.j - 1) + pr.scheme.gapPenalty
  {
  }

  /** The successors of a partial are its tying diagonal, upper and left steps, in that order. */
  lemma ExpandSplit(pr: Problem, p: Partial)
    requires InTable(pr, p.i, p.j) && Cell(pr, p.i, p.j) != 0
    ensures Expand(pr, p) == DiagonalStep(pr, p) + UpStep(pr, p) + LeftStep(pr, p)
  {
  }

  /** One more than the largest `i + j` of the partials: the backtrace's measure. */
  function Height(ps: seq<Partial>): (h: nat)
    ensures forall k :: 0 <= k < |ps| ==> ps[k].i + ps[k].j < h
  {
    if ps == [] then 0
    else Max(Height(ps[..|ps| - 1]), ps[|ps| - 1].i + ps[|ps| - 1].j + 1)
  }

  /** `Height` is the least bound: any bound on every `i + j + 1` bounds it. */
  lemma {:induction false} HeightLeast(ps: seq<Partial>, h: nat)
    requires forall k :: 0 <= k < |ps| ==> ps[k].i + ps[k].j < h
    ensures Height(ps) <= h
  {
    if ps != [] {
      HeightLeast(ps[..|ps| - 1], h);
    }
  }

  /** The alignments one pass over the worklist emits: those of its partials at
      a zero cell, in worklist order. */
  function Emitted(pr: Problem, ps: seq<Partial>): seq<(string, string)>
    requires AllInTable(pr, ps)
  {
    if ps == [] then []
    else
      var p := ps[|ps| - 1];
      Emitted(pr, ps[..|ps| - 1]) + (if Cell(pr, p.i, p.j) == 0 then [(p.a1, p.a2)] else [])
  }

  /** The next worklist: the successors of the partials at non-zero cells, in
      worklist order. Every successor lies strictly closer to the origin than
      the worklist's measure allows, so the backtrace terminates. */
  function Successors(pr: Problem, ps: seq<Partial>): (next: seq<Partial>)
    requires AllInTable(pr, ps)
    ensures AllInTable(pr, next)
  {
    if ps == [] then []
    else
      var p := ps[|ps| - 1];
      Successors(pr, ps[..|ps| - 1]) + (if Cell(pr, p.i, p.j) == 0 then [] else Expand(pr, p))
  }

  /** The alignments the `while len(partials) > 0` loop emits from worklist `ps` on. */
  function BacktraceFrom(pr: Problem, ps: seq<Partial>): seq<(string, string)>
    requires AllInTable(pr, ps)
    decreases Height(ps)
  {
    if ps == [] then []
    else
      SuccessorsLower(pr, ps);
      Emitted(pr, ps) + BacktraceFrom(pr, Successors(pr, ps))
  }

  /** Every successor lies strictly closer to the origin than the worklist's
      measure allows. */
  lemma {:induction false} SuccessorsBelow(pr: Problem, ps: seq<Partial>)
    requires AllInTable(pr, ps)
    ensures forall k :: 0 <= k < |Successors(pr, ps)| ==>
      Successors(pr, ps)[k].i + Successors(pr, ps)[k].j + 1 < Height(ps)
  {
    if ps != [] {
      var front, p := ps[..|ps| - 1], ps[|ps| - 1];
      SuccessorsBelow(pr, front);
      var tail := if Cell(pr, p.i, p.j) == 0 then [] else Expand(pr, p);
      assert Successors(pr, ps) == Successors(pr, front) + tail;
      if Cell(pr, p.i, p.j) != 0 {
        ExpandBelow(pr, p);
      }
    }
  }

  /** Each successor steps back one row, one column or both. */
  lemma ExpandBelow(pr: Problem, p: Partial)
    requires InTable(pr, p.i, p.j) && Cell(pr, p.i, p.j) != 0
    ensures forall k :: 0 <= k < |Expand(pr, p)| ==>
      Expand(pr, p)[k].i + Expand(pr, p)[k].j < p.i + p.j
  {
  }

  /** So each pass lowers the measure of a non-empty worklist. */
  lemma SuccessorsLower(pr: Problem, ps: seq<Partial>)
    requires AllInTable(pr, ps) && ps != []
    ensures Height(Successors(pr, ps)) < Height(ps)
  {
    SuccessorsBelow(pr, ps);
    HeightLeast(Successors(pr, ps), Height(ps) - 1);
  }

  /** One pass of the backtrace: what the worklist emits now followed by what
      its successors emit, on a strictly lower measure. */
  lemma BacktraceStep(pr: Problem, ps: seq<Partial>)
    requires AllInTable(pr, ps) && ps != []
    ensures BacktraceFrom(pr, ps) == Emitted(pr, ps) + BacktraceFrom(pr, Successors(pr, ps))
    ensures Height(Successors(pr, ps)) < Height(ps)
  {
    SuccessorsLower(pr, ps);
  }

  /** The initial worklist: one empty partial per best location. */
  function Starts(locs: seq<(nat, nat)>): (ps: seq<Partial>)
    ensures |ps| == |locs|
    ensures forall k :: 0 <= k < |locs| ==> ps[k] == Partial("", "", locs[k].0, locs[k].1)
  {
    seq(|locs|, k requires 0 <= k < |locs| => Partial("", "", locs[k].0, locs[k].1))
  }

  /** What `smith_waterman` returns, or the exception it raises. */
  function Align(pr: Problem): Result<Output, Error> {
    match FillError(pr, |pr.s1|)
    case Some(e) => Err(e)
    case None =>
      var best := TableBest(pr, |pr.s1|);
      LocationsHold(pr, best, |pr.s1|);
      Ok(Output(best, BacktraceFrom(pr, Starts(Locations(pr, best, |pr.s1|)))))
  }

  lemma {:induction false} RowErrorPersists(pr: Problem, i: nat, j: nat, k: nat)
    requires 1 <= i <= |pr.s1| && j <= k <= |pr.s2|
    requires RowError(pr, i, j).Some?
    ensures RowError(pr, i, k) == RowError(pr, i, j)
    decreases k - j
  {
    if j < k {
      RowErrorPersists(pr, i, j + 1, k);
    }
  }

  lemma {:induction false} FillErrorPersists(pr: Problem, i: nat, k: nat)
    requires i <= k <= |pr.s1|
    requires FillError(pr, i).Some?
    ensures FillError(pr, k) == FillError(pr, i)
    decreases k - i
  {
    if i < k {
      FillErrorPersists(pr, i + 1, k);
    }
  }

  /** The first failing pair in row-major order is the exception the fill raises. */
  lemma FirstFailureStopsFill(pr: Problem, i: nat, j: nat)
    requires 1 <= i <= |pr.s1| && 1 <= j <= |pr.s2|
    requires FillError(pr, i - 1).None? && RowError(pr, i, j - 1).None?
    requires Pair(pr, i, j).Err?
    ensures FillError(pr, |pr.s1|) == Some(Pair(pr, i, j).error)
  {
    RowErrorPersists(pr, i, j, |pr.s2|);
    FillErrorPersists(pr, i, |pr.s1|);
  }

  lemma {:induction false} RowLocationsAbove(pr: Problem, v: int, i: nat, j: nat)
    requires 1 <= i <= |pr.s1| && j <= |pr.s2|
    requires RowBest(pr, i, j) < v
    ensures RowLocations(pr, v, i, j) == []
  {
    if j > 0 {
      RowLocationsAbove(pr, v, i, j - 1);
    }
  }

  lemma {:induction false} LocationsAbove(pr: Problem, v: int, i: nat)
    requires i <= |pr.s1|
    requires TableBest(pr, i) < v
    ensures Locations(pr, v, i) == []
  {
    if i > 0 {
      LocationsAbove(pr, v, i - 1);
      RowLocationsAbove(pr, v, i, |pr.s2|);
    }
  }

  /** Whether rows 0 .. i - 1 of `A` hold the cells of the table and column 0 is 0. */
  ghost predicate FilledUpTo(pr: Problem, A: array2<int>, i: nat)
    reads A
  {
    A.Length0 == |pr.s1| + 1 && A.Length1 == |pr.s2| + 1 && i <= |pr.s1| + 1 &&
    (forall p, q {:trigger A[p, q]} :: 0 <= p < i && 0 <= q <= |pr.s2| ==> A[p, q] == Cell(pr, p, q)) &&
    (forall p :: 0 <= p <= |pr.s1| ==> A[p, 0] == 0)
  }

  /** The right-hand side of `A[i, j] = max(...)`, from the three neighbours
      already in the table; the exception of the pair score if it raises. */
  method CellValue(ghost pr: Problem, A: array2<int>, i: nat, j: nat, s1: string, s2: string,
                   scheme: ScoringScheme, gap: int)
    returns (r: Result<int, Error>)
    requires pr == Problem(scheme.Value(), s1, s2) && gap == scheme.gapPenalty
    requires 1 <= i <= |s1| && 1 <= j <= |s2| && FilledUpTo(pr, A, i)
    requires forall q {:trigger A[i, q]} :: 0 <= q < j ==> A[i, q] == Cell(pr, i, q)
    ensures r.Err? <==> Pair(pr, i, j).Err?
    ensures r.Err? ==> r.error == Pair(pr, i, j).error
    ensures r.Ok? ==> r.value == Cell(pr, i, j)
  {
    var pair := scheme.Score([s1[i - 1]], [s2[j - 1]]);
    PairIsOneColumnScore(pr.scheme, s1[i - 1], s2[j - 1]);
    if pair.Err? {
      return Err(pair.error);
    }
    assert A[i - 1, j - 1] == Cell(pr, i - 1, j - 1) && A[i - 1, j] == Cell(pr, i - 1, j);
    assert A[i, j - 1] == Cell(pr, i, j - 1);
    r := Ok(Max4(A[i - 1, j - 1] + pair.value, A[i - 1, j] + gap, A[i, j - 1] + gap, 0));
  }

  /** The two `if`s after the cell assignment: a cell equal to the best so far is
      appended, a cell above it resets the list. Either way the best and the
      list stay those of the cells visited so far. */
  method RecordCell(ghost pr: Problem, i: nat, j: nat, cell: int, best0: int,
                    locations0: seq<(nat, nat)>)
    returns (best: int, locations: seq<(nat, nat)>)
    requires 1 <= i <= |pr.s1| && 1 <= j <= |pr.s2| && cell == Cell(pr, i, j)
    requires best0 == Max(TableBest(pr, i - 1), RowBest(pr, i, j - 1))
    requires locations0 == Locations(pr, best0, i - 1) + RowLocations(pr, best0, i, j - 1)
    ensures best == Max(TableBest(pr, i - 1), RowBest(pr, i, j))
    ensures locations == Locations(pr, best, i - 1) + RowLocations(pr, best, i, j)
  {
    ghost var above, left := Locations(pr, best0, i - 1), RowLocations(pr, best0, i, j - 1);
    assert RowLocations(pr, best0, i, j) == left + (if cell == best0 then [(i, j)] else []);
    best, locations := best0, locations0;
    if cell == best {
      assert (above + left) + [(i, j)] == above + (left + [(i, j)]);
      locations := locations + [(i, j)];
    }
    if cell > best {
      LocationsAbove(pr, cell, i - 1);
      RowLocationsAbove(pr, cell, i, j - 1);
      assert RowLocations(pr, cell, i, j) == [] + [(i, j)];
      best, locations := cell, [(i, j)];
    }
  }

  /** `A[i, j] = ...`: storing a cell keeps the rows above and the row so far filled. */
  method StoreCell(ghost pr: Problem, A: array2<int>, i: nat, j: nat, v: int)
    requires 1 <= i <= |pr.s1| && 1 <= j <= |pr.s2| && FilledUpTo(pr, A, i)
    requires forall q {:trigger A[i, q]} :: 0 <= q < j ==> A[i, q] == Cell(pr, i, q)
    requires v == Cell(pr, i, j)
    modifies A
    ensures FilledUpTo(pr, A, i)
    ensures forall q {:trigger A[i, q]} :: 0 <= q <= j ==> A[i, q] == Cell(pr, i, q)
  {
    A[i, j] := v;
  }

  /** A completed row extends the filled prefix of the table by one row. */
  lemma FilledNextRow(pr: Problem, A: array2<int>, i: nat)
    requires i <= |pr.s1| && FilledUpTo(pr, A, i)
    requires forall q {:trigger A[i, q]} :: 0 <= q <= |pr.s2| ==> A[i, q] == Cell(pr, i, q)
    ensures FilledUpTo(pr, A, i + 1)
  {
  }

  /** The body of the inner `for j` loop: compute and store cell (i, j), then
      update the best score and its locations. */
  method VisitCell(ghost pr: Problem, A: array2<int>, i: nat, j: nat, s1: string, s2: string,
                   scheme: ScoringScheme, gap: int, best0: int, locations0: seq<(nat, nat)>)
    returns (error: Option<Error>, best: int, locations: seq<(nat, nat)>)
    requires pr == Problem(scheme.Value(), s1, s2) && gap == scheme.gapPenalty
    requires scheme.scoringMatrix != A
    requires 1 <= i <= |s1| && 1 <= j <= |s2| && FilledUpTo(pr, A, i)
    requires forall q {:trigger A[i, q]} :: 0 <= q < j ==> A[i, q] == Cell(pr, i, q)
    requires RowError(pr, i, j - 1).None?
    requires best0 == Max(TableBest(pr, i - 1), RowBest(pr, i, j - 1))
    requires locations0 == Locations(pr, best0, i - 1) + RowLocations(pr, best0, i, j - 1)
    modifies A
    ensures error == RowError(pr, i, j)
    ensures error.None? ==> FilledUpTo(pr, A, i)
    ensures error.None? ==> forall q {:trigger A[i, q]} :: 0 <= q <= j ==> A[i, q] == Cell(pr, i, q)
    ensures error.None? ==> best == Max(TableBest(pr, i - 1), RowBest(pr, i, j))
    ensures error.None? ==> locations == Locations(pr, best, i - 1) + RowLocations(pr, best, i, j)
  {
    var cell := CellValue(pr, A, i, j, s1, s2, scheme, gap);
    if cell.Err? {
      return Some(cell.error), best0, locations0;
    }
    StoreCell(pr, A, i, j, cell.value);
    error := None;
    best, locations := RecordCell(pr, i, j, cell.value, best0, locations0);
  }

  /** The inner loop `for j in range(1, max_j)` over row `i`. */
  method FillRow(ghost pr: Problem, A: array2<int>, i: nat, s1: string, s2: string,
                 scheme: ScoringScheme, gap: int, best0: int, locations0: seq<(nat, nat)>)
    returns (error: Option<Error>, best: int, locations: seq<(nat, nat)>)
    requires pr == Problem(scheme.Value(), s1, s2) && gap == scheme.gapPenalty
    requires scheme.scoringMatrix != A
    requires 1 <= i <= |pr.s1| && FilledUpTo(pr, A, i)
    requires best0 == TableBest(pr, i - 1) && locations0 == Locations(pr, best0, i - 1)
    modifies A
    ensures error == RowError(pr, i, |pr.s2|)
    ensures error.None? ==> FilledUpTo(pr, A, i + 1)
    ensures error.None? ==> best == TableBest(pr, i) && locations == Locations(pr, best, i)
  {
    best, locations := best0, locations0;
    for j := 1 to |s2| + 1
      invariant pr.scheme == scheme.Value()
      invariant RowError(pr, i, j - 1).None?
      invariant FilledUpTo(pr, A, i)
      invariant forall q {:trigger A[i, q]} :: 0 <= q < j ==> A[i, q] == Cell(pr, i, q)
      invariant best == Max(TableBest(pr, i - 1), RowBest(pr, i, j - 1))
      invariant locations == Locations(pr, best, i - 1) + RowLocations(pr, best, i, j - 1)
    {
      error, best, locations := VisitCell(pr, A, i, j, s1, s2, scheme, gap, best, locations);
      if error.Some? {
        RowErrorPersists(pr, i, j, |s2|);
        return;
      }
    }
    FilledNextRow(pr, A, i);
    error := None;
  }

  /** `np.empty` and the two zero assignments: a table of `len(sequence1) + 1` rows and `len(sequence2) + 1`
      columns whose first row and first column are 0. */
  method NewTable(ghost pr: Problem, s1: string, s2: string) returns (A: array2<int>)
    requires s1 == pr.s1 && s2 == pr.s2
    ensures fresh(A) && FilledUpTo(pr, A, 1)
  {
    var n, m := |s1|, |s2|;
    A := new int[n + 1, m + 1];
    forall j | 0 <= j <= m {
      A[0, j] := 0;
    }
    forall i | 0 <= i <= n {
      A[i, 0] := 0;
    }
  }

  /** The nested fill loops. On success the table holds `Cell` everywhere, `best`
      is the largest cell (and at least 0), and `locations` lists the cells equal
      to it in row-major order; otherwise the error is that of the first failing
      pair in row-major order. */
  method FillMatrix(s1: string, s2: string, scheme: ScoringScheme)
    returns (error: Option<Error>, A: array2<int>, best: int, locations: seq<(nat, nat)>)
    ensures fresh(A)
    ensures error == FillError(Problem(scheme.Value(), s1, s2), |s1|)
    ensures error.None? ==> FilledUpTo(Problem(scheme.Value(), s1, s2), A, |s1| + 1)
    ensures error.None? ==> best == TableBest(Problem(scheme.Value(), s1, s2), |s1|)
    ensures error.None? ==> locations == Locations(Problem(scheme.Value(), s1, s2), best, |s1|)
  {
    ghost var pr := Problem(scheme.Value(), s1, s2);
    var gap := scheme.gapPenalty;
    var n := |s1|;
    A := NewTable(pr, s1, s2);
    best, locations := 0, [];
    for i := 1 to n + 1
      invariant pr.scheme == scheme.Value()
      invariant FillError(pr, i - 1).None?
      invariant FilledUpTo(pr, A, i)
      invariant best == TableBest(pr, i - 1)
      invariant locations == Locations(pr, best, i - 1)
    {
      error, best, locations := FillRow(pr, A, i, s1, s2, scheme, gap, best, locations);
      if error.Some? {
        FillErrorPersists(pr, i, n);
        return;
      }
    }
    error := None;
  }

  /** A fill that raised nothing found every pair score of the table. */
  lemma {:induction false} PairsSucceed(pr: Problem, i: nat, j: nat)
    requires 1 <= i <= |pr.s1| && 1 <= j <= |pr.s2|
    requires FillError(pr, |pr.s1|).None?
    ensures Pair(pr, i, j).Ok?
  {
    if FillError(pr, i).Some? {
      FillErrorPersists(pr, i, |pr.s1|);
    }
    assert RowError(pr, i, |pr.s2|).None?;
    if RowError(pr, i, j).Some? {
      RowErrorPersists(pr, i, j, |pr.s2|);
    }
  }

  /** Emitting and expanding one more partial of a worklist pass. */
  lemma PassStep(pr: Problem, ps: seq<Partial>, k: nat)
    requires AllInTable(pr, ps) && k < |ps|
    ensures AllInTable(pr, ps[..k]) && AllInTable(pr, ps[..k + 1])
    ensures Emitted(pr, ps[..k + 1])
            == Emitted(pr, ps[..k]) +
               (if Cell(pr, ps[k].i, ps[k].j) == 0 then [(ps[k].a1, ps[k].a2)] else [])
    ensures Successors(pr, ps[..k + 1])
            == Successors(pr, ps[..k]) +
               (if Cell(pr, ps[k].i, ps[k].j) == 0 then [] else Expand(pr, ps[k]))
  {
    assert ps[..k + 1][..k] == ps[..k];
  }

  /** The three `if` statements of the backtrace's `else` branch for one partial at a non-zero
      cell, given the pair score of its diagonal step. */
  method ExpandPartial(ghost pr: Problem, A: array2<int>, p: Partial, s1: string, s2: string,
                       scheme: ScoringScheme, gap: int)
    returns (next: seq<Partial>)
    requires pr == Problem(scheme.Value(), s1, s2) && gap == scheme.gapPenalty
    requires FillError(pr, |s1|).None? && FilledUpTo(pr, A, |s1| + 1)
    requires InTable(pr, p.i, p.j) && Cell(pr, p.i, p.j) != 0
    ensures next == Expand(pr, p)
  {
    var pair := scheme.Score([s1[p.i - 1]], [s2[p.j - 1]]);
    PairIsOneColumnScore(pr.scheme, s1[p.i - 1], s2[p.j - 1]);
    PairsSucceed(pr, p.i, p.j);
    next := Branches(pr, A, p, s1, s2, pair.value, gap);
  }

  /** The three tests themselves, against the filled table. */
  method Branches(ghost pr: Problem, A: array2<int>, p: Partial, s1: string, s2: string,
                  diagonal: int, gap: int)
    returns (next: seq<Partial>)
    requires s1 == pr.s1 && s2 == pr.s2 && gap == pr.scheme.gapPenalty
    requires FilledUpTo(pr, A, |s1| + 1)
    requires InTable(pr, p.i, p.j) && Cell(pr, p.i, p.j) != 0
    requires diagonal == Diagonal(pr, p.i, p.j)
    ensures next == Expand(pr, p)
  {
    var i, j := p.i, p.j;
    assert A[i, j] == Cell(pr, i, j) && A[i - 1, j - 1] == Cell(pr, i - 1, j - 1);
    assert A[i - 1, j] == Cell(pr, i - 1, j) && A[i, j - 1] == Cell(pr, i, j - 1);
    next := [];
    if A[i, j] == A[i - 1, j - 1] + diagonal {
      next := [Partial([s1[i - 1]] + p.a1, [s2[j - 1]] + p.a2, i - 1, j - 1)];
    }
    if A[i, j] == A[i - 1, j] + gap {
      next := next + [Partial([s1[i - 1]] + p.a1, [Gap] + p.a2, i - 1, j)];
    }
    if A[i, j] == A[i, j - 1] + gap {
      next := next + [Partial([Gap] + p.a1, [s2[j - 1]] + p.a2, i, j - 1)];
    }
  }

  /** One pass of the `for` loop over the worklist: the
      alignments it appends and the next worklist it builds. */
  method Pass(ghost pr: Problem, A: array2<int>, partials: seq<Partial>, s1: string, s2: string,
              scheme: ScoringScheme, gap: int)
    returns (emitted: seq<(string, string)>, next: seq<Partial>)
    requires pr == Problem(scheme.Value(), s1, s2) && gap == scheme.gapPenalty
    requires FillError(pr, |s1|).None? && FilledUpTo(pr, A, |s1| + 1)
    requires AllInTable(pr, partials)
    ensures emitted == Emitted(pr, partials)
    ensures next == Successors(pr, partials)
  {
    emitted, next := [], [];
    for k := 0 to |partials|
      invariant AllInTable(pr, partials[..k])
      invariant next == Successors(pr, partials[..k])
      invariant emitted == Emitted(pr, partials[..k])
    {
      var p := partials[k];
      PassStep(pr, partials, k);
      assert A[p.i, p.j] == Cell(pr, p.i, p.j);
      if A[p.i, p.j] == 0 {
        emitted := emitted + [(p.a1, p.a2)];
      } else {
        var successors := ExpandPartial(pr, A, p, s1, s2, scheme, gap);
        next := next + successors;
      }
    }
    assert partials[..|partials|] == partials;
  }

  /** The backtrace: the `while len(partials) > 0` loop over worklists,
      each pass emitting the partials at zero cells and collecting the
      successors of the others. */
  method Backtrace(ghost pr: Problem, A: array2<int>, s1: string, s2: string, scheme: ScoringScheme,
                   locations: seq<(nat, nat)>)
    returns (alignments: seq<(string, string)>)
    requires pr == Problem(scheme.Value(), s1, s2)
    requires FillError(pr, |s1|).None? && FilledUpTo(pr, A, |s1| + 1)
    requires forall k :: 0 <= k < |locations| ==> InTable(pr, locations[k].0, locations[k].1)
    ensures alignments == BacktraceFrom(pr, Starts(locations))
  {
    var gap := scheme.gapPenalty;
    alignments := [];
    var partials := Starts(locations);
    ghost var total := BacktraceFrom(pr, partials);
    while |partials| > 0
      invariant AllInTable(pr, partials)
      invariant alignments + BacktraceFrom(pr, partials) == total
      decreases Height(partials)
    {
      var emitted, next := Pass(pr, A, partials, s1, s2, scheme, gap);
      BacktraceStep(pr, partials);
      assert alignments + BacktraceFrom(pr, partials) == (alignments + emitted) + BacktraceFrom(pr, next);
      alignments := alignments + emitted;
      partials := next;
    }
  }

  /** `smith_waterman(sequence1, sequence2, scoring_scheme)`: the best local
      alignment score and every alignment the backtrace emits, or the exception
      of the first pair score that raises. */
  method SmithWaterman(s1: string, s2: string, scheme: ScoringScheme)
    returns (r: Result<Output, Error>)
    ensures r == Align(Problem(scheme.Value(), s1, s2))
  {
    ghost var pr := Problem(scheme.Value(), s1, s2);
    var error, A, best, locations := FillMatrix(s1, s2, scheme);
    if error.Some? {
      return Err(error.value);
    }
    LocationsHold(pr, best, |s1|);
    var alignments := Backtrace(pr, A, s1, s2, scheme, locations);
    return Ok(Output(best, alignments));
  }
}
