/** What every alignment the backtrace emits looks like when neither sequence
    contains the gap symbol: its two strings have equal length, no column is
    a gap in both, deleting the gaps gives a contiguous piece of each sequence
    running from a cell holding 0 to a cell holding the best score, and
    re-scoring it column by column, without the gap-start surcharge, gives
    the best score. */
module Soundness {
  import opened Errors
  import opened Scoring
  import opened SmithWaterman

  /** The string with every gap symbol deleted. */
  function Ungapped(s: string): (u: string)
    ensures |u| <= |s|
  {
    if s == [] then [] else (if s[0] == Gap then [] else [s[0]]) + Ungapped(s[1..])
  }

  /** Prepending one symbol prepends it to the ungapped string unless it is a gap. */
  lemma UngappedCons(c: char, s: string)
    ensures Ungapped([c] + s) == (if c == Gap then [] else [c]) + Ungapped(s)
  {
    assert ([c] + s)[1..] == s;
  }

  predicate NoGap(s: string) {
    forall k :: 0 <= k < |s| ==> s[k] != Gap
  }

  /** Two rows of an alignment: equally long and never a gap in both. */
  predicate GapConsistent(a1: string, a2: string) {
    |a1| == |a2| && forall k :: 0 <= k < |a1| ==> !(a1[k] == Gap && a2[k] == Gap)
  }

  /** The same, column by column from the left. */
  predicate Paired(a1: string, a2: string)
    decreases |a1|
  {
    if a1 == [] || a2 == [] then a1 == [] && a2 == []
    else !(a1[0] == Gap && a2[0] == Gap) && Paired(a1[1..], a2[1..])
  }

  lemma {:induction false} PairedIsGapConsistent(a1: string, a2: string)
    ensures Paired(a1, a2) <==> GapConsistent(a1, a2)
    decreases |a1|
  {
    if a1 != [] && a2 != [] {
      PairedIsGapConsistent(a1[1..], a2[1..]);
      if GapConsistent(a1, a2) {
        assert forall k :: 0 <= k < |a1| - 1 ==> a1[1..][k] == a1[k + 1] && a2[1..][k] == a2[k + 1];
      }
      if GapConsistent(a1[1..], a2[1..]) && !(a1[0] == Gap && a2[0] == Gap) {
        forall k | 0 <= k < |a1|
          ensures !(a1[k] == Gap && a2[k] == Gap)
        {
          if k > 0 {
            assert a1[k] == a1[1..][k - 1] && a2[k] == a2[1..][k - 1];
          }
        }
      }
    }
  }

  /** The column sum does not look at the gap-start surcharge. */
  lemma {:induction false} PairSumIgnoresGapStart(p: Params, x: string, y: string)
    ensures PairSum(WithoutGapStart(p), x, y) == PairSum(p, x, y)
    decreases |x|
  {
    if x != [] && y != [] {
      PairSumIgnoresGapStart(p, x[1..], y[1..]);
    }
  }

  /** The cell a partial started from: its own cell moved forward over the
      symbols its strings have taken. */
  function StartI(p: Partial): nat {
    p.i + |Ungapped(p.a1)|
  }

  function StartJ(p: Partial): nat {
    p.j + |Ungapped(p.a2)|
  }

  /** The ungapped strings of a partial are the symbols of the sequences
      between its cell and the cell it started from. */
  ghost predicate Covers(pr: Problem, p: Partial) {
    StartI(p) <= |pr.s1| && StartJ(p) <= |pr.s2| &&
    Ungapped(p.a1) == pr.s1[p.i..StartI(p)] && Ungapped(p.a2) == pr.s2[p.j..StartJ(p)]
  }

  /** A partial at a cell holding `v`, on its way back from a cell holding
      `best`: its strings form a gap-consistent alignment of the pieces of the
      sequences between its cell and the cell it started from, and its
      columns sum to `best - v`. */
  ghost predicate TracksAt(pr: Problem, best: int, p: Partial, v: int) {
    Covers(pr, p) && Paired(p.a1, p.a2) &&
    PairSum(pr.scheme, p.a1, p.a2) == Ok(best - v)
  }

  /** The same at the partial's own cell, for a start cell holding `best`. */
  ghost predicate Tracks(pr: Problem, best: int, p: Partial) {
    InTable(pr, p.i, p.j) && TracksAt(pr, best, p, Cell(pr, p.i, p.j)) &&
    Cell(pr, StartI(p), StartJ(p)) == best
  }

  /** The conditions under which `q` is `p` with the column `c1`/`c2` prepended,
      stepping back over the symbols the column takes. */
  predicate Step(pr: Problem, p: Partial, q: Partial, c1: char, c2: char) {
    q.a1 == [c1] + p.a1 && q.a2 == [c2] + p.a2 &&
    !(c1 == Gap && c2 == Gap) &&
    ((c1 == Gap && q.i == p.i) || (c1 != Gap && q.i + 1 == p.i && q.i < |pr.s1| && c1 == pr.s1[q.i])) &&
    ((c2 == Gap && q.j == p.j) || (c2 != Gap && q.j + 1 == p.j && q.j < |pr.s2| && c2 == pr.s2[q.j]))
  }

  /** Prepending symbol `c` to a row covering `s[i..i0]` covers `s[i2..i0]`,
      where `i2` is `i` for a gap and `i - 1` for the symbol before `s[i]`. */
  lemma PrependCovers(s: string, a: string, c: char, i: nat, i2: nat, i0: nat)
    requires i <= i0 <= |s| && Ungapped(a) == s[i..i0]
    requires (c == Gap && i2 == i) || (c != Gap && i2 + 1 == i && c == s[i2])
    ensures Ungapped([c] + a) == s[i2..i0]
  {
    UngappedCons(c, a);
    if c != Gap {
      assert s[i2..i0] == [c] + s[i..i0];
    }
  }

  /** A step keeps the starting cell and the covered pieces. */
  lemma StepCovers(pr: Problem, p: Partial, q: Partial, c1: char, c2: char)
    requires Covers(pr, p) && Step(pr, p, q, c1, c2)
    ensures Covers(pr, q) && StartI(q) == StartI(p) && StartJ(q) == StartJ(p)
  {
    PrependCovers(pr.s1, p.a1, c1, p.i, q.i, StartI(p));
    PrependCovers(pr.s2, p.a2, c2, p.j, q.j, StartJ(p));
  }

  /** A step keeps the alignment gap-consistent and adds its column's score. */
  lemma StepColumns(pr: Problem, p: Partial, q: Partial, c1: char, c2: char)
    requires Paired(p.a1, p.a2) && Step(pr, p, q, c1, c2)
    ensures Paired(q.a1, q.a2)
    ensures PairSum(pr.scheme, q.a1, q.a2) == Plus(PairScore(pr.scheme, c1, c2), PairSum(pr.scheme, p.a1, p.a2))
  {
    assert q.a1[1..] == p.a1 && q.a2[1..] == p.a2;
  }

  /** A step whose column scores the difference of the two cells' values
      keeps a partial tracking. */
  lemma StepTracks(pr: Problem, best: int, p: Partial, q: Partial, c1: char, c2: char, vp: int, vq: int)
    requires TracksAt(pr, best, p, vp) && Step(pr, p, q, c1, c2)
    requires PairScore(pr.scheme, c1, c2) == Ok(vp - vq)
    ensures TracksAt(pr, best, q, vq) && StartI(q) == StartI(p) && StartJ(q) == StartJ(p)
  {
    StepCovers(pr, p, q, c1, c2);
    StepColumns(pr, p, q, c1, c2);
  }

  /** A step to another cell of the table whose column scores the difference
      of the two cells keeps a partial tracking. */
  lemma SuccessorTracks(pr: Problem, best: int, p: Partial, q: Partial, c1: char, c2: char)
    requires Tracks(pr, best, p) && Step(pr, p, q, c1, c2) && InTable(pr, q.i, q.j)
    requires PairScore(pr.scheme, c1, c2) == Ok(Cell(pr, p.i, p.j) - Cell(pr, q.i, q.j))
    ensures Tracks(pr, best, q)
  {
    StepTracks(pr, best, p, q, c1, c2, Cell(pr, p.i, p.j), Cell(pr, q.i, q.j));
  }

  /** Every partial of the worklist tracks `best`. */
  ghost predicate AllTrack(pr: Problem, best: int, ps: seq<Partial>) {
    forall k :: 0 <= k < |ps| ==> Tracks(pr, best, ps[k])
  }

  /** The diagonal successor of a tracking partial tracks. */
  lemma DiagonalTracks(pr: Problem, best: int, p: Partial)
    requires 1 <= p.i <= |pr.s1| && 1 <= p.j <= |pr.s2| && Tracks(pr, best, p)
    requires pr.s1[p.i - 1] != Gap && pr.s2[p.j - 1] != Gap && Pair(pr, p.i, p.j).Ok?
    ensures AllTrack(pr, best, DiagonalStep(pr, p))
  {
    var c1, c2 := pr.s1[p.i - 1], pr.s2[p.j - 1];
    var q := Partial([c1] + p.a1, [c2] + p.a2, p.i - 1, p.j - 1);
    assert PairScore(pr.scheme, c1, c2) == Ok(Diagonal(pr, p.i, p.j));
    if DiagonalStep(pr, p) != [] {
      SuccessorTracks(pr, best, p, q, c1, c2);
      assert DiagonalStep(pr, p) == [q];
    }
  }

  /** The upper successor, a gap in the second row, tracks. */
  lemma UpTracks(pr: Problem, best: int, p: Partial)
    requires 1 <= p.i <= |pr.s1| && p.j <= |pr.s2| && Tracks(pr, best, p)
    requires pr.s1[p.i - 1] != Gap
    ensures AllTrack(pr, best, UpStep(pr, p))
  {
    var c1 := pr.s1[p.i - 1];
    var q := Partial([c1] + p.a1, [Gap] + p.a2, p.i - 1, p.j);
    assert PairScore(pr.scheme, c1, Gap) == Ok(pr.scheme.gapPenalty);
    if UpStep(pr, p) != [] {
      SuccessorTracks(pr, best, p, q, c1, Gap);
      assert UpStep(pr, p) == [q];
    }
  }

  /** The left successor, a gap in the first row, tracks. */
  lemma LeftTracks(pr: Problem, best: int, p: Partial)
    requires p.i <= |pr.s1| && 1 <= p.j <= |pr.s2| && Tracks(pr, best, p)
    requires pr.s2[p.j - 1] != Gap
    ensures AllTrack(pr, best, LeftStep(pr, p))
  {
    var c2 := pr.s2[p.j - 1];
    var q := Partial([Gap] + p.a1, [c2] + p.a2, p.i, p.j - 1);
    assert PairScore(pr.scheme, Gap, c2) == Ok(pr.scheme.gapPenalty);
    if LeftStep(pr, p) != [] {
      SuccessorTracks(pr, best, p, q, Gap, c2);
      assert LeftStep(pr, p) == [q];
    }
  }

  lemma AllTrackConcat(pr: Problem, best: int, xs: seq<Partial>, ys: seq<Partial>)
    requires AllTrack(pr, best, xs) && AllTrack(pr, best, ys)
    ensures AllTrack(pr, best, xs + ys)
  {
    forall k | 0 <= k < |xs + ys|
      ensures Tracks(pr, best, (xs + ys)[k])
    {
      if k < |xs| {
        assert (xs + ys)[k] == xs[k];
      } else {
        assert (xs + ys)[k] == ys[k - |xs|];
      }
    }
  }

  /** Every successor of a tracking partial tracks the same best score. */
  lemma ExpandTracks(pr: Problem, best: int, p: Partial)
    requires InTable(pr, p.i, p.j) && Cell(pr, p.i, p.j) != 0
    requires pr.s1[p.i - 1] != Gap && pr.s2[p.j - 1] != Gap && Pair(pr, p.i, p.j).Ok?
    requires Tracks(pr, best, p)
    ensures AllTrack(pr, best, Expand(pr, p))
  {
    var ds, us, ls := DiagonalStep(pr, p), UpStep(pr, p), LeftStep(pr, p);
    ExpandSplit(pr, p);
    DiagonalTracks(pr, best, p);
    UpTracks(pr, best, p);
    LeftTracks(pr, best, p);
    AllTrackConcat(pr, best, ds, us);
    AllTrackConcat(pr, best, ds + us, ls);
  }

  /** The next worklist of a tracking worklist tracks as well. */
  lemma {:induction false} SuccessorsTrack(pr: Problem, best: int, ps: seq<Partial>)
    requires NoGap(pr.s1) && NoGap(pr.s2) && FillError(pr, |pr.s1|).None?
    requires AllInTable(pr, ps) && AllTrack(pr, best, ps)
    ensures AllTrack(pr, best, Successors(pr, ps))
  {
    if ps != [] {
      var front, p := ps[..|ps| - 1], ps[|ps| - 1];
      assert forall k :: 0 <= k < |front| ==> front[k] == ps[k];
      SuccessorsTrack(pr, best, front);
      var tail := if Cell(pr, p.i, p.j) == 0 then [] else Expand(pr, p);
      assert Successors(pr, ps) == Successors(pr, front) + tail;
      if Cell(pr, p.i, p.j) != 0 {
        PairsSucceed(pr, p.i, p.j);
        ExpandTracks(pr, best, p);
      }
      AllTrackConcat(pr, best, Successors(pr, front), tail);
    }
  }

  /** Where an emitted alignment lies: it starts at cell (i, j), which holds 0,
      its ungapped strings are the symbols of the sequences that follow that
      cell, and the cell they lead to holds the best score. */
  ghost predicate Spans(pr: Problem, best: int, a: (string, string), i: nat, j: nat) {
    var i0, j0 := i + |Ungapped(a.0)|, j + |Ungapped(a.1)|;
    i0 <= |pr.s1| && j0 <= |pr.s2| &&
    Cell(pr, i, j) == 0 && Cell(pr, i0, j0) == best &&
    Ungapped(a.0) == pr.s1[i..i0] && Ungapped(a.1) == pr.s2[j..j0]
  }

  /** An emitted alignment is sound: gap-consistent, lying between a zero cell
      and a best cell, and summing to the best score. */
  ghost predicate Sound(pr: Problem, best: int, a: (string, string)) {
    Paired(a.0, a.1) &&
    PairSum(pr.scheme, a.0, a.1) == Ok(best) &&
    exists i: nat, j: nat :: Spans(pr, best, a, i, j)
  }

  /** A tracking partial at a zero cell emits a sound alignment. */
  lemma ZeroCellSound(pr: Problem, best: int, p: Partial)
    requires Tracks(pr, best, p) && Cell(pr, p.i, p.j) == 0
    ensures Sound(pr, best, (p.a1, p.a2))
  {
    assert Spans(pr, best, (p.a1, p.a2), p.i, p.j);
  }

  /** What one pass emits from a tracking worklist is sound. */
  lemma {:induction false} EmittedSound(pr: Problem, best: int, ps: seq<Partial>)
    requires AllInTable(pr, ps) && AllTrack(pr, best, ps)
    ensures forall a :: a in Emitted(pr, ps) ==> Sound(pr, best, a)
  {
    if ps != [] {
      var front, p := ps[..|ps| - 1], ps[|ps| - 1];
      assert forall k :: 0 <= k < |front| ==> front[k] == ps[k];
      EmittedSound(pr, best, front);
      if Cell(pr, p.i, p.j) == 0 {
        ZeroCellSound(pr, best, p);
      }
    }
  }

  /** Everything the backtrace emits from a tracking worklist is sound. */
  lemma {:induction false} BacktraceSound(pr: Problem, best: int, ps: seq<Partial>)
    requires NoGap(pr.s1) && NoGap(pr.s2) && FillError(pr, |pr.s1|).None?
    requires AllInTable(pr, ps) && AllTrack(pr, best, ps)
    ensures forall a :: a in BacktraceFrom(pr, ps) ==> Sound(pr, best, a)
    decreases Height(ps)
  {
    if ps != [] {
      BacktraceStep(pr, ps);
      EmittedSound(pr, best, ps);
      SuccessorsTrack(pr, best, ps);
      BacktraceSound(pr, best, Successors(pr, ps));
    }
  }

  /** The initial worklist tracks the best score: each empty partial sits on a
      cell holding it. */
  lemma StartsTrack(pr: Problem, best: int)
    requires best == TableBest(pr, |pr.s1|)
    ensures AllInTable(pr, Starts(Locations(pr, best, |pr.s1|)))
    ensures AllTrack(pr, best, Starts(Locations(pr, best, |pr.s1|)))
  {
    var locs := Locations(pr, best, |pr.s1|);
    LocationsHold(pr, best, |pr.s1|);
    var ps := Starts(locs);
    forall k | 0 <= k < |ps|
      ensures Tracks(pr, best, ps[k])
    {
      assert ps[k] == Partial("", "", locs[k].0, locs[k].1);
    }
  }

  /** Every alignment `smith_waterman` returns, for sequences without the gap
      symbol, has equal-length rows with no double-gap column, lies between a
      zero cell and a best cell over contiguous pieces of the two sequences,
      and re-scores to the best score once the gap-start surcharge is off. */
  lemma AlignmentsSound(pr: Problem)
    requires NoGap(pr.s1) && NoGap(pr.s2)
    requires Align(pr).Ok?
    ensures var out := Align(pr).value;
      forall a :: a in out.alignments ==>
        GapConsistent(a.0, a.1) &&
        AlignmentScore(WithoutGapStart(pr.scheme), a.0, a.1) == Ok(out.bestScore) &&
        exists i: nat, j: nat :: Spans(pr, out.bestScore, a, i, j)
  {
    var best := TableBest(pr, |pr.s1|);
    StartsTrack(pr, best);
    var ps := Starts(Locations(pr, best, |pr.s1|));
    BacktraceSound(pr, best, ps);
    assert Align(pr).value == Output(best, BacktraceFrom(pr, ps));
    forall a | a in BacktraceFrom(pr, ps)
      ensures GapConsistent(a.0, a.1)
      ensures AlignmentScore(WithoutGapStart(pr.scheme), a.0, a.1) == Ok(best)
    {
      PairedIsGapConsistent(a.0, a.1);
      ScoreWithoutGapStartIsPairSum(WithoutGapStart(pr.scheme), a.0, a.1);
      PairSumIgnoresGapStart(pr.scheme, a.0, a.1);
    }
  }
}
