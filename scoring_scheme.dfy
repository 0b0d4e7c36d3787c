/** `ScoringScheme`: the scores of aligned columns, the whole-alignment scorer
    and the substitution matrix it may hold. The pure functions say what a
    scheme with given field values computes; the class holds those fields and
    runs the source's loops. */
module Scoring {
  import opened Errors
  import MatrixText

  /** The gap symbol. */
  const Gap: char := '-'

  /** A loaded substitution matrix: the symbol index and the rows of the matrix. */
  datatype Table = Table(indexBySymbol: map<string, nat>, entries: seq<seq<int>>)

  /** The values of a scheme's fields; `table` is `None` while no matrix is loaded. */
  datatype Params = Params(
    matchScore: int,
    mismatchPenalty: int,
    gapPenalty: int,
    gapStartPenalty: int,
    table: Option<Table>)

  /** The same scheme with the gap-start surcharge switched off. */
  function WithoutGapStart(p: Params): Params {
    p.(gapStartPenalty := 0)
  }

  /** The matrix entry for two symbols: both must be in the index, and the
      indices must lie inside the matrix. */
  function Lookup(t: Table, a: char, b: char): Result<int, Error> {
    if [a] !in t.indexBySymbol || [b] !in t.indexBySymbol then Err(UnknownSymbol)
    else
      var row, col := t.indexBySymbol[[a]], t.indexBySymbol[[b]];
      if row < |t.entries| && col < |t.entries[row]| then Ok(t.entries[row][col])
      else Err(IndexOutOfRange)
  }

  /** The score of one column before any gap-start surcharge: two gaps fail, one
      gap costs the gap penalty, two symbols are looked up in the matrix when one
      is loaded and scored as match or mismatch otherwise. */
  function PairScore(p: Params, a: char, b: char): Result<int, Error> {
    if a == Gap && b == Gap then Err(DoubleGap)
    else if a == Gap || b == Gap then Ok(p.gapPenalty)
    else match p.table
      case Some(t) => Lookup(t, a, b)
      case None => Ok(if a == b then p.matchScore else p.mismatchPenalty)
  }

  /** The gap-start surcharge of column `i`: charged on a gap column other than
      the first when the sequence holding the gap has no gap in column `i - 1`. */
  function GapStart(p: Params, x: string, y: string, i: nat): int
    requires i < |x| && i < |y|
  {
    if x[i] == Gap && y[i] != Gap then
      (if i > 0 && x[i - 1] != Gap then p.gapStartPenalty else 0)
    else if y[i] == Gap && x[i] != Gap then
      (if i > 0 && y[i - 1] != Gap then p.gapStartPenalty else 0)
    else 0
  }

  /** Addition of two scores that may have failed; the first failure wins. */
  function Plus(a: Result<int, Error>, b: Result<int, Error>): Result<int, Error> {
    match a
    case Err(e) => Err(e)
    case Ok(u) =>
      match b
      case Err(e) => Err(e)
      case Ok(v) => Ok(u + v)
  }

  /** The score of column `i` of the alignment `x`/`y`. */
  function ColumnScore(p: Params, x: string, y: string, i: nat): Result<int, Error>
    requires i < |x| && i < |y|
  {
    Plus(PairScore(p, x[i], y[i]), Ok(GapStart(p, x, y, i)))
  }

  /** The number of columns `zip` pairs up: the length of the shorter string. */
  function Columns(x: string, y: string): nat {
    if |x| < |y| then |x| else |y|
  }

  /** The scores of columns `i` onwards, added left to right. */
  function ScoreFrom(p: Params, x: string, y: string, i: nat): Result<int, Error>
    requires i <= Columns(x, y)
    decreases Columns(x, y) - i
  {
    if i == Columns(x, y) then Ok(0)
    else Plus(ColumnScore(p, x, y, i), ScoreFrom(p, x, y, i + 1))
  }

  /** `score(x, y)`: the whole-alignment score. */
  function AlignmentScore(p: Params, x: string, y: string): Result<int, Error> {
    ScoreFrom(p, x, y, 0)
  }

  /** A reference sum of independent column scores, with no gap-start surcharge. */
  function PairSum(p: Params, x: string, y: string): Result<int, Error>
    decreases |x|
  {
    if x == [] || y == [] then Ok(0)
    else Plus(PairScore(p, x[0], y[0]), PairSum(p, x[1..], y[1..]))
  }

  /** Whether column `i` opens a gap run that is charged the gap-start surcharge. */
  predicate OpensGap(x: string, y: string, i: nat)
    requires i < |x| && i < |y|
  {
    0 < i &&
    ((x[i] == Gap && y[i] != Gap && x[i - 1] != Gap) ||
     (y[i] == Gap && x[i] != Gap && y[i - 1] != Gap))
  }

  /** The number of surcharged gap openings among columns `i` onwards. */
  function GapOpenings(x: string, y: string, i: nat): nat
    requires i <= Columns(x, y)
    decreases Columns(x, y) - i
  {
    if i == Columns(x, y) then 0
    else (if OpensGap(x, y, i) then 1 else 0) + GapOpenings(x, y, i + 1)
  }

  /** The engine's pair score is the whole-alignment score of a one-column
      alignment: column 0 is never charged the gap-start surcharge. */
  lemma PairIsOneColumnScore(p: Params, a: char, b: char)
    ensures AlignmentScore(p, [a], [b]) == PairScore(p, a, b)
  {
    assert ScoreFrom(p, [a], [b], 1) == Ok(0);
  }

  /** The scheme holding the index and matrix of a load. */
  function WithLoaded(p: Params, l: MatrixText.Loaded): Params
    requires l.Loaded?
  {
    p.(table := Some(Table(l.index, l.matrix)))
  }

  /** A matrix loaded without exceptions scores a column of two header symbols
      with the number the last row line for the first symbol gives at the
      second symbol's column. */
  lemma LoadedScoreReadsLastValue(lines: seq<string>, p: Params, a: char, b: char, t: nat)
    requires a != Gap && b != Gap
    requires MatrixText.Load(lines).Loaded? && MatrixText.Load(lines).error.None?
    requires var l := MatrixText.Load(lines); [a] in l.index && [b] in l.index
    requires var l := MatrixText.Load(lines);
      MatrixText.HeaderIndex(lines, 0) < t && MatrixText.LastWriter(l.index, lines, t, l.index[[a]], l.index[[b]])
    ensures var l := MatrixText.Load(lines); var r := AlignmentScore(WithLoaded(p, l), [a], [b]);
      r.Ok? && MatrixText.ParseNumber(MatrixText.Split(lines[t])[l.index[[b]] + 1]) == Some(r.value)
  {
    var l := MatrixText.Load(lines);
    MatrixText.LoadTakesLastValue(lines, t, l.index[[a]], l.index[[b]]);
    PairIsOneColumnScore(WithLoaded(p, l), a, b);
  }

  /** An entry inside the loaded matrix that no row line writes scores 0. */
  lemma LoadedScoreReadsZero(lines: seq<string>, p: Params, a: char, b: char)
    requires a != Gap && b != Gap && MatrixText.Load(lines).Loaded?
    requires var l := MatrixText.Load(lines);
      [a] in l.index && [b] in l.index && l.index[[a]] < |l.index| && l.index[[b]] < |l.index| &&
      !MatrixText.Written(l.index, lines, MatrixText.HeaderIndex(lines, 0) + 1, l.index[[a]], l.index[[b]])
    ensures AlignmentScore(WithLoaded(p, MatrixText.Load(lines)), [a], [b]) == Ok(0)
  {
    MatrixText.LoadKeepsZeros(lines);
    PairIsOneColumnScore(WithLoaded(p, MatrixText.Load(lines)), a, b);
  }

  /** A header symbol whose index lies past the loaded matrix, which happens
      when the header repeats a symbol, raises IndexError; a symbol missing
      from the header fails the assertion. */
  lemma LoadedScoreOutside(lines: seq<string>, p: Params, a: char, b: char)
    requires a != Gap && b != Gap && MatrixText.Load(lines).Loaded?
    ensures var l := MatrixText.Load(lines); var r := AlignmentScore(WithLoaded(p, l), [a], [b]);
      ([a] !in l.index || [b] !in l.index ==> r == Err(UnknownSymbol)) &&
      ([a] in l.index && [b] in l.index && (l.index[[a]] >= |l.index| || l.index[[b]] >= |l.index|) ==>
         r == Err(IndexOutOfRange))
  {
    MatrixText.LoadKeepsZeros(lines);
    PairIsOneColumnScore(WithLoaded(p, MatrixText.Load(lines)), a, b);
  }

  lemma {:induction false} ScoreFromTruncated(p: Params, x: string, y: string, i: nat)
    requires i <= Columns(x, y)
    ensures ScoreFrom(p, x, y, i) == ScoreFrom(p, x[..Columns(x, y)], y[..Columns(x, y)], i)
    decreases Columns(x, y) - i
  {
    var k := Columns(x, y);
    assert Columns(x[..k], y[..k]) == k;
    if i < k {
      ScoreFromTruncated(p, x, y, i + 1);
      assert ColumnScore(p, x, y, i) == ColumnScore(p, x[..k], y[..k], i);
    }
  }

  /** `score` quietly stops at the end of the shorter string. */
  lemma ScoreStopsAtShorter(p: Params, x: string, y: string)
    ensures AlignmentScore(p, x, y)
            == AlignmentScore(p, x[..Columns(x, y)], y[..Columns(x, y)])
  {
    ScoreFromTruncated(p, x, y, 0);
  }

  lemma {:induction false} ScoreFromIsPairSum(p: Params, x: string, y: string, i: nat)
    requires p.gapStartPenalty == 0
    requires i <= Columns(x, y)
    ensures ScoreFrom(p, x, y, i) == PairSum(p, x[i..], y[i..])
    decreases Columns(x, y) - i
  {
    if i < Columns(x, y) {
      ScoreFromIsPairSum(p, x, y, i + 1);
      assert x[i..][1..] == x[i + 1..] && y[i..][1..] == y[i + 1..];
    }
  }

  /** Without a gap-start surcharge the whole-alignment score is the sum of
      independent column scores, starting from 0. */
  lemma ScoreWithoutGapStartIsPairSum(p: Params, x: string, y: string)
    requires p.gapStartPenalty == 0
    ensures AlignmentScore(p, x, y) == PairSum(p, x, y)
  {
    ScoreFromIsPairSum(p, x, y, 0);
    assert x[0..] == x && y[0..] == y;
  }

  lemma {:induction false} ScoreFromSplitsGapStart(p: Params, x: string, y: string, i: nat)
    requires i <= Columns(x, y)
    ensures ScoreFrom(p, x, y, i)
            == Plus(ScoreFrom(WithoutGapStart(p), x, y, i), Ok(p.gapStartPenalty * GapOpenings(x, y, i)))
    decreases Columns(x, y) - i
  {
    if i < Columns(x, y) {
      ScoreFromSplitsGapStart(p, x, y, i + 1);
      var p0, g := WithoutGapStart(p), p.gapStartPenalty;
      var o: int := if OpensGap(x, y, i) then 1 else 0;
      var later := GapOpenings(x, y, i + 1);
      assert GapStart(p, x, y, i) == g * o;
      assert GapStart(p0, x, y, i) == 0;
      assert PairScore(p0, x[i], y[i]) == PairScore(p, x[i], y[i]);
      assert g * (o + later) == g * o + g * later;
    }
  }

  /** The gap-start surcharge adds `gap_start_penalty` once per gap run that
      starts after column 0, on top of the plain column scores. */
  lemma ScoreSplitsGapStart(p: Params, x: string, y: string)
    ensures AlignmentScore(p, x, y)
            == Plus(AlignmentScore(WithoutGapStart(p), x, y), Ok(p.gapStartPenalty * GapOpenings(x, y, 0)))
  {
    ScoreFromSplitsGapStart(p, x, y, 0);
  }

  lemma {:induction false} ScoreFromFailsAt(p: Params, x: string, y: string, i: nat, bad: nat)
    requires i <= bad < Columns(x, y)
    requires PairScore(p, x[bad], y[bad]).Err?
    requires forall c :: i <= c < bad ==> PairScore(p, x[c], y[c]).Ok?
    ensures ScoreFrom(p, x, y, i) == Err(PairScore(p, x[bad], y[bad]).error)
    decreases bad - i
  {
    if i < bad {
      ScoreFromFailsAt(p, x, y, i + 1, bad);
    }
  }

  /** A failing column makes `score` raise that column's error, unless an
      earlier column has already failed: a double gap is a ValueError, an
      unknown symbol an AssertionError. */
  lemma ScoreFailsAtFirstBadColumn(p: Params, x: string, y: string, bad: nat)
    requires bad < Columns(x, y)
    requires PairScore(p, x[bad], y[bad]).Err?
    requires forall c :: 0 <= c < bad ==> PairScore(p, x[c], y[c]).Ok?
    ensures AlignmentScore(p, x, y) == Err(PairScore(p, x[bad], y[bad]).error)
  {
    ScoreFromFailsAt(p, x, y, 0, bad);
  }

  lemma {:induction false} ScoreFromSucceeds(p: Params, x: string, y: string, i: nat)
    requires i <= Columns(x, y)
    requires forall c :: i <= c < Columns(x, y) ==> PairScore(p, x[c], y[c]).Ok?
    ensures ScoreFrom(p, x, y, i).Ok?
    decreases Columns(x, y) - i
  {
    if i < Columns(x, y) {
      ScoreFromSucceeds(p, x, y, i + 1);
    }
  }

  /** `score` raises exactly when some column fails. */
  lemma ScoreFailsIffSomeColumnFails(p: Params, x: string, y: string)
    ensures AlignmentScore(p, x, y).Err?
            <==> exists c :: 0 <= c < Columns(x, y) && PairScore(p, x[c], y[c]).Err?
  {
    if exists c :: 0 <= c < Columns(x, y) && PairScore(p, x[c], y[c]).Err? {
      var bad :| 0 <= bad < Columns(x, y) && PairScore(p, x[bad], y[bad]).Err?;
      while exists c :: 0 <= c < bad && PairScore(p, x[c], y[c]).Err?
        invariant 0 <= bad < Columns(x, y) && PairScore(p, x[bad], y[bad]).Err?
        decreases bad
      {
        var earlier :| 0 <= earlier < bad && PairScore(p, x[earlier], y[earlier]).Err?;
        bad := earlier;
      }
      ScoreFailsAtFirstBadColumn(p, x, y, bad);
    } else {
      ScoreFromSucceeds(p, x, y, 0);
    }
  }

  /** A string stored in a one-character string array: its first character. */
  function OneChar(s: string): (t: string)
    ensures |t| <= 1 && t <= s
    ensures s != "" ==> t == [s[0]]
  {
    if |s| <= 1 then s else s[..1]
  }

  /** The scoring scheme object. `indexBySymbol` is empty and `scoringMatrix`
      is null while no matrix is loaded. */
  class ScoringScheme {
    var matchScore: int
    var mismatchPenalty: int
    var gapPenalty: int
    var gapStartPenalty: int
    var indexBySymbol: map<string, nat>
    var scoringMatrix: array2?<int>

    /** The index and the matrix are set together, the matrix is as large as
        the index, and no two symbols share an index. */
    ghost predicate Valid()
      reads this
    {
      (scoringMatrix == null ==> indexBySymbol == map[]) &&
      (scoringMatrix != null ==>
         scoringMatrix.Length0 == |indexBySymbol| && scoringMatrix.Length1 == |indexBySymbol|) &&
      (forall s, t :: s in indexBySymbol && t in indexBySymbol && s != t ==>
         indexBySymbol[s] != indexBySymbol[t])
    }

    constructor (matchScore: int := 1, mismatchPenalty: int := -1,
                 gapPenalty: int := -1, gapStartPenalty: int := 0)
      ensures Valid()
      ensures Value() == Params(matchScore, mismatchPenalty, gapPenalty, gapStartPenalty, None)
    {
      this.matchScore := matchScore;
      this.mismatchPenalty := mismatchPenalty;
      this.gapPenalty := gapPenalty;
      this.gapStartPenalty := gapStartPenalty;
      this.indexBySymbol := map[];
      this.scoringMatrix := null;
    }

    /** The rows of the loaded matrix. */
    function Grid(): (g: seq<seq<int>>)
      requires scoringMatrix != null
      reads this, scoringMatrix
      ensures |g| == scoringMatrix.Length0
      ensures forall r :: 0 <= r < |g| ==> |g[r]| == scoringMatrix.Length1
    {
      var m := scoringMatrix;
      seq(m.Length0, r requires 0 <= r < m.Length0 reads m =>
        seq(m.Length1, c requires 0 <= c < m.Length1 reads m => m[r, c]))
    }

    /** The values of the fields. */
    function Value(): Params
      reads this, scoringMatrix
    {
      Params(matchScore, mismatchPenalty, gapPenalty, gapStartPenalty,
             if scoringMatrix == null then None else Some(Table(indexBySymbol, Grid())))
    }

    /** `score(sequence1, sequence2)`: the column loop with its running total. */
    method Score(x: string, y: string) returns (r: Result<int, Error>)
      ensures r == AlignmentScore(Value(), x, y)
    {
      ghost var p := Value();
      var k := if |x| < |y| then |x| else |y|;
      var score := 0;
      for i := 0 to k
        invariant AlignmentScore(p, x, y) == Plus(Ok(score), ScoreFrom(p, x, y, i))
      {
        var column := Column(x, y, i);
        if column.Err? {
          return Err(column.error);
        }
        score := score + column.value;
      }
      return Ok(score);
    }

    /** One pass of the body of the `zip` loop: the column's pair score plus its
        gap-start surcharge, or the exception the column raises. */
    method Column(x: string, y: string, i: nat) returns (r: Result<int, Error>)
      requires i < |x| && i < |y|
      ensures r == ColumnScore(Value(), x, y, i)
    {
      var a, b := x[i], y[i];
      if a == Gap && b == Gap {
        return Err(DoubleGap);
      } else if a == Gap {
        var score := gapPenalty;
        score := score + if i > 0 && x[i - 1] != Gap then gapStartPenalty else 0;
        return Ok(score);
      } else if b == Gap {
        var score := gapPenalty;
        score := score + if i > 0 && y[i - 1] != Gap then gapStartPenalty else 0;
        return Ok(score);
      } else if scoringMatrix != null {
        if [a] !in indexBySymbol || [b] !in indexBySymbol {
          return Err(UnknownSymbol);
        }
        var row, col := indexBySymbol[[a]], indexBySymbol[[b]];
        if row >= scoringMatrix.Length0 || col >= scoringMatrix.Length1 {
          return Err(IndexOutOfRange);
        }
        return Ok(scoringMatrix[row, col]);
      } else {
        return Ok(if a == b then matchScore else mismatchPenalty);
      }
    }

    /** `__call__`: calling the scheme scores the two sequences. */
    method Call(x: string, y: string) returns (r: Result<int, Error>)
      ensures r == AlignmentScore(Value(), x, y)
    {
      r := Score(x, y);
    }

    /** `get_symbols()`: `None` without a matrix; otherwise the array in which
        position `indexBySymbol[s]` holds `s` cut to one character (the array's
        element type is a one-character string), an IndexError when an index
        lies past the end of that array. */
    method GetSymbols() returns (r: Option<Result<seq<string>, Error>>)
      requires Valid()
      ensures r.None? <==> scoringMatrix == null
      ensures r.Some? ==>
                (r.value.Err? <==> exists s :: s in indexBySymbol && indexBySymbol[s] >= |indexBySymbol|)
      ensures r.Some? && r.value.Err? ==> r.value.error == IndexOutOfRange
      ensures r.Some? && r.value.Ok? ==>
                |r.value.value| == |indexBySymbol| &&
                (forall s :: s in indexBySymbol ==> r.value.value[indexBySymbol[s]] == OneChar(s)) &&
                (forall k :: 0 <= k < |r.value.value| && k !in indexBySymbol.Values ==>
                   r.value.value[k] == "")
    {
      if scoringMatrix == null {
        return None;
      }
      var n := |indexBySymbol|;
      var symbols := new string[n](_ => "");
      var remaining := indexBySymbol.Keys;
      while remaining != {}
        invariant remaining <= indexBySymbol.Keys
        invariant forall s :: s in indexBySymbol && s !in remaining ==>
                    indexBySymbol[s] < n && symbols[indexBySymbol[s]] == OneChar(s)
        invariant forall k :: 0 <= k < n && k !in indexBySymbol.Values ==> symbols[k] == ""
        decreases remaining
      {
        var s :| s in remaining;
        var index := indexBySymbol[s];
        if index >= n {
          return Some(Err(IndexOutOfRange));
        }
        symbols[index] := if |s| <= 1 then s else s[..1];
        remaining := remaining - {s};
      }
      r := Some(Ok(symbols[..]));
    }

    /** Every entry of `matrix` agrees with `m`. */
    static ghost predicate Mirrors(matrix: array2<int>, m: seq<seq<int>>)
      reads matrix
    {
      MatrixText.IsSquare(m, matrix.Length0) && matrix.Length1 == matrix.Length0 &&
      forall r, c :: 0 <= r < matrix.Length0 && 0 <= c < matrix.Length1 ==> matrix[r, c] == m[r][c]
    }

    lemma GridIs(m: seq<seq<int>>)
      requires scoringMatrix != null && Mirrors(scoringMatrix, m)
      ensures Grid() == m
    {
      assert forall r :: 0 <= r < |m| ==> Grid()[r] == m[r];
    }

    /** The loop `for j, val in enumerate(values)` writing one row line's entries
        into row `row` of the matrix, in place. */
    static method FillRowEntries(matrix: array2<int>, ghost m: seq<seq<int>>, row: nat, values: seq<string>)
      returns (error: Option<Error>, ghost filled: seq<seq<int>>)
      requires Mirrors(matrix, m)
      modifies matrix
      ensures Mirrors(matrix, filled)
      ensures MatrixText.FillValues(m, row, values, 0) == MatrixText.Fill(filled, error)
    {
      filled := m;
      for j := 0 to |values|
        invariant Mirrors(matrix, filled)
        invariant MatrixText.FillValues(m, row, values, 0) == MatrixText.FillValues(filled, row, values, j)
      {
        var v := MatrixText.ParseNumber(values[j]);
        if v.None? {
          return Some(BadNumber), filled;
        }
        if row >= matrix.Length0 || j >= matrix.Length1 {
          return Some(IndexOutOfRange), filled;
        }
        matrix[row, j] := v.value;
        filled := filled[row := filled[row][j := v.value]];
      }
      error := None;
    }

    /** The loop `for line in f` over the row lines from line `start` on,
        writing into the matrix in place and stopping at the first exception. */
    static method FillRowLines(matrix: array2<int>, ghost m: seq<seq<int>>, index: map<string, nat>,
                            lines: seq<string>, start: nat)
      returns (error: Option<Error>, ghost filled: seq<seq<int>>)
      requires start <= |lines| && Mirrors(matrix, m)
      modifies matrix
      ensures Mirrors(matrix, filled)
      ensures MatrixText.FillLines(index, m, lines, start) == MatrixText.Fill(filled, error)
    {
      filled := m;
      for k := start to |lines|
        invariant Mirrors(matrix, filled)
        invariant MatrixText.FillLines(index, m, lines, start) == MatrixText.FillLines(index, filled, lines, k)
      {
        ghost var before := filled;
        var tokens := MatrixText.Split(lines[k]);
        if tokens == [] {
          return Some(EmptyRow), filled;
        }
        if tokens[0] !in index {
          return Some(MissingKey), filled;
        }
        error, filled := FillRowEntries(matrix, filled, index[tokens[0]], tokens[1..]);
        if error.Some? {
          return;
        }
        MatrixText.FillLinesStep(index, before, lines, k);
      }
      error := None;
    }

    /** `np.zeros((n_symbols, n_symbols))`. */
    static method NewZeros(n: nat) returns (matrix: array2<int>)
      ensures fresh(matrix) && Mirrors(matrix, MatrixText.Zeros(n))
    {
      matrix := new int[n, n]((_, _) => 0);
    }

    /** The `while headline[0] == "#"` loop: the position of the header line,
        or the number of lines when every line is a comment. */
    static method SkipComments(lines: seq<string>) returns (h: nat)
      ensures h == MatrixText.HeaderIndex(lines, 0)
    {
      h := 0;
      while h < |lines| && MatrixText.IsComment(lines[h])
        invariant h <= |lines|
        invariant MatrixText.HeaderIndex(lines, h) == MatrixText.HeaderIndex(lines, 0)
      {
        h := h + 1;
      }
    }

    /** `load_matrix(filename)` on the lines of the file: skip comment lines,
        index the header's symbols, start from a zero matrix and write each row
        line into the row its symbol names. An exception leaves the fields as
        far as the load had got. */
    method LoadMatrix(lines: seq<string>) returns (error: Option<Error>)
      modifies this
      ensures MatrixText.Load(lines).NoHeader? ==> error == Some(EndOfInput) && unchanged(this)
      ensures MatrixText.Load(lines).Loaded? ==>
                Valid() && fresh(scoringMatrix) &&
                error == MatrixText.Load(lines).error &&
                Value() == Params(old(matchScore), old(mismatchPenalty), old(gapPenalty), old(gapStartPenalty),
                                  Some(Table(MatrixText.Load(lines).index, MatrixText.Load(lines).matrix)))
    {
      var h := SkipComments(lines);
      if h == |lines| {
        return Some(EndOfInput);
      }
      var index := MatrixText.IndexMap(MatrixText.Split(lines[h]));
      MatrixText.IndexMapInjective(MatrixText.Split(lines[h]));
      indexBySymbol := index;
      var n := |index|;
      var matrix := NewZeros(n);
      scoringMatrix := matrix;
      ghost var filled;
      error, filled := FillRowLines(matrix, MatrixText.Zeros(n), index, lines, h + 1);
      assert MatrixText.Load(lines) == MatrixText.Loaded(index, filled, error);
      GridIs(filled);
    }
  }
}
