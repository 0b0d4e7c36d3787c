/** The text-level part of `ScoringScheme.load_matrix`: splitting a line on
    whitespace as `str.split()` does, reading a number token, building the
    symbol index from the header, and filling the matrix row line by row line.
    A file is given as its sequence of lines without their line terminators,
    so `""` is a blank line. */
module MatrixText {
  import opened Errors

  /** The ASCII characters that `str.split()` treats as separators. */
  predicate IsSpace(c: char) {
    c == ' ' || 9 <= c as int <= 13 || 28 <= c as int <= 31
  }

  /** Length of the run of non-space characters at the front of `s`. */
  function TokenLength(s: string): (n: nat)
    ensures n <= |s|
    ensures forall k :: 0 <= k < n ==> !IsSpace(s[k])
    ensures n < |s| ==> IsSpace(s[n])
  {
    if s == [] || IsSpace(s[0]) then 0 else 1 + TokenLength(s[1..])
  }

  /** A token is a non-empty run of non-space characters. */
  predicate IsToken(t: string) {
    t != [] && forall k :: 0 <= k < |t| ==> !IsSpace(t[k])
  }

  /** `s.split()`: the maximal runs of non-space characters of `s`, in order. */
  function Split(s: string): (tokens: seq<string>)
    ensures forall k :: 0 <= k < |tokens| ==> IsToken(tokens[k])
    decreases |s|
  {
    if s == [] then []
    else if IsSpace(s[0]) then Split(s[1..])
    else
      var n := TokenLength(s);
      [s[..n]] + Split(s[n..])
  }

  predicate AllSpace(s: string) {
    forall k :: 0 <= k < |s| ==> IsSpace(s[k])
  }

  /** Separators around `n` tokens: `n + 1` runs of spaces, where the runs
      between two tokens are non-empty and the two outer runs may be empty. */
  predicate Separators(seps: seq<string>, n: nat) {
    |seps| == n + 1 && (forall k :: 0 <= k < |seps| ==> AllSpace(seps[k])) &&
    forall k :: 0 < k < n ==> seps[k] != []
  }

  /** The string `seps[0] + ts[0] + seps[1] + ... + ts[n - 1] + seps[n]`. */
  function Interleave(seps: seq<string>, ts: seq<string>): string
    requires |seps| == |ts| + 1
    decreases |ts|
  {
    if ts == [] then seps[0] else seps[0] + ts[0] + Interleave(seps[1..], ts[1..])
  }

  /** The runs of spaces around the tokens of `s`. */
  function Gaps(s: string): (g: seq<string>)
    ensures |g| >= 1
    decreases |s|
  {
    if s == [] then [[]]
    else if IsSpace(s[0]) then
      var g := Gaps(s[1..]);
      [[s[0]] + g[0]] + g[1..]
    else [[]] + Gaps(s[TokenLength(s)..])
  }

  /** Leading spaces do not change the tokens. */
  lemma {:induction false} SplitSkipsSpaces(sep: string, rest: string)
    requires AllSpace(sep)
    ensures Split(sep + rest) == Split(rest)
    decreases |sep|
  {
    if sep != [] {
      assert (sep + rest)[0] == sep[0] && (sep + rest)[1..] == sep[1..] + rest;
      assert Split(sep + rest) == Split(sep[1..] + rest);
      SplitSkipsSpaces(sep[1..], rest);
    } else {
      assert sep + rest == rest;
    }
  }

  /** A token followed by a space, or by nothing, is read whole. */
  lemma {:induction false} TokenLengthOfToken(t: string, rest: string)
    requires IsToken(t) && (rest == [] || IsSpace(rest[0]))
    ensures TokenLength(t + rest) == |t|
    decreases |t|
  {
    assert (t + rest)[1..] == t[1..] + rest;
    if |t| > 1 {
      TokenLengthOfToken(t[1..], rest);
    }
  }

  lemma SplitTakesToken(t: string, rest: string)
    requires IsToken(t) && (rest == [] || IsSpace(rest[0]))
    ensures Split(t + rest) == [t] + Split(rest)
  {
    TokenLengthOfToken(t, rest);
    assert (t + rest)[..|t|] == t && (t + rest)[|t|..] == rest;
  }

  /** Tokens with separators between them split back into those tokens: the
      tokens of a string are its maximal runs of non-space characters, in order. */
  lemma {:induction false} SplitInterleave(seps: seq<string>, ts: seq<string>)
    requires Separators(seps, |ts|) && forall k :: 0 <= k < |ts| ==> IsToken(ts[k])
    ensures Split(Interleave(seps, ts)) == ts
    decreases |ts|
  {
    SplitSkipsSpaces(seps[0], if ts == [] then [] else ts[0] + Interleave(seps[1..], ts[1..]));
    if ts != [] {
      var rest := Interleave(seps[1..], ts[1..]);
      assert Separators(seps[1..], |ts[1..]|) by {
        assert forall k :: 0 <= k < |seps[1..]| ==> seps[1..][k] == seps[k + 1];
      }
      assert forall k :: 0 <= k < |ts[1..]| ==> ts[1..][k] == ts[k + 1];
      InterleaveStart(seps[1..], ts[1..]);
      SplitTakesToken(ts[0], rest);
      SplitInterleave(seps[1..], ts[1..]);
      assert seps[0] + ts[0] + rest == seps[0] + (ts[0] + rest);
    } else {
      assert seps[0] + [] == seps[0];
    }
  }

  /** The string of separators and tokens starts with a space or is empty when
      its first separator is non-empty or there is no token. */
  lemma InterleaveStart(seps: seq<string>, ts: seq<string>)
    requires Separators(seps, |ts|) && (seps[0] != [] || ts == [])
    ensures Interleave(seps, ts) == [] || IsSpace(Interleave(seps, ts)[0])
  {
    if seps[0] != [] {
      assert Interleave(seps, ts)[0] == seps[0][0];
    }
  }

  /** Every string is its tokens with their separators around them, so
      `SplitInterleave` determines `Split` on every string. */
  lemma {:induction false} SplitDecomposes(s: string)
    ensures Separators(Gaps(s), |Split(s)|) && Interleave(Gaps(s), Split(s)) == s
    decreases |s|
  {
    if s == [] {
    } else if IsSpace(s[0]) {
      SplitDecomposes(s[1..]);
      DecomposesAfterSpace(s);
    } else {
      SplitDecomposes(s[TokenLength(s)..]);
      DecomposesAfterToken(s);
    }
  }

  /** Prepending a character to the first separator prepends it to the string. */
  lemma InterleaveLonger(c: char, seps: seq<string>, ts: seq<string>)
    requires |seps| == |ts| + 1
    ensures Interleave([[c] + seps[0]] + seps[1..], ts) == [c] + Interleave(seps, ts)
  {
    var seps2 := [[c] + seps[0]] + seps[1..];
    assert seps2[0] == [c] + seps[0] && seps2[1..] == seps[1..];
    var tail := if ts == [] then [] else ts[0] + Interleave(seps[1..], ts[1..]);
    assert Interleave(seps2, ts) == ([c] + seps[0]) + tail;
    assert Interleave(seps, ts) == seps[0] + tail;
  }

  /** An empty first separator before a new first token prepends the token. */
  lemma InterleaveToken(t: string, seps: seq<string>, ts: seq<string>)
    requires |seps| == |ts| + 1
    ensures Interleave([[]] + seps, [t] + ts) == t + Interleave(seps, ts)
  {
    var seps2, ts2 := [[]] + seps, [t] + ts;
    assert seps2[0] == [] && seps2[1..] == seps && ts2 != [] && ts2[0] == t && ts2[1..] == ts;
    assert Interleave(seps2, ts2) == seps2[0] + ts2[0] + Interleave(seps2[1..], ts2[1..]);
    assert [] + t == t;
  }

  /** A leading space joins the first separator. */
  lemma DecomposesAfterSpace(s: string)
    requires s != [] && IsSpace(s[0])
    requires Separators(Gaps(s[1..]), |Split(s[1..])|) && Interleave(Gaps(s[1..]), Split(s[1..])) == s[1..]
    ensures Separators(Gaps(s), |Split(s)|) && Interleave(Gaps(s), Split(s)) == s
  {
    var g, ts := Gaps(s[1..]), Split(s[1..]);
    var g2 := [[s[0]] + g[0]] + g[1..];
    assert Gaps(s) == g2 && Split(s) == ts;
    assert forall k :: 0 < k < |g2| ==> g2[k] == g[k];
    assert AllSpace(g2[0]);
    InterleaveLonger(s[0], g, ts);
    assert s == [s[0]] + s[1..];
  }

  /** A leading token becomes the first token, after an empty separator. */
  lemma DecomposesAfterToken(s: string)
    requires s != [] && !IsSpace(s[0])
    requires var rest := s[TokenLength(s)..];
      Separators(Gaps(rest), |Split(rest)|) && Interleave(Gaps(rest), Split(rest)) == rest
    ensures Separators(Gaps(s), |Split(s)|) && Interleave(Gaps(s), Split(s)) == s
  {
    var n := TokenLength(s);
    var rest := s[n..];
    var g, ts := Gaps(rest), Split(rest);
    assert Gaps(s) == [[]] + g && Split(s) == [s[..n]] + ts;
    if ts != [] && g[0] == [] {
      TokensStartNonSpace(g, ts);
      assert false;
    }
    SeparatorsBeforeToken(g, ts);
    InterleaveToken(s[..n], g, ts);
    TakeDrop(s, n);
  }

  /** An empty separator in front keeps the separators well formed when the
      old first separator is non-empty or there is no token. */
  lemma SeparatorsBeforeToken(g: seq<string>, ts: seq<string>)
    requires Separators(g, |ts|) && (ts == [] || g[0] != [])
    ensures Separators([[]] + g, |ts| + 1)
  {
    assert forall k :: 0 < k < |[[]] + g| ==> ([[]] + g)[k] == g[k - 1];
  }

  lemma TakeDrop(s: string, n: nat)
    requires n <= |s|
    ensures s[..n] + s[n..] == s
  {
  }

  /** With no leading separator, the string starts with the first token's
      non-space first character. */
  lemma TokensStartNonSpace(g: seq<string>, ts: seq<string>)
    requires Separators(g, |ts|) && g[0] == [] && ts != [] && IsToken(ts[0])
    ensures Interleave(g, ts) != [] && !IsSpace(Interleave(g, ts)[0])
  {
    assert Interleave(g, ts)[0] == ts[0][0];
  }

  predicate IsDigit(c: char) {
    '0' <= c <= '9'
  }

  predicate AllDigits(s: string) {
    forall k :: 0 <= k < |s| ==> IsDigit(s[k])
  }

  /** The decimal value of a string of digits. */
  function DigitsValue(s: string): nat
    requires AllDigits(s)
    decreases |s|
  {
    if s == [] then 0 else 10 * DigitsValue(s[..|s| - 1]) + (s[|s| - 1] as int - '0' as int)
  }

  /** `float(t)` for ASCII sign-and-digit tokens: an optional `+` or `-` followed by
      at least one ASCII digit. Any other token, including those `float` also reads,
      gives no value. */
  function ParseNumber(t: string): Option<int> {
    if |t| > 1 && (t[0] == '-' || t[0] == '+') && AllDigits(t[1..]) then
      var magnitude: int := DigitsValue(t[1..]);
      Some(if t[0] == '-' then -magnitude else magnitude)
    else if |t| > 0 && AllDigits(t) then
      Some(DigitsValue(t))
    else
      None
  }

  /** `{symbol: i for i, symbol in enumerate(tokens)}`. */
  function IndexMap(tokens: seq<string>): map<string, nat>
    decreases |tokens|
  {
    if tokens == [] then map[] else IndexMap(tokens[..|tokens| - 1])[tokens[|tokens| - 1] := |tokens| - 1]
  }

  /** Every token is a key, each key maps to a position holding it, and a
      token that occurs more than once keeps the index of its last occurrence. */
  lemma {:induction false} IndexMapExact(tokens: seq<string>)
    ensures forall k :: 0 <= k < |tokens| ==> tokens[k] in IndexMap(tokens)
    ensures forall s :: s in IndexMap(tokens) ==>
              IndexMap(tokens)[s] < |tokens| && tokens[IndexMap(tokens)[s]] == s
    ensures forall s, k :: s in IndexMap(tokens) && IndexMap(tokens)[s] < k < |tokens| ==> tokens[k] != s
    decreases |tokens|
  {
    if tokens != [] {
      var front := tokens[..|tokens| - 1];
      IndexMapExact(front);
      assert forall k :: 0 <= k < |front| ==> front[k] == tokens[k];
    }
  }

  /** No two symbols of the header share an index. */
  lemma IndexMapInjective(tokens: seq<string>)
    ensures forall s, t :: s in IndexMap(tokens) && t in IndexMap(tokens) && s != t ==>
              IndexMap(tokens)[s] != IndexMap(tokens)[t]
  {
    IndexMapExact(tokens);
  }

  /** A line skipped before the header: its first character is `#`. */
  predicate IsComment(line: string) {
    |line| > 0 && line[0] == '#'
  }

  /** The position of the header line when the search starts at line `k`:
      the first line that is not a comment, or `|lines|` when the input ends first. */
  function HeaderIndex(lines: seq<string>, k: nat): (h: nat)
    requires k <= |lines|
    ensures k <= h <= |lines|
    ensures forall t :: k <= t < h ==> IsComment(lines[t])
    ensures h < |lines| ==> !IsComment(lines[h])
    decreases |lines| - k
  {
    if k == |lines| || !IsComment(lines[k]) then k else HeaderIndex(lines, k + 1)
  }

  /** An `n` by `n` matrix. */
  predicate IsSquare(m: seq<seq<int>>, n: nat) {
    |m| == n && forall r :: 0 <= r < n ==> |m[r]| == n
  }

  /** `np.zeros((n, n))`. */
  function Zeros(n: nat): (z: seq<seq<int>>)
    ensures IsSquare(z, n)
    ensures forall r, c :: 0 <= r < n && 0 <= c < n ==> z[r][c] == 0
  {
    seq(n, _ => seq(n, _ => 0))
  }

  /** The matrix reached and the exception raised, if any, when filling stops. */
  datatype Fill = Fill(matrix: seq<seq<int>>, error: Option<Error>)

  /** The loop `for j, val in enumerate(values): matrix[row][j] = float(val)`
      from the `j`-th value on. The number is read before the matrix is indexed. */
  function FillValues(m: seq<seq<int>>, row: nat, values: seq<string>, j: nat): Fill
    requires j <= |values|
    decreases |values| - j
  {
    if j == |values| then Fill(m, None)
    else match ParseNumber(values[j])
      case None => Fill(m, Some(BadNumber))
      case Some(v) =>
        if row < |m| && j < |m[row]| then FillValues(m[row := m[row][j := v]], row, values, j + 1)
        else Fill(m, Some(IndexOutOfRange))
  }

  /** One row line: its first token names the row, the rest are that row's entries. */
  function FillLine(index: map<string, nat>, m: seq<seq<int>>, line: string): Fill {
    var tokens := Split(line);
    if tokens == [] then Fill(m, Some(EmptyRow))
    else if tokens[0] !in index then Fill(m, Some(MissingKey))
    else FillValues(m, index[tokens[0]], tokens[1..], 0)
  }

  /** The row lines from line `k` to the end, stopping at the first exception. */
  function FillLines(index: map<string, nat>, m: seq<seq<int>>, lines: seq<string>, k: nat): Fill
    requires k <= |lines|
    decreases |lines| - k
  {
    if k == |lines| then Fill(m, None)
    else
      var f := FillLine(index, m, lines[k]);
      if f.error.Some? then f else FillLines(index, f.matrix, lines, k + 1)
  }

  /** A row line that raises nothing hands its matrix on to the next line. */
  lemma FillLinesStep(index: map<string, nat>, m: seq<seq<int>>, lines: seq<string>, k: nat)
    requires k < |lines| && FillLine(index, m, lines[k]).error.None?
    ensures FillLines(index, m, lines, k) == FillLines(index, FillLine(index, m, lines[k]).matrix, lines, k + 1)
  {
  }

  /** What `load_matrix` leaves behind. `NoHeader`: the input ended before a header
      line, an IndexError raised before any field is assigned. `Loaded`: the index
      and the matrix assigned to the scheme, and the exception that stopped the
      fill, if any; the matrix then holds the rows written before it. */
  datatype Loaded =
    | NoHeader
    | Loaded(index: map<string, nat>, matrix: seq<seq<int>>, error: Option<Error>)

  /** The outcome of `load_matrix` on the lines of a file. */
  function Load(lines: seq<string>): Loaded {
    var h := HeaderIndex(lines, 0);
    if h == |lines| then NoHeader
    else
      var index := IndexMap(Split(lines[h]));
      var f := FillLines(index, Zeros(|index|), lines, h + 1);
      Loaded(index, f.matrix, f.error)
  }

  /** One line's values from the `j`-th on: the matrix keeps its shape and only
      entries `j ..` of row `row` can change. A failure is a malformed number or
      an entry outside the matrix. */
  lemma {:induction false} FillValuesFrame(m: seq<seq<int>>, row: nat, values: seq<string>, j: nat)
    requires j <= |values|
    ensures var f := FillValues(m, row, values, j);
      |f.matrix| == |m| && (forall r :: 0 <= r < |m| ==> |f.matrix[r]| == |m[r]|) &&
      (forall r, c :: 0 <= r < |m| && 0 <= c < |m[r]| && !(r == row && j <= c < |values|) ==>
         f.matrix[r][c] == m[r][c]) &&
      (f.error.Some? ==> f.error == Some(BadNumber) || f.error == Some(IndexOutOfRange))
    decreases |values| - j
  {
    if j < |values| && ParseNumber(values[j]).Some? && row < |m| && j < |m[row]| {
      var m2 := m[row := m[row][j := ParseNumber(values[j]).value]];
      FillValuesFrame(m2, row, values, j + 1);
      assert FillValues(m, row, values, j) == FillValues(m2, row, values, j + 1);
    }
  }

  /** When nothing is raised, the values from the `j`-th on fit inside row `row`
      and each entry they name now holds its value. */
  lemma {:induction false} FillValuesWrites(m: seq<seq<int>>, row: nat, values: seq<string>, j: nat)
    requires j <= |values| && FillValues(m, row, values, j).error.None?
    ensures var f := FillValues(m, row, values, j);
      j < |values| ==> row < |m| && |values| <= |m[row]| && row < |f.matrix| && |f.matrix[row]| == |m[row]|
    ensures var f := FillValues(m, row, values, j);
      forall c :: j <= c < |values| && row < |f.matrix| && c < |f.matrix[row]| ==>
        ParseNumber(values[c]) == Some(f.matrix[row][c])
    decreases |values| - j
  {
    if j < |values| {
      var v := ParseNumber(values[j]).value;
      var m2 := m[row := m[row][j := v]];
      var f := FillValues(m2, row, values, j + 1);
      assert FillValues(m, row, values, j) == f;
      FillValuesWrites(m2, row, values, j + 1);
      FillValuesFrame(m2, row, values, j + 1);
      assert f.matrix[row][j] == m2[row][j] == v;
    }
  }

  /** The row a line writes to: the index of its first token, if it has one in the index. */
  function RowTarget(index: map<string, nat>, line: string): (target: Option<nat>)
    ensures target.Some? <==> Split(line) != [] && Split(line)[0] in index
  {
    var tokens := Split(line);
    if tokens != [] && tokens[0] in index then Some(index[tokens[0]]) else None
  }

  /** Whether some row line from line `k` on has an entry for (r, c). */
  ghost predicate Written(index: map<string, nat>, lines: seq<string>, k: nat, r: nat, c: nat) {
    exists t :: k <= t < |lines| && RowTarget(index, lines[t]) == Some(r) && c + 1 < |Split(lines[t])|
  }

  /** The row lines keep the matrix's shape and leave every entry that no row
      line has a value for as it was. */
  lemma {:induction false} FillLinesFrame(index: map<string, nat>, m: seq<seq<int>>, lines: seq<string>, k: nat)
    requires k <= |lines|
    ensures var f := FillLines(index, m, lines, k);
      |f.matrix| == |m| && (forall r :: 0 <= r < |m| ==> |f.matrix[r]| == |m[r]|) &&
      forall r: nat, c: nat :: r < |m| && c < |m[r]| && !Written(index, lines, k, r, c) ==>
        f.matrix[r][c] == m[r][c]
    decreases |lines| - k
  {
    if k < |lines| {
      var tokens := Split(lines[k]);
      if tokens != [] && tokens[0] in index {
        FillValuesFrame(m, index[tokens[0]], tokens[1..], 0);
        var f := FillLine(index, m, lines[k]);
        if f.error.None? {
          FillLinesFrame(index, f.matrix, lines, k + 1);
          forall r: nat, c: nat | r < |m| && c < |m[r]| && !Written(index, lines, k, r, c)
            ensures FillLines(index, m, lines, k).matrix[r][c] == m[r][c]
          {
            WrittenFrom(index, lines, k, r, c);
          }
        }
      }
    }
  }

  /** An entry the lines from `k` on do not write is written neither by line
      `k` nor by the lines after it. */
  lemma WrittenFrom(index: map<string, nat>, lines: seq<string>, k: nat, r: nat, c: nat)
    requires k < |lines|
    ensures Written(index, lines, k + 1, r, c) ==> Written(index, lines, k, r, c)
    ensures RowTarget(index, lines[k]) == Some(r) && c + 1 < |Split(lines[k])| ==> Written(index, lines, k, r, c)
  {
    if Written(index, lines, k + 1, r, c) {
      var t :| k + 1 <= t < |lines| && RowTarget(index, lines[t]) == Some(r) && c + 1 < |Split(lines[t])|;
      assert k <= t;
    }
    if RowTarget(index, lines[k]) == Some(r) && c + 1 < |Split(lines[k])| {
      assert k <= k < |lines|;
    }
  }

  /** A loaded matrix is square in the number of header symbols, and an entry
      that no row line has a value for is 0. */
  lemma LoadKeepsZeros(lines: seq<string>)
    requires Load(lines).Loaded?
    ensures var l := Load(lines);
      IsSquare(l.matrix, |l.index|) &&
      forall r: nat, c: nat ::
        (r < |l.index| && c < |l.index| && !Written(l.index, lines, HeaderIndex(lines, 0) + 1, r, c)) ==>
        l.matrix[r][c] == 0
  {
    var h := HeaderIndex(lines, 0);
    var index := IndexMap(Split(lines[h]));
    var z := Zeros(|index|);
    var f := FillLines(index, z, lines, h + 1);
    assert Load(lines) == Loaded(index, f.matrix, f.error);
    FillLinesFrame(index, z, lines, h + 1);
  }

  /** Line `t` has an entry for (r, c) and no later line has one. */
  ghost predicate LastWriter(index: map<string, nat>, lines: seq<string>, t: nat, r: nat, c: nat) {
    t < |lines| && RowTarget(index, lines[t]) == Some(r) && c + 1 < |Split(lines[t])| &&
    !Written(index, lines, t + 1, r, c)
  }

  /** When the row lines from `k` on raise nothing, an entry holds the value
      the last line writing it gives, inside the matrix it started from. */
  lemma {:induction false} FillLinesWrites(index: map<string, nat>, m: seq<seq<int>>, lines: seq<string>,
                                           k: nat, t: nat, r: nat, c: nat)
    requires k <= t && LastWriter(index, lines, t, r, c)
    requires FillLines(index, m, lines, k).error.None?
    ensures var f := FillLines(index, m, lines, k);
      r < |m| && c < |m[r]| && r < |f.matrix| && c < |f.matrix[r]| &&
      ParseNumber(Split(lines[t])[c + 1]) == Some(f.matrix[r][c])
    decreases t - k
  {
    var f := FillLine(index, m, lines[k]);
    assert FillLines(index, m, lines, k) == FillLines(index, f.matrix, lines, k + 1);
    if k < t {
      FillLinesWrites(index, f.matrix, lines, k + 1, t, r, c);
      FillValuesFrame(m, index[Split(lines[k])[0]], Split(lines[k])[1..], 0);
    } else {
      var values := Split(lines[t])[1..];
      assert values[c] == Split(lines[t])[c + 1];
      FillValuesWrites(m, r, values, 0);
      FillValuesFrame(m, r, values, 0);
      FillLinesFrame(index, f.matrix, lines, k + 1);
    }
  }

  /** A load that raised nothing holds, in each entry some row line has a
      value for, the value of the last such line. */
  lemma LoadTakesLastValue(lines: seq<string>, t: nat, r: nat, c: nat)
    requires Load(lines).Loaded? && Load(lines).error.None?
    requires HeaderIndex(lines, 0) < t && LastWriter(Load(lines).index, lines, t, r, c)
    ensures var l := Load(lines);
      r < |l.matrix| && c < |l.matrix[r]| && ParseNumber(Split(lines[t])[c + 1]) == Some(l.matrix[r][c])
  {
    var h := HeaderIndex(lines, 0);
    var index := IndexMap(Split(lines[h]));
    var z := Zeros(|index|);
    var f := FillLines(index, z, lines, h + 1);
    assert Load(lines) == Loaded(index, f.matrix, f.error);
    FillLinesWrites(index, z, lines, h + 1, t, r, c);
  }

  /** How many values a row line may hold in an `n` by `n` matrix: `n` when its
      row exists, none at all otherwise. */
  function ColumnLimit(n: nat, row: nat): nat {
    if row < n then n else 0
  }

  /** The position of the first value from the `j`-th on that is not a number,
      or `|values|` when there is none. */
  function FirstBadNumber(values: seq<string>, j: nat): (b: nat)
    requires j <= |values|
    ensures j <= b <= |values|
    ensures forall c :: j <= c < b ==> ParseNumber(values[c]).Some?
    ensures b < |values| ==> ParseNumber(values[b]).None?
    decreases |values| - j
  {
    if j == |values| || ParseNumber(values[j]).None? then j else FirstBadNumber(values, j + 1)
  }

  /** What writing the values of a row line into row `row` of an `n` by `n`
      matrix raises, without the matrix: a malformed number at or before the
      first column past the limit, else an entry outside the matrix when there
      are more values than the limit, else nothing. */
  function ValuesError(n: nat, row: nat, values: seq<string>, j: nat): Option<Error>
    requires j <= |values|
  {
    var b, limit := FirstBadNumber(values, j), ColumnLimit(n, row);
    if b < |values| && b <= limit then Some(BadNumber)
    else if limit < |values| then Some(IndexOutOfRange)
    else None
  }

  /** The exception a row line raises in an `n` by `n` matrix, if any. */
  function LineError(index: map<string, nat>, n: nat, line: string): Option<Error> {
    var tokens := Split(line);
    if tokens == [] then Some(EmptyRow)
    else if tokens[0] !in index then Some(MissingKey)
    else ValuesError(n, index[tokens[0]], tokens[1..], 0)
  }

  /** A row line that raises nothing: it names a row of the index, all its
      values are numbers, and they fit in that row. */
  predicate RowLineOk(index: map<string, nat>, n: nat, line: string) {
    var tokens := Split(line);
    tokens != [] && tokens[0] in index &&
    (forall c :: 1 <= c < |tokens| ==> ParseNumber(tokens[c]).Some?) &&
    |tokens| - 1 <= ColumnLimit(n, index[tokens[0]])
  }

  /** A row line raises nothing exactly when it is well formed. */
  lemma LineErrorNoneIff(index: map<string, nat>, n: nat, line: string)
    ensures LineError(index, n, line).None? <==> RowLineOk(index, n, line)
  {
    var tokens := Split(line);
    if tokens != [] && tokens[0] in index {
      var values := tokens[1..];
      assert forall c :: 1 <= c < |tokens| ==> tokens[c] == values[c - 1];
    }
  }

  /** Writing values into a square matrix keeps it square and raises what
      `ValuesError` says. */
  lemma {:induction false} FillValuesError(m: seq<seq<int>>, n: nat, row: nat, values: seq<string>, j: nat)
    requires IsSquare(m, n) && j <= |values| && j <= ColumnLimit(n, row)
    ensures IsSquare(FillValues(m, row, values, j).matrix, n)
    ensures FillValues(m, row, values, j).error == ValuesError(n, row, values, j)
    decreases |values| - j
  {
    FillValuesFrame(m, row, values, j);
    if j < |values| && ParseNumber(values[j]).Some? && j < ColumnLimit(n, row) {
      var m2 := m[row := m[row][j := ParseNumber(values[j]).value]];
      assert IsSquare(m2, n);
      FillValuesError(m2, n, row, values, j + 1);
      assert FillValues(m, row, values, j) == FillValues(m2, row, values, j + 1);
    }
  }

  /** One row line of a square matrix keeps it square and raises what `LineError` says. */
  lemma FillLineError(index: map<string, nat>, m: seq<seq<int>>, n: nat, line: string)
    requires IsSquare(m, n)
    ensures IsSquare(FillLine(index, m, line).matrix, n)
    ensures FillLine(index, m, line).error == LineError(index, n, line)
  {
    var tokens := Split(line);
    if tokens != [] && tokens[0] in index {
      FillValuesError(m, n, index[tokens[0]], tokens[1..], 0);
    }
  }

  /** The exception of the first row line from line `k` on that raises one. */
  function FirstLineError(index: map<string, nat>, n: nat, lines: seq<string>, k: nat): Option<Error>
    requires k <= |lines|
    decreases |lines| - k
  {
    if k == |lines| then None
    else if LineError(index, n, lines[k]).Some? then LineError(index, n, lines[k])
    else FirstLineError(index, n, lines, k + 1)
  }

  /** The row lines of a square matrix stop at the first line that raises, with its exception. */
  lemma {:induction false} FillLinesError(index: map<string, nat>, m: seq<seq<int>>, n: nat, lines: seq<string>, k: nat)
    requires IsSquare(m, n) && k <= |lines|
    ensures FillLines(index, m, lines, k).error == FirstLineError(index, n, lines, k)
    decreases |lines| - k
  {
    if k < |lines| {
      FillLineError(index, m, n, lines[k]);
      FillLinesError(index, FillLine(index, m, lines[k]).matrix, n, lines, k + 1);
    }
  }

  /** The first line that raises decides the exception. */
  lemma {:induction false} FirstLineErrorAt(index: map<string, nat>, n: nat, lines: seq<string>, k: nat, t: nat)
    requires k <= t < |lines| && LineError(index, n, lines[t]).Some?
    requires forall u :: k <= u < t ==> LineError(index, n, lines[u]).None?
    ensures FirstLineError(index, n, lines, k) == LineError(index, n, lines[t])
    decreases t - k
  {
    if k < t {
      FirstLineErrorAt(index, n, lines, k + 1, t);
    }
  }

  /** No line raises exactly when every line is free of exceptions. */
  lemma {:induction false} FirstLineErrorNone(index: map<string, nat>, n: nat, lines: seq<string>, k: nat)
    requires k <= |lines|
    ensures FirstLineError(index, n, lines, k).None? <==>
              forall u :: k <= u < |lines| ==> LineError(index, n, lines[u]).None?
    decreases |lines| - k
  {
    if k < |lines| {
      FirstLineErrorNone(index, n, lines, k + 1);
    }
  }

  /** The exception of a load is that of the first row line that raises one. */
  lemma LoadError(lines: seq<string>)
    requires Load(lines).Loaded?
    ensures var l := Load(lines);
      l.error == FirstLineError(l.index, |l.index|, lines, HeaderIndex(lines, 0) + 1)
  {
    var h := HeaderIndex(lines, 0);
    var index := IndexMap(Split(lines[h]));
    FillLinesError(index, Zeros(|index|), |index|, lines, h + 1);
  }

  /** When the lines after the header up to line `t` raise nothing and line `t`
      raises, the load raises line `t`'s exception: IndexError for a blank
      line, KeyError for a row symbol missing from the header, and otherwise a
      malformed number or an entry outside the matrix. */
  lemma LoadFailsAtFirstBadLine(lines: seq<string>, t: nat)
    requires Load(lines).Loaded? && HeaderIndex(lines, 0) < t < |lines|
    requires var l := Load(lines);
      forall u :: HeaderIndex(lines, 0) < u < t ==> LineError(l.index, |l.index|, lines[u]).None?
    requires LineError(Load(lines).index, |Load(lines).index|, lines[t]).Some?
    ensures var l := Load(lines);
      l.error == LineError(l.index, |l.index|, lines[t]) &&
      (Split(lines[t]) == [] ==> l.error == Some(EmptyRow)) &&
      (Split(lines[t]) != [] && Split(lines[t])[0] !in l.index ==> l.error == Some(MissingKey)) &&
      (Split(lines[t]) != [] && Split(lines[t])[0] in l.index ==>
         l.error == Some(BadNumber) || l.error == Some(IndexOutOfRange))
  {
    var l := Load(lines);
    LoadError(lines);
    FirstLineErrorAt(l.index, |l.index|, lines, HeaderIndex(lines, 0) + 1, t);
  }

  /** A load after a header raises nothing exactly when every row line is well
      formed: it names a header symbol, and its values are numbers that fit in
      that row. */
  lemma LoadSucceedsIff(lines: seq<string>)
    requires Load(lines).Loaded?
    ensures var l := Load(lines);
      l.error.None? <==> RowLinesOk(l.index, |l.index|, lines, HeaderIndex(lines, 0) + 1)
  {
    var l := Load(lines);
    LoadError(lines);
    NoLineErrorIff(l.index, |l.index|, lines, HeaderIndex(lines, 0) + 1);
  }

  /** Every line from `k` on is a well-formed row line. */
  predicate RowLinesOk(index: map<string, nat>, n: nat, lines: seq<string>, k: nat) {
    forall u :: k <= u < |lines| ==> RowLineOk(index, n, lines[u])
  }

  /** No line from `k` on raises exactly when they are all well-formed row lines. */
  lemma NoLineErrorIff(index: map<string, nat>, n: nat, lines: seq<string>, k: nat)
    requires k <= |lines|
    ensures FirstLineError(index, n, lines, k).None? <==> RowLinesOk(index, n, lines, k)
  {
    FirstLineErrorNone(index, n, lines, k);
    forall u | k <= u < |lines|
      ensures LineError(index, n, lines[u]).None? <==> RowLineOk(index, n, lines[u])
    {
      LineErrorNoneIff(index, n, lines[u]);
    }
  }
}
