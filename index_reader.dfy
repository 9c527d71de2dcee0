/**
 * Reading the index file (src/rag_client.cpp): `trim`, `parse_vec_csv`,
 * `parse_index_line` and what `load_index` keeps of a sequence of lines.
 * `std::stof` is the abstract partial function `stof`.
 */
module IndexReader {
  import opened Wrappers
  import opened Text
  import opened Decimal
  import opened RagTypes

  /** `trim`: erase blank characters at the front, then pop them at the back. */
  method Trim(s: string) returns (t: string)
    ensures t == Trimmed(s, IsBlank)
  {
    t := s;
    while t != [] && t[0] <= ' '
      invariant TrimStart(t, IsBlank) == TrimStart(s, IsBlank)
    {
      t := t[1..];
    }
    ghost var front := t;
    while t != [] && t[|t| - 1] <= ' '
      invariant TrimEnd(t, IsBlank) == TrimEnd(front, IsBlank)
    {
      t := t[..|t| - 1];
    }
  }

  /** The characters `parse_vec_csv` skips before a token. */
  predicate IsCsvSeparator(c: char) {
    c == ',' || c == ' ' || c == '\t'
  }

  /** What the scanner hands to `std::stof`: non-empty, no comma, not starting with a separator. */
  predicate IsCsvToken(t: string) {
    t != [] && !IsCsvSeparator(t[0]) && forall i :: 0 <= i < |t| ==> t[i] != ','
  }

  /** The tokens `parse_vec_csv` converts, in order: separators are skipped, then a token runs to the next comma. */
  function CsvTokens(s: string): (ts: seq<string>)
    decreases |s|
  {
    var r := TrimStart(s, IsCsvSeparator);
    if r == [] then []
    else
      var q := IndexOf(r, ',');
      [r[..q]] + (if q < |r| then CsvTokens(r[q + 1..]) else [])
  }

  /** Every token is non-empty, has no comma and does not start with a separator. */
  lemma {:induction false} CsvTokensAreTokens(s: string)
    ensures forall k :: 0 <= k < |CsvTokens(s)| ==> IsCsvToken(CsvTokens(s)[k])
    decreases |s|
  {
    var r := TrimStart(s, IsCsvSeparator);
    if r != [] {
      var q := IndexOf(r, ',');
      IndexOfSpec(r, ',');
      assert q > 0;
      if q < |r| {
        CsvTokensAreTokens(r[q + 1..]);
      }
    }
  }

  /** Each token through `std::stof`, 0.0 where it throws. */
  function TokenValues(ts: seq<string>, stof: string -> Option<real>): (v: seq<real>)
    ensures |v| == |ts|
  {
    if ts == [] then [] else TokenValues(ts[..|ts| - 1], stof) + [stof(ts[|ts| - 1]).GetOr(0.0)]
  }

  /** The `k`-th value is the `k`-th token through `std::stof`. */
  lemma {:induction false} TokenValuesAt(ts: seq<string>, stof: string -> Option<real>, k: nat)
    requires k < |ts|
    ensures TokenValues(ts, stof)[k] == stof(ts[k]).GetOr(0.0)
  {
    if k < |ts| - 1 {
      TokenValuesAt(ts[..|ts| - 1], stof, k);
    }
  }

  /** The vector `parse_vec_csv` returns. */
  function VecFromCsv(csv: string, stof: string -> Option<real>): seq<real> {
    TokenValues(CsvTokens(csv), stof)
  }

  /** The token list depends only on the text after the leading separators. */
  lemma CsvTokensSameTrim(x: string, y: string)
    requires TrimStart(x, IsCsvSeparator) == TrimStart(y, IsCsvSeparator)
    ensures CsvTokens(x) == CsvTokens(y)
  {
  }

  /** Separators before a token do not change the token list. */
  lemma CsvTokensSkip(s: string, p0: nat, p: nat)
    requires p0 <= p <= |s|
    requires forall k :: p0 <= k < p ==> IsCsvSeparator(s[k])
    ensures CsvTokens(s[p0..]) == CsvTokens(s[p..])
  {
    TrimStartSkips(s[p0..], IsCsvSeparator, p - p0);
    assert s[p0..][p - p0..] == s[p..];
    CsvTokensSameTrim(s[p0..], s[p..]);
  }

  /** A list starting with a token: that token up to the comma at `n` (or the end), then the rest. */
  lemma CsvTokensHead(t: string, n: nat)
    requires 0 < n <= |t| && !IsCsvSeparator(t[0])
    requires forall i :: 0 <= i < n ==> t[i] != ','
    requires n < |t| ==> t[n] == ','
    ensures CsvTokens(t) == [t[..n]] + (if n < |t| then CsvTokens(t[n + 1..]) else [])
  {
    assert TrimStart(t, IsCsvSeparator) == t;
    IndexOfIs(t, ',', n);
  }

  /** One step of `parse_vec_csv`: separators from `p0` to `p`, then a token from `p` to the comma at `q` (or the end). */
  lemma CsvTokensStep(s: string, p0: nat, p: nat, q: nat)
    requires p0 <= p < q <= |s|
    requires forall k :: p0 <= k < p ==> IsCsvSeparator(s[k])
    requires !IsCsvSeparator(s[p])
    requires forall k :: p <= k < q ==> s[k] != ','
    requires q < |s| ==> s[q] == ','
    ensures CsvTokens(s[p0..]) == [s[p..q]] + (if q < |s| then CsvTokens(s[q + 1..]) else [])
  {
    CsvTokensSkip(s, p0, p);
    var t := s[p..];
    CsvTokensHead(t, q - p);
    assert t[..q - p] == s[p..q];
    if q < |s| {
      assert t[q - p + 1..] == s[q + 1..];
    }
  }

  /** A tail made only of separators holds no tokens. */
  lemma CsvTokensOfSeparators(s: string, p0: nat)
    requires p0 <= |s|
    requires forall k :: p0 <= k < |s| ==> IsCsvSeparator(s[k])
    ensures CsvTokens(s[p0..]) == []
  {
    TrimStartSkips(s[p0..], IsCsvSeparator, |s| - p0);
  }

  /** The inner `while` of `parse_vec_csv` that steps over commas, spaces and tabs. */
  method SkipSeparators(csv: string, from: nat) returns (p: nat)
    requires from <= |csv|
    ensures from <= p <= |csv|
    ensures forall k :: from <= k < p ==> IsCsvSeparator(csv[k])
    ensures p < |csv| ==> !IsCsvSeparator(csv[p])
  {
    p := from;
    while p < |csv| && IsCsvSeparator(csv[p])
      invariant from <= p <= |csv|
      invariant forall k :: from <= k < p ==> IsCsvSeparator(csv[k])
    {
      p := p + 1;
    }
  }

  /** The inner `while` of `parse_vec_csv` that finds the comma ending a token. */
  method ScanToken(csv: string, from: nat) returns (q: nat)
    requires from <= |csv|
    ensures from <= q <= |csv|
    ensures forall k :: from <= k < q ==> csv[k] != ','
    ensures q < |csv| ==> csv[q] == ','
  {
    q := from;
    while q < |csv| && csv[q] != ','
      invariant from <= q <= |csv|
      invariant forall k :: from <= k < q ==> csv[k] != ','
    {
      q := q + 1;
    }
  }

  /** `parse_vec_csv`: a pointer walk that skips separators, scans a token to the next comma and pushes its value. */
  method ParseVecCsv(csv: string, stof: string -> Option<real>) returns (v: seq<real>)
    ensures v == VecFromCsv(csv, stof)
  {
    v := [];
    ghost var done: seq<string> := [];
    var p := 0;
    assert csv[p..] == csv;
    while p < |csv|
      invariant 0 <= p <= |csv|
      invariant CsvTokens(csv) == done + CsvTokens(csv[p..])
      invariant v == TokenValues(done, stof)
    {
      ghost var p0 := p;
      p := SkipSeparators(csv, p);
      if p >= |csv| {
        CsvTokensOfSeparators(csv, p0);
        p := |csv|;
        break;
      }
      var q := ScanToken(csv, p);
      CsvTokensStep(csv, p0, p, q);
      var token := csv[p..q];
      var next := if q < |csv| then q + 1 else q;
      assert CsvTokens(csv[p0..]) == [token] + CsvTokens(csv[next..]) by {
        if q == |csv| {
          CsvTokensOfSeparators(csv, q);
        }
      }
      ghost var before := done;
      ghost var rest := CsvTokens(csv[next..]);
      AppendAssoc(before, [token], rest);
      v := v + [stof(token).GetOr(0.0)];
      done := done + [token];
      assert done[..|done| - 1] == before;
      p := next;
    }
    CsvTokensOfSeparators(csv, p);
    assert done + [] == done;
  }

  /**
   * Tokens that are non-empty, comma-free and do not start with a space or a
   * tab come back one for one from their comma-separated join.
   */
  lemma {:induction false} CsvTokensOfJoin(ts: seq<string>)
    requires forall k :: 0 <= k < |ts| ==> IsCsvToken(ts[k])
    ensures CsvTokens(Join(',', ts)) == ts
    decreases |ts|
  {
    if ts != [] {
      var s := Join(',', ts);
      var t0 := ts[0];
      assert TrimStart(s, IsCsvSeparator) == s by {
        assert s[0] == t0[0];
      }
      if |ts| == 1 {
        IndexOfIs(s, ',', |t0|);
        assert s[..|t0|] == t0;
      } else {
        var rest := Join(',', ts[1..]);
        assert s == t0 + [','] + rest;
        IndexOfIs(s, ',', |t0|);
        assert s[..|t0|] == t0;
        assert s[|t0| + 1..] == rest;
        CsvTokensOfJoin(ts[1..]);
        assert ts == [t0] + ts[1..];
      }
    }
  }

  /** Position of the first `c` at or after `from` (`std::string::find`). */
  function FindFrom(s: string, c: char, from: nat): (r: Option<nat>)
    ensures r.Some? ==> from <= r.value < |s|
    decreases |s| - from
  {
    if from >= |s| then None
    else if s[from] == c then Some(from)
    else FindFrom(s, c, from + 1)
  }

  /** `find` returns the first occurrence at or after `from`, or nothing when there is none. */
  lemma {:induction false} FindFromSpec(s: string, c: char, from: nat)
    ensures var r := FindFrom(s, c, from);
      && (r.Some? ==> s[r.value] == c && forall i :: from <= i < r.value ==> s[i] != c)
      && (r.None? ==> forall i :: from <= i < |s| ==> s[i] != c)
    decreases |s| - from
  {
    if from < |s| && s[from] != c {
      FindFromSpec(s, c, from + 1);
    }
  }

  /** `find` from `from` hits the position `k` when `k` holds `c` and nothing before it does. */
  lemma {:induction false} FindFromIs(s: string, c: char, from: nat, k: nat)
    requires from <= k < |s| && s[k] == c
    requires forall i :: from <= i < k ==> s[i] != c
    ensures FindFrom(s, c, from) == Some(k)
    decreases k - from
  {
    if from < k {
      FindFromIs(s, c, from + 1, k);
    }
  }

  /** The four fields of a record line, cut at its first three tabs. */
  datatype Fields = Fields(id: string, vcsv: string, fname: string, text: string)

  /** The three `find('\t', ...)` calls and the four `substr`s of `parse_index_line`. */
  function SplitAtTabs(line: string): Option<Fields>
  {
    var p1 := FindFrom(line, '\t', 0);
    if p1.None? then None
    else
      var p2 := FindFrom(line, '\t', p1.value + 1);
      if p2.None? then None
      else
        var p3 := FindFrom(line, '\t', p2.value + 1);
        if p3.None? then None
        else Some(Fields(line[..p1.value], line[p1.value + 1..p2.value], line[p2.value + 1..p3.value], line[p3.value + 1..]))
  }

  /** The rest of `parse_index_line`: trim three fields and validate them. */
  function RowFromFields(f: Fields, stof: string -> Option<real>): Option<IndexRow>
  {
    var id := Trimmed(f.id, IsBlank);
    var vcsv := Trimmed(f.vcsv, IsBlank);
    var fname := Trimmed(f.fname, IsBlank);
    if id == [] || vcsv == [] || fname == [] then None
    else
      var n := Stoi(id);
      if n.None? then None
      else
        var vec := VecFromCsv(vcsv, stof);
        if vec == [] then None
        else Some(IndexRow(n.value, vec, fname, f.text))
  }

  /**
   * `parse_index_line`: split at the first three tabs, trim the id, vector
   * and file name (not the text), and reject empty fields, a bad id and an
   * empty vector. None stands for `false` with `row` left as it was.
   */
  function ParseIndexLine(line: string, stof: string -> Option<real>): Option<IndexRow>
  {
    var f := SplitAtTabs(line);
    if f.None? then None else RowFromFields(f.value, stof)
  }

  predicate NoTab(s: string) {
    forall i :: 0 <= i < |s| ==> s[i] != '\t'
  }

  /**
   * A line is split at its first three tabs: with tab-free id, vector and
   * file-name fields, the text is everything after the third tab (further
   * tabs included, untrimmed), and the line is accepted exactly when the
   * trimmed fields are non-empty, the id parses and the vector is non-empty.
   */
  lemma ParseIndexLineFields(a: string, b: string, c: string, d: string, stof: string -> Option<real>)
    requires NoTab(a) && NoTab(b) && NoTab(c)
    ensures var r := ParseIndexLine(a + "\t" + b + "\t" + c + "\t" + d, stof);
      var id := Trimmed(a, IsBlank);
      var vcsv := Trimmed(b, IsBlank);
      var fname := Trimmed(c, IsBlank);
      && (r.Some? <==> id != [] && vcsv != [] && fname != [] && Stoi(id).Some? && CsvTokens(vcsv) != [])
      && (r.Some? ==> r.value == IndexRow(Stoi(id).value, VecFromCsv(vcsv, stof), fname, d))
  {
    SplitFourFields(a, b, c, d);
  }

  /** The split finds exactly the three separating tabs. */
  lemma SplitFourFields(a: string, b: string, c: string, d: string)
    requires NoTab(a) && NoTab(b) && NoTab(c)
    ensures SplitAtTabs(a + "\t" + b + "\t" + c + "\t" + d) == Some(Fields(a, b, c, d))
  {
    var line := a + "\t" + b + "\t" + c + "\t" + d;
    var i1 := |a|;
    var i2 := i1 + 1 + |b|;
    var i3 := i2 + 1 + |c|;
    assert line[i1] == '\t' && line[i2] == '\t' && line[i3] == '\t';
    assert line[..i1] == a;
    assert line[i1 + 1..i2] == b;
    assert line[i2 + 1..i3] == c;
    assert line[i3 + 1..] == d;
    forall i | 0 <= i < i1 ensures line[i] != '\t' {
      assert line[i] == a[i];
    }
    forall i | i1 + 1 <= i < i2 ensures line[i] != '\t' {
      assert line[i] == b[i - i1 - 1];
    }
    forall i | i2 + 1 <= i < i3 ensures line[i] != '\t' {
      assert line[i] == c[i - i2 - 1];
    }
    FindFromIs(line, '\t', 0, i1);
    FindFromIs(line, '\t', i1 + 1, i2);
    FindFromIs(line, '\t', i2 + 1, i3);
  }

  /** A sequence is its prefix before `i`, the element at `i` and the rest. */
  lemma CutAt<T>(s: seq<T>, i: nat)
    requires i < |s|
    ensures s == s[..i] + [s[i]] + s[i + 1..]
  {
  }

  /** Where `find` stops there is a tab, and the piece it stepped over has none. */
  lemma FoundTab(line: string, from: nat, i: nat)
    requires FindFrom(line, '\t', from) == Some(i)
    ensures from <= i < |line| && line[i] == '\t' && NoTab(line[from..i])
  {
    FindFromSpec(line, '\t', from);
    forall k | 0 <= k < i - from ensures line[from..i][k] != '\t' {
      assert line[from..i][k] == line[from + k];
    }
  }

  /** Whatever the split returns puts the line back together around three tabs, with no tab in the first three fields. */
  lemma SplitAtTabsParts(line: string)
    ensures var f := SplitAtTabs(line);
      f.Some? ==>
        (line == f.value.id + "\t" + f.value.vcsv + "\t" + f.value.fname + "\t" + f.value.text
         && NoTab(f.value.id) && NoTab(f.value.vcsv) && NoTab(f.value.fname))
  {
    var p1 := FindFrom(line, '\t', 0);
    if p1.Some? {
      var i := p1.value;
      var p2 := FindFrom(line, '\t', i + 1);
      if p2.Some? {
        var j := p2.value;
        var p3 := FindFrom(line, '\t', j + 1);
        if p3.Some? {
          var k := p3.value;
          assert SplitAtTabs(line) == Some(Fields(line[..i], line[i + 1..j], line[j + 1..k], line[k + 1..]));
          SplitFieldsHaveNoTab(line, i, j, k);
          Reassemble(line, i, j, k);
        }
      }
    }
  }

  /** The three pieces the split cuts out before the third tab hold no tab. */
  lemma SplitFieldsHaveNoTab(line: string, i: nat, j: nat, k: nat)
    requires FindFrom(line, '\t', 0) == Some(i)
    requires FindFrom(line, '\t', i + 1) == Some(j)
    requires FindFrom(line, '\t', j + 1) == Some(k)
    ensures i < j < k < |line| && line[i] == '\t' && line[j] == '\t' && line[k] == '\t'
    ensures NoTab(line[..i]) && NoTab(line[i + 1..j]) && NoTab(line[j + 1..k])
  {
    FoundTab(line, 0, i);
    assert line[0..i] == line[..i];
    FoundTab(line, i + 1, j);
    FoundTab(line, j + 1, k);
  }

  /** The part of a line from `lo` is the piece up to the tab at `i`, the tab, and the rest. */
  lemma GlueAt(s: string, lo: nat, i: nat)
    requires lo <= i < |s| && s[i] == '\t'
    ensures s[lo..] == s[lo..i] + "\t" + s[i + 1..]
  {
  }

  /** Cutting a line at three tab positions and gluing the pieces back with tabs gives the line. */
  lemma Reassemble(line: string, i: nat, j: nat, k: nat)
    requires i < j < k < |line|
    requires line[i] == '\t' && line[j] == '\t' && line[k] == '\t'
    ensures line == line[..i] + "\t" + line[i + 1..j] + "\t" + line[j + 1..k] + "\t" + line[k + 1..]
  {
    GlueAt(line, 0, i);
    assert line[0..] == line && line[0..i] == line[..i];
    GlueAt(line, i + 1, j);
    GlueAt(line, j + 1, k);
    Regroup4(line[..i], line[i + 1..j], line[j + 1..k], line[k + 1..]);
  }

  /** The two ways of bracketing four tab-separated fields agree. */
  lemma Regroup4(a: string, b: string, c: string, d: string)
    ensures a + "\t" + (b + "\t" + (c + "\t" + d)) == a + "\t" + b + "\t" + c + "\t" + d
  {
    AppendAssoc(b + "\t", c + "\t", d);
    AppendAssoc(a + "\t", b + "\t" + c + "\t", d);
    AppendAssoc(a + "\t", b + "\t" + c, "\t");
    AppendAssoc(a + "\t", b + "\t", c);
    AppendAssoc(a + "\t", b, "\t");
  }

  /** A line that parses has at least three tabs. */
  lemma ParsedLineHasThreeTabs(line: string, stof: string -> Option<real>)
    ensures ParseIndexLine(line, stof).Some? ==> multiset(line)['\t'] >= 3
  {
    SplitAtTabsParts(line);
    var f := SplitAtTabs(line);
    if f.Some? {
      var a, b, c, d := f.value.id, f.value.vcsv, f.value.fname, f.value.text;
      assert multiset(line) == multiset(a) + multiset("\t") + multiset(b) + multiset("\t") + multiset(c) + multiset("\t") + multiset(d);
    }
  }

  /** A line with fewer than three tabs is rejected. */
  lemma FewerThanThreeTabs(line: string, stof: string -> Option<real>)
    requires multiset(line)['\t'] < 3
    ensures ParseIndexLine(line, stof).None?
  {
    ParsedLineHasThreeTabs(line, stof);
  }

  /** What `load_index` keeps of the lines it reads: empty lines are skipped, unparsable lines dropped, the rest kept in order. */
  function LoadRows(lines: seq<string>, stof: string -> Option<real>): (rows: seq<IndexRow>)
    ensures |rows| <= |lines|
  {
    KeptRows(lines, LineParser(stof))
  }

  /** `parse_index_line` for a given `std::stof`. */
  function LineParser(stof: string -> Option<real>): string -> Option<IndexRow> {
    (line: string) => ParseIndexLine(line, stof)
  }

  /** The rows `parse` makes of the non-empty lines it accepts, in order. */
  function KeptRows(lines: seq<string>, parse: string -> Option<IndexRow>): (rows: seq<IndexRow>)
    ensures |rows| <= |lines|
  {
    if lines == [] then []
    else
      var rest := KeptRows(lines[..|lines| - 1], parse);
      var last := lines[|lines| - 1];
      if last == [] then rest
      else match parse(last) {
        case None => rest
        case Some(r) => rest + [r]
      }
  }

  /** One more line adds its row when it is non-empty and parses. */
  lemma KeptSnoc(lines: seq<string>, i: nat, parse: string -> Option<IndexRow>)
    requires i < |lines|
    ensures KeptRows(lines[..i + 1], parse)
      == KeptRows(lines[..i], parse) + (if lines[i] != [] && parse(lines[i]).Some? then [parse(lines[i]).value] else [])
  {
    assert lines[..i + 1][..i] == lines[..i];
  }

  /** One line contributes its row exactly when it is non-empty and parses. */
  lemma LoadRowsOne(line: string, stof: string -> Option<real>)
    ensures LoadRows([line], stof) == if line != [] && ParseIndexLine(line, stof).Some? then [ParseIndexLine(line, stof).value] else []
  {
    assert [line][..0] == [];
  }

  /** Lines are handled one at a time and in file order. */
  lemma LoadRowsAppend(a: seq<string>, b: seq<string>, stof: string -> Option<real>)
    ensures LoadRows(a + b, stof) == LoadRows(a, stof) + LoadRows(b, stof)
  {
    KeptAppend(a, b, LineParser(stof));
  }

  lemma {:induction false} KeptAppend(a: seq<string>, b: seq<string>, parse: string -> Option<IndexRow>)
    ensures KeptRows(a + b, parse) == KeptRows(a, parse) + KeptRows(b, parse)
    decreases |b|
  {
    if b == [] {
      assert a + b == a;
    } else {
      var b' := b[..|b| - 1];
      assert (a + b)[..|a + b| - 1] == a + b';
      KeptAppend(a, b', parse);
    }
  }

  /** A line the parser rejects leaves the loaded rows as if it were not in the file. */
  lemma RejectedLineIsDropped(a: seq<string>, bad: string, b: seq<string>, stof: string -> Option<real>)
    requires ParseIndexLine(bad, stof).None?
    ensures LoadRows(a + [bad] + b, stof) == LoadRows(a + b, stof)
  {
    LoadRowsAppend(a + [bad], b, stof);
    LoadRowsAppend(a, [bad], stof);
    LoadRowsOne(bad, stof);
    LoadRowsAppend(a, b, stof);
  }

  /** A line without a tab is rejected. */
  lemma TablessLineIsRejected(line: string, stof: string -> Option<real>)
    requires NoTab(line)
    ensures ParseIndexLine(line, stof).None?
  {
    assert '\t' !in multiset(line);
    FewerThanThreeTabs(line, stof);
  }
}
