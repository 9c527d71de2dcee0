/**
 * The index file `create_index` writes, read back by `load_index`: every
 * record ends in '\n', `std::getline` splits the file into the records
 * again, and each record parses to a row holding its id, its vector as the
 * reader converts the formatted components, its trimmed file name and its
 * chunk.
 */
module RoundTrip {
  import opened Wrappers
  import opened Text
  import opened Decimal
  import opened RagTypes
  import opened IndexReader
  import opened EmbedInterface
  import opened IndexWriter
  import Chunker

  predicate NoNewline(s: string) {
    forall i :: 0 <= i < |s| ==> s[i] != '\n'
  }

  /** The bytes of the output file: every line followed by '\n'. */
  function FileText(lines: seq<string>): string {
    if lines == [] then [] else lines[0] + "\n" + FileText(lines[1..])
  }

  /** What repeated `std::getline` yields: the text between line ends, and a last piece only when the text does not end in '\n'. */
  function Lines(t: string): seq<string>
    decreases |t|
  {
    if t == [] then []
    else
      var k := IndexOf(t, '\n');
      if k == |t| then [t] else [t[..k]] + Lines(t[k + 1..])
  }

  lemma {:induction false} NewlineAfter(a: string, b: string)
    requires NoNewline(a)
    ensures IndexOf(a + "\n" + b, '\n') == |a|
    decreases |a|
  {
    if a != [] {
      assert (a + "\n" + b)[1..] == a[1..] + "\n" + b;
      NewlineAfter(a[1..], b);
    }
  }

  /** Lines without a line end come back from the file one for one, in order. */
  lemma {:induction false} LinesOfFileText(lines: seq<string>)
    requires forall k :: 0 <= k < |lines| ==> NoNewline(lines[k])
    ensures Lines(FileText(lines)) == lines
    decreases |lines|
  {
    if lines != [] {
      var a := lines[0];
      var rest := FileText(lines[1..]);
      var t := a + "\n" + rest;
      NewlineAfter(a, rest);
      assert t[..|a|] == a;
      assert t[|a| + 1..] == rest;
      LinesOfFileText(lines[1..]);
      assert lines == [a] + lines[1..];
    }
  }

  // ---- the fields of a record ----

  /** Text the formatter may produce for a component: non-empty, with no comma and no blank. */
  predicate IsNumberText(t: string) {
    t != [] && forall i :: 0 <= i < |t| ==> t[i] != ',' && !IsBlank(t[i])
  }

  predicate NoBlank(s: string) {
    forall i :: 0 <= i < |s| ==> !IsBlank(s[i])
  }

  lemma {:induction false} JoinNoBlank(parts: seq<string>)
    requires forall k :: 0 <= k < |parts| ==> NoBlank(parts[k])
    ensures NoBlank(Join(',', parts))
    decreases |parts|
  {
    if |parts| > 1 {
      JoinNoBlank(parts[1..]);
      var s := Join(',', parts);
      var a, rest := parts[0], Join(',', parts[1..]);
      assert s == a + [','] + rest;
      forall i | 0 <= i < |s| ensures !IsBlank(s[i]) {
        if i < |a| {
          assert s[i] == a[i];
        } else if i > |a| {
          assert s[i] == rest[i - |a| - 1];
        }
      }
    }
  }

  /**
   * The vector field: no tab, no line end, nothing to trim, and the CSV
   * scanner gets back exactly the formatted components.
   */
  lemma VectorField(v: seq<real>, fmt: real -> string)
    requires forall i :: 0 <= i < |v| ==> IsNumberText(fmt(v[i]))
    ensures var b := VectorCsv(v, fmt);
      && NoTab(b) && NoNewline(b) && Trimmed(b, IsBlank) == b
      && CsvTokens(b) == Formatted(v, fmt)
      && (b == [] <==> v == [])
  {
    var ts := Formatted(v, fmt);
    forall k | 0 <= k < |ts| ensures NoBlank(ts[k]) && IsCsvToken(ts[k]) {
      assert ts[k] == fmt(v[k]);
    }
    JoinNoBlank(ts);
    var b := VectorCsv(v, fmt);
    TrimUnchanged(b, IsBlank);
    CsvTokensOfJoin(ts);
    if v != [] {
      assert b != [] by {
        if |ts| > 1 {
          assert b == ts[0] + [','] + Join(',', ts[1..]);
        }
      }
    }
  }

  /**
   * A record parses exactly when its id fits in 32 bits, its vector has a
   * component and its file name is not blank; it then gives back the id,
   * the components as `stof` reads their text, the trimmed file name and
   * the chunk unchanged.
   */
  lemma RecordRoundTrip(id: nat, v: seq<real>, fmt: real -> string, name: string, chunk: string, stof: string -> Option<real>)
    requires forall i :: 0 <= i < |v| ==> IsNumberText(fmt(v[i]))
    requires NoTab(name)
    ensures var r := ParseIndexLine(RecordLine(id, VectorCsv(v, fmt), name, chunk), stof);
      && (r.Some? <==> id <= IntMax && v != [] && Trimmed(name, IsBlank) != [])
      && (r.Some? ==> r.value == IndexRow(id, TokenValues(Formatted(v, fmt), stof), Trimmed(name, IsBlank), chunk))
  {
    var a := DecimalString(id);
    DigitsAreTrimmed(a);
    VectorField(v, fmt);
    StoiOfDecimal(id);
    ParseIndexLineFields(a, VectorCsv(v, fmt), name, chunk, stof);
  }

  /** When `stof` reads every formatted component back as itself, the vector comes back unchanged. */
  lemma ExactComponents(v: seq<real>, fmt: real -> string, stof: string -> Option<real>)
    requires forall i :: 0 <= i < |v| ==> stof(fmt(v[i])) == Some(v[i])
    ensures TokenValues(Formatted(v, fmt), stof) == v
  {
    forall k | 0 <= k < |v| ensures TokenValues(Formatted(v, fmt), stof)[k] == v[k] {
      TokenValuesAt(Formatted(v, fmt), stof, k);
    }
  }

  // ---- whole files ----

  /** Line `k` is non-empty and `parse` makes row `k` of it. */
  predicate ParsesTo(lines: seq<string>, rows: seq<IndexRow>, k: nat, parse: string -> Option<IndexRow>) {
    k < |lines| && k < |rows| && lines[k] != [] && parse(lines[k]) == Some(rows[k])
  }

  /** Non-empty lines that all parse are kept as their rows, in order. */
  lemma {:induction false} LoadParsed(lines: seq<string>, rows: seq<IndexRow>, parse: string -> Option<IndexRow>)
    requires |rows| == |lines|
    requires forall k: nat :: k < |lines| ==> ParsesTo(lines, rows, k, parse)
    ensures KeptRows(lines, parse) == rows
    decreases |lines|
  {
    if lines != [] {
      var n := |lines|;
      var init, first := lines[..n - 1], rows[..n - 1];
      forall k: nat | k < |init| ensures ParsesTo(init, first, k, parse) {
        assert ParsesTo(lines, rows, k, parse);
      }
      LoadParsed(init, first, parse);
      assert ParsesTo(lines, rows, n - 1, parse);
      assert rows == first + [rows[n - 1]];
    }
  }

  /** A file name the record format carries: no tab, no line end, not blank. */
  predicate SafeName(name: string) {
    NoTab(name) && NoNewline(name) && Trimmed(name, IsBlank) != []
  }

  lemma NoNewlineConcat(a: string, b: string)
    requires NoNewline(a) && NoNewline(b)
    ensures NoNewline(a + b)
  {
  }

  /** The record of a job whose name is safe and whose chunk has no line end is a non-empty line that parses back. */
  lemma RecordLineLoads(id: nat, j: Job, v: seq<real>, fmt: real -> string, stof: string -> Option<real>)
    requires id <= IntMax && v != [] && SafeName(j.name) && NoNewline(j.text)
    requires forall i :: 0 <= i < |v| ==> IsNumberText(fmt(v[i]))
    ensures var line := RecordLine(id, VectorCsv(v, fmt), j.name, j.text);
      && line != [] && NoNewline(line)
      && ParseIndexLine(line, stof) == Some(IndexRow(id, TokenValues(Formatted(v, fmt), stof), Trimmed(j.name, IsBlank), j.text))
  {
    var a := DecimalString(id);
    DigitsAreTrimmed(a);
    VectorField(v, fmt);
    RecordRoundTrip(id, v, fmt, j.name, j.text, stof);
    var b := VectorCsv(v, fmt);
    NoNewlineConcat(a, "\t");
    NoNewlineConcat(a + "\t", b);
    NoNewlineConcat(a + "\t" + b, "\t");
    NoNewlineConcat(a + "\t" + b + "\t", j.name);
    NoNewlineConcat(a + "\t" + b + "\t" + j.name, "\t");
    NoNewlineConcat(a + "\t" + b + "\t" + j.name + "\t", j.text);
  }

  /** The row the record of a job loads as, for the vector the job embedded to. */
  function LoadedRow(j: Job, id: nat, v: seq<real>, fmt: real -> string, stof: string -> Option<real>): IndexRow {
    IndexRow(id, TokenValues(Formatted(v, fmt), stof), Trimmed(j.name, IsBlank), j.text)
  }

  /**
   * Records written for jobs with safe names and single-line chunks load
   * back one row per record, in order: row `k` has id `k`, the trimmed
   * name and the chunk of job `k`, and its vector read from the text of
   * the job's embedding.
   */
  lemma WrittenFileLoads(jobs: seq<Job>, lines: seq<string>, e: Embedder, fmt: real -> string, stof: string -> Option<real>)
    requires WrittenFrom(jobs, 0, lines, e, fmt)
    requires |lines| <= IntMax + 1 && e.nEmbd > 0
    requires forall x :: IsNumberText(fmt(x))
    requires forall k :: 0 <= k < |jobs| ==> SafeJob(jobs[k])
    ensures var rows := LoadRows(Lines(FileText(lines)), stof);
      && |rows| == |lines|
      && forall k :: 0 <= k < |lines| ==>
           EmbedPassage(e, jobs[k].text).Some? && rows[k] == LoadedRow(jobs[k], k, EmbedPassage(e, jobs[k].text).value, fmt, stof)
  {
    var rows := seq(|lines|, k requires 0 <= k < |lines| && |lines| <= |jobs| =>
      var r := EmbedPassage(e, jobs[k].text);
      if r.Some? then LoadedRow(jobs[k], k, r.value, fmt, stof) else IndexRow(0, [], [], []));
    forall k: nat | k < |lines|
      ensures EmbedPassage(e, jobs[k].text).Some?
      ensures NoNewline(lines[k]) && ParsesTo(lines, rows, k, LineParser(stof))
    {
      assert Record(jobs[k], k, e, fmt) == Some(lines[k]);
      var v := EmbedPassage(e, jobs[k].text).value;
      assert |v| == e.nEmbd;
      assert SafeName(jobs[k].name) && NoNewline(jobs[k].text);
      forall i | 0 <= i < |v| ensures IsNumberText(fmt(v[i])) {
        var x := v[i];
        assert IsNumberText(fmt(x));
      }
      RecordLineLoads(k, jobs[k], v, fmt, stof);
    }
    LinesOfFileText(lines);
    LoadParsed(lines, rows, LineParser(stof));
  }

  // ---- the walk's jobs ----

  /** `clean_spaces` output holds neither a tab nor a line end. */
  lemma CleanIsOneLine(t: string)
    requires Chunker.IsClean(t)
    ensures NoTab(t) && NoNewline(t)
  {
    forall i | 0 <= i < |t| ensures t[i] != '\t' && t[i] != '\n' {
      if IsSpace(t[i]) {
        assert t[i] == ' ';
      }
    }
  }

  /** The jobs of an entry carry its file name and clean, single-line chunks. */
  lemma EntryJobsFacts(d: DirEntry)
    ensures forall k :: 0 <= k < |EntryJobs(d)| ==>
      EntryJobs(d)[k].name == Basename(d.path) && NoNewline(EntryJobs(d)[k].text)
  {
    if Accepted(d) {
      var all := Chunker.CleanSpaces(d.contents.value);
      forall k | 0 <= k < |EntryJobs(d)|
        ensures EntryJobs(d)[k].name == Basename(d.path) && NoNewline(EntryJobs(d)[k].text)
      {
        assert EntryJobs(d)[k] == Job(Basename(d.path), FileChunks(d.contents.value)[k]);
        Chunker.ChunksAreClean(all, MaxWords, Overlap, k);
        CleanIsOneLine(FileChunks(d.contents.value)[k]);
      }
    }
  }

  /** A property every job of every entry has holds of every job of the walk. */
  lemma {:induction false} JobsByAll(ds: seq<DirEntry>, f: DirEntry -> seq<Job>, p: Job -> bool)
    requires forall i, k :: 0 <= i < |ds| && 0 <= k < |f(ds[i])| ==> p(f(ds[i])[k])
    ensures forall k :: 0 <= k < |JobsBy(ds, f)| ==> p(JobsBy(ds, f)[k])
    decreases |ds|
  {
    if ds != [] {
      var n := |ds|;
      var init := ds[..n - 1];
      JobsByAll(init, f, p);
      assert JobsBy(ds, f) == JobsBy(init, f) + f(ds[n - 1]);
    }
  }

  predicate SafeJob(j: Job) {
    SafeName(j.name) && NoNewline(j.text)
  }

  /** When every accepted entry's file name is safe, every job of the walk has a safe name and a single-line chunk. */
  lemma WalkJobsFacts(ds: seq<DirEntry>)
    requires forall i :: 0 <= i < |ds| && Accepted(ds[i]) ==> SafeName(Basename(ds[i].path))
    ensures forall k :: 0 <= k < |Jobs(ds)| ==> SafeJob(Jobs(ds)[k])
  {
    forall i, k | 0 <= i < |ds| && 0 <= k < |EntryJobs(ds[i])| ensures SafeJob(EntryJobs(ds[i])[k]) {
      EntryJobsFacts(ds[i]);
    }
    JobsByAll(ds, EntryJobs, SafeJob);
  }

  /**
   * The file `create_index` leaves behind loads, through `getline` and
   * `parse_index_line`, as one row per record written, in order, when the
   * names of the accepted files are safe, the formatter writes plain number text, the model
   * has at least one embedding dimension and the ids fit in 32 bits; a
   * complete index has one row per chunk of the walk.
   */
  lemma IndexLoadsBack(walk: Walk, e: Embedder, fmt: real -> string, stof: string -> Option<real>, ok: bool, lines: seq<string>)
    requires IndexedAs(Jobs(walk.entries), walk.throws, e, fmt, ok, lines)
    requires forall i :: 0 <= i < |walk.entries| && Accepted(walk.entries[i]) ==> SafeName(Basename(walk.entries[i].path))
    requires forall x :: IsNumberText(fmt(x))
    requires e.nEmbd > 0 && |lines| <= IntMax + 1
    ensures var jobs := Jobs(walk.entries);
      var rows := LoadRows(Lines(FileText(lines)), stof);
      && |rows| == |lines|
      && (ok ==> |rows| == |jobs|)
      && forall k :: 0 <= k < |rows| ==>
           EmbedPassage(e, jobs[k].text).Some? && rows[k] == LoadedRow(jobs[k], k, EmbedPassage(e, jobs[k].text).value, fmt, stof)
  {
    WalkJobsFacts(walk.entries);
    WrittenFileLoads(Jobs(walk.entries), lines, e, fmt, stof);
  }
}
