/**
 * `create_index` of src/embed_interface.cpp: walk the document tree, keep
 * the regular `.txt` and `.md` files, clean and chunk each one, embed every
 * chunk as a passage and write one tab-separated record per chunk with
 * consecutive ids. The file system walk and the float formatting are
 * parameters of the model.
 */
module IndexWriter {
  import opened Wrappers
  import opened Text
  import opened Decimal
  import opened EmbedInterface
  import Chunker

  /** Words per chunk and words shared by neighbouring chunks. */
  const MaxWords: int := 1000
  const Overlap: int := 80

  // ---- file names ----

  /** `path::filename`: the part after the last '/'. */
  function Basename(path: string): (name: string)
    ensures |name| <= |path| && path[|path| - |name|..] == name
    ensures forall i :: 0 <= i < |name| ==> name[i] != '/'
    ensures |name| < |path| ==> path[|path| - |name| - 1] == '/'
    decreases |path|
  {
    if path == [] || path[|path| - 1] == '/' then []
    else Basename(path[..|path| - 1]) + [path[|path| - 1]]
  }

  /** A name without '/' put below a directory is the file name of the result. */
  lemma {:induction false} BasenameBelow(dir: string, name: string)
    requires forall i :: 0 <= i < |name| ==> name[i] != '/'
    ensures Basename(dir + "/" + name) == name
    decreases |name|
  {
    if name == [] {
      assert (dir + "/" + name) == dir + "/";
    } else {
      var p := dir + "/" + name;
      var init := name[..|name| - 1];
      assert p[..|p| - 1] == dir + "/" + init;
      BasenameBelow(dir, init);
      assert init + [name[|name| - 1]] == name;
    }
  }

  /** Position of the last '.', if there is one. */
  function LastDot(s: string): (r: Option<nat>)
    ensures r.Some? ==> r.value < |s| && s[r.value] == '.' && forall i :: r.value < i < |s| ==> s[i] != '.'
    ensures r.None? ==> forall i :: 0 <= i < |s| ==> s[i] != '.'
  {
    if s == [] then None
    else if s[|s| - 1] == '.' then Some(|s| - 1)
    else LastDot(s[..|s| - 1])
  }

  /**
   * `path::extension` of a file name: from the last '.' to the end; empty
   * for "..", for a name without a dot and for a name whose only dot is
   * its first character.
   */
  function Extension(name: string): string {
    if name == ".." then []
    else match LastDot(name)
      case None => []
      case Some(d) => if d == 0 then [] else name[d..]
  }

  /** `::tolower` in the C locale: only 'A' to 'Z' change. */
  function LowerChar(c: char): char {
    if 'A' <= c <= 'Z' then (c as int + 32) as char else c
  }

  function Lower(s: string): (t: string)
    ensures |t| == |s|
  {
    seq(|s|, i requires 0 <= i < |s| => LowerChar(s[i]))
  }

  /** The filter of `create_index`: the lower-cased extension is ".txt" or ".md". */
  predicate IsDocument(name: string) {
    var ext := Lower(Extension(name));
    ext == ".txt" || ext == ".md"
  }

  /** A lower-cased character is '.' only when it was one. */
  lemma LowerDot(c: char)
    ensures LowerChar(c) == '.' <==> c == '.'
  {
  }

  /** An extension as the filter spells it: a dot, then at least one lower-case letter. */
  predicate IsLowerExtension(ext: string) {
    |ext| >= 2 && ext[0] == '.' && forall i :: 1 <= i < |ext| ==> 'a' <= ext[i] <= 'z'
  }

  /** The name has more characters than `ext` and ends in it, in any mix of case. */
  predicate EndsWithLower(name: string, ext: string) {
    |name| > |ext| && Lower(name[|name| - |ext|..]) == ext
  }

  /** A name that ends in a lower-case extension, in any case and with something before it, has that extension. */
  lemma EndingIsExtension(name: string, ext: string)
    requires IsLowerExtension(ext) && EndsWithLower(name, ext)
    ensures Lower(Extension(name)) == ext
  {
    var k := |ext|;
    var t := name[|name| - k..];
    assert LowerChar(name[|name| - k]) == '.' by {
      assert Lower(t)[0] == LowerChar(t[0]);
    }
    LowerDot(name[|name| - k]);
    assert forall i :: |name| - k < i < |name| ==> 'a' <= LowerChar(name[i]) <= 'z' by {
      forall i | |name| - k < i < |name| ensures 'a' <= LowerChar(name[i]) <= 'z' {
        assert Lower(t)[i - (|name| - k)] == LowerChar(name[i]);
      }
    }
    var d := LastDot(name).value;
    LowerDot(name[d]);
    assert d == |name| - k;
    assert name != "..";
  }

  /** The extension is taken from the last dot on, when there is one after the first character. */
  lemma ExtensionIsSuffix(name: string)
    requires Extension(name) != []
    ensures 0 < |name| - |Extension(name)| && name[|name| - |Extension(name)|..] == Extension(name)
  {
  }

  /** A name whose extension lower-cases to `ext` ends in `ext`, in some case, with something before it. */
  lemma ExtensionIsEnding(name: string, ext: string)
    requires IsLowerExtension(ext) && Lower(Extension(name)) == ext
    ensures EndsWithLower(name, ext)
  {
    assert |Extension(name)| == |ext|;
    ExtensionIsSuffix(name);
  }

  /**
   * Exactly the names of more than four characters ending in ".txt", or of
   * more than three ending in ".md", in any mix of case, are indexed: a
   * hidden file named ".md" is not.
   */
  lemma IsDocumentIff(name: string)
    ensures IsDocument(name) <==> EndsWithLower(name, ".txt") || EndsWithLower(name, ".md")
  {
    var txt, md := ".txt", ".md";
    assert IsLowerExtension(txt) by {
      assert txt[1] == 't' && txt[2] == 'x' && txt[3] == 't';
    }
    assert IsLowerExtension(md) by {
      assert md[1] == 'm' && md[2] == 'd';
    }
    if Lower(Extension(name)) == txt {
      ExtensionIsEnding(name, txt);
    } else if Lower(Extension(name)) == md {
      ExtensionIsEnding(name, md);
    }
    if EndsWithLower(name, txt) {
      EndingIsExtension(name, txt);
    } else if EndsWithLower(name, md) {
      EndingIsExtension(name, md);
    }
  }

  // ---- records ----

  /** The formatted components of a vector, in order (`fmt` is fixed notation with seven decimals). */
  function Formatted(v: seq<real>, fmt: real -> string): (ts: seq<string>)
    ensures |ts| == |v|
  {
    seq(|v|, i requires 0 <= i < |v| => fmt(v[i]))
  }

  /** The vector field of a record: the formatted components separated by commas. */
  function VectorCsv(v: seq<real>, fmt: real -> string): string {
    Join(',', Formatted(v, fmt))
  }

  /** A record without its line end: id, vector, file name and chunk, separated by tabs. */
  function RecordLine(id: nat, vcsv: string, name: string, chunk: string): string {
    DecimalString(id) + "\t" + vcsv + "\t" + name + "\t" + chunk
  }

  /** The `vcsv` loop: a comma before every component but the first. */
  method FormatVector(v: seq<real>, fmt: real -> string) returns (s: string)
    ensures s == VectorCsv(v, fmt)
  {
    s := [];
    var i := 0;
    while i < |v|
      invariant 0 <= i <= |v|
      invariant s == Join(',', Formatted(v[..i], fmt))
    {
      assert Formatted(v[..i + 1], fmt) == Formatted(v[..i], fmt) + [fmt(v[i])];
      if i > 0 {
        JoinSnoc(',', Formatted(v[..i], fmt), fmt(v[i]));
        s := s + [','];
      }
      s := s + fmt(v[i]);
      i := i + 1;
    }
    assert v[..i] == v;
  }

  /** A chunk to be written, with the file name it came from. */
  datatype Job = Job(name: string, text: string)

  /** The record of a job under an id, None when its embedding fails. */
  function Record(j: Job, id: nat, e: Embedder, fmt: real -> string): Option<string> {
    match EmbedPassage(e, j.text)
    case None => None
    case Some(v) => Some(RecordLine(id, VectorCsv(v, fmt), j.name, j.text))
  }

  // ---- the walk ----

  /** An entry of the recursive walk: its path, whether it is a regular file, and its contents (None when it does not open). */
  datatype DirEntry = DirEntry(path: string, isRegular: bool, contents: Option<string>)

  /** What the walk yields, in order, and whether it then throws. */
  datatype Walk = Walk(entries: seq<DirEntry>, throws: bool)

  /** An entry that counts as a file: a regular text or markdown file that opens and holds a word. */
  predicate Accepted(d: DirEntry) {
    d.isRegular && IsDocument(Basename(d.path)) && d.contents.Some? && Chunker.CleanSpaces(d.contents.value) != []
  }

  /** The chunks of a file's contents. */
  function FileChunks(contents: string): seq<string> {
    Chunker.Chunks(Chunker.CleanSpaces(contents), MaxWords, Overlap)
  }

  /** The same file name paired with each chunk. */
  function JobsOf(name: string, chunks: seq<string>): (js: seq<Job>)
    ensures |js| == |chunks|
  {
    seq(|chunks|, k requires 0 <= k < |chunks| => Job(name, chunks[k]))
  }

  /** The jobs an entry contributes. */
  function EntryJobs(d: DirEntry): seq<Job> {
    if Accepted(d) then JobsOf(Basename(d.path), FileChunks(d.contents.value)) else []
  }

  /** All jobs of the walk, entry by entry and in order. */
  function Jobs(ds: seq<DirEntry>): seq<Job> {
    JobsBy(ds, EntryJobs)
  }

  /** The jobs of the entries in order, entry `d` contributing `f(d)`. */
  function JobsBy(ds: seq<DirEntry>, f: DirEntry -> seq<Job>): seq<Job> {
    if ds == [] then [] else JobsBy(ds[..|ds| - 1], f) + f(ds[|ds| - 1])
  }

  /** `f` gives the jobs of entry `d`. */
  predicate JobsAre(f: DirEntry -> seq<Job>, d: DirEntry) {
    f(d) == EntryJobs(d)
  }

  lemma {:induction false} JobsAppend(a: seq<DirEntry>, b: seq<DirEntry>, f: DirEntry -> seq<Job>)
    ensures JobsBy(a + b, f) == JobsBy(a, f) + JobsBy(b, f)
    decreases |b|
  {
    if b == [] {
      assert a + b == a;
    } else {
      var b' := b[..|b| - 1];
      assert (a + b)[..|a + b| - 1] == a + b';
      JobsAppend(a, b', f);
      AppendAssoc(JobsBy(a, f), JobsBy(b', f), f(b[|b| - 1]));
    }
  }

  /**
   * Every accepted file contributes at least one job; a file of at most
   * 920 words (one step of 1000 - 80) contributes exactly one, its cleaned text.
   */
  lemma AcceptedFileJobs(d: DirEntry)
    requires Accepted(d)
    ensures EntryJobs(d) != []
    ensures |Chunker.Words(d.contents.value)| <= MaxWords - Overlap ==>
      EntryJobs(d) == [Job(Basename(d.path), Chunker.CleanSpaces(d.contents.value))]
  {
    var c := d.contents.value;
    var all := Chunker.CleanSpaces(c);
    Chunker.CleanSpacesKeepsWords(c);
    Chunker.CleanSpacesIsJoin(c);
    assert Chunker.Words(all) != [];
    Chunker.ShortTextOneChunk(all, MaxWords, Overlap);
    if |Chunker.Words(c)| <= MaxWords - Overlap {
      assert Chunker.Step(MaxWords, Overlap) == MaxWords - Overlap;
      Chunker.CleanSpacesIdempotent(c);
      assert FileChunks(c) == [all];
      JobsOfOne(Basename(d.path), all);
    }
  }

  lemma JobsOfOne(name: string, t: string)
    ensures JobsOf(name, [t]) == [Job(name, t)]
  {
    assert JobsOf(name, [t])[0] == Job(name, t);
  }

  // ---- create_index ----

  /** `lines` are the records of the first `|lines|` jobs, with ids counted from `start`. */
  predicate WrittenFrom(jobs: seq<Job>, start: nat, lines: seq<string>, e: Embedder, fmt: real -> string) {
    WrittenBy(jobs, start, lines, Recorder(e, fmt))
  }

  /** `Record` for a given embedder and number format. */
  function Recorder(e: Embedder, fmt: real -> string): (Job, nat) -> Option<string> {
    (j: Job, id: nat) => Record(j, id, e, fmt)
  }

  /** `lines` are the records `rec` makes for the first jobs, with ids from `start`. */
  predicate WrittenBy(jobs: seq<Job>, start: nat, lines: seq<string>, rec: (Job, nat) -> Option<string>) {
    |lines| <= |jobs| && forall k :: 0 <= k < |lines| ==> rec(jobs[k], start + k) == Some(lines[k])
  }

  /** The inner loop: one record per chunk of a file, stopping at the first chunk that does not embed. */
  method WriteFile(e: Embedder, fmt: real -> string, name: string, chunks: seq<string>, start: nat)
    returns (ok: bool, out: seq<string>)
    ensures WrittenFrom(JobsOf(name, chunks), start, out, e, fmt)
    ensures ok ==> |out| == |chunks|
    ensures !ok ==> |out| < |chunks| && EmbedPassage(e, chunks[|out|]).None?
  {
    out := [];
    var i := 0;
    while i < |chunks|
      invariant 0 <= i <= |chunks| && |out| == i
      invariant WrittenFrom(JobsOf(name, chunks), start, out, e, fmt)
    {
      var ch := chunks[i];
      var emb := EmbedPassage(e, ch);
      if emb.None? {
        return false, out;
      }
      var vcsv := FormatVector(emb.value, fmt);
      var line := RecordLine(start + i, vcsv, name, ch);
      assert JobsOf(name, chunks)[i] == Job(name, ch);
      assert Record(Job(name, ch), start + i, e, fmt) == Some(line);
      WrittenSnoc(JobsOf(name, chunks), start, out, line, Recorder(e, fmt));
      out := out + [line];
      i := i + 1;
    }
    return true, out;
  }

  /** One more record, for the next job, extends what is written. */
  lemma WrittenSnoc(jobs: seq<Job>, start: nat, lines: seq<string>, line: string, rec: (Job, nat) -> Option<string>)
    requires WrittenBy(jobs, start, lines, rec) && |lines| < |jobs|
    requires rec(jobs[|lines|], start + |lines|) == Some(line)
    ensures WrittenBy(jobs, start, lines + [line], rec)
  {
    var more := lines + [line];
    forall k | 0 <= k < |more|
      ensures rec(jobs[k], start + k) == Some(more[k])
    {
      if k < |lines| {
        assert more[k] == lines[k];
      } else {
        assert more[k] == line && k == |lines|;
      }
    }
  }

  /** Records written for one job list, followed by those for the next, are written for both. */
  lemma WrittenAppend(a: seq<Job>, b: seq<Job>, la: seq<string>, lb: seq<string>, rec: (Job, nat) -> Option<string>)
    requires WrittenBy(a, 0, la, rec) && |la| == |a|
    requires WrittenBy(b, |a|, lb, rec)
    ensures WrittenBy(a + b, 0, la + lb, rec)
  {
    var jobs, lines := a + b, la + lb;
    forall k | 0 <= k < |lines|
      ensures rec(jobs[k], k) == Some(lines[k])
    {
      if k < |la| {
        assert jobs[k] == a[k] && lines[k] == la[k];
        assert rec(a[k], 0 + k) == Some(la[k]);
      } else {
        var m := k - |a|;
        assert jobs[k] == b[m] && lines[k] == lb[m] && k == |a| + m;
        assert rec(b[m], |a| + m) == Some(lb[m]);
      }
    }
  }

  /**
   * What the output holds once `create_index` is past its two checks: the
   * records of the first jobs in order, with ids from 0; all of them, and
   * the result true, exactly when every job embeds and the walk does not
   * throw; otherwise they stop before the first job that does not embed, or
   * at the end of the walk.
   */
  predicate IndexedAs(jobs: seq<Job>, throws: bool, e: Embedder, fmt: real -> string, ok: bool, lines: seq<string>) {
    && WrittenFrom(jobs, 0, lines, e, fmt)
    && (ok <==> !throws && forall k :: 0 <= k < |jobs| ==> EmbedPassage(e, jobs[k].text).Some?)
    && (ok ==> |lines| == |jobs|)
    && (|lines| < |jobs| ==> EmbedPassage(e, jobs[|lines|].text).None?)
  }

  /**
   * `create_index`: check the model, open the output, then write the
   * records of the walk's jobs. `lines` are the lines written (each ends
   * with '\n' in the file). A missing model or output writes nothing.
   */
  method CreateIndex(modelLoaded: bool, outputOpens: bool, walk: Walk, e: Embedder, fmt: real -> string)
    returns (ok: bool, lines: seq<string>)
    ensures !modelLoaded || !outputOpens ==> !ok && lines == []
    ensures modelLoaded && outputOpens ==> IndexedAs(Jobs(walk.entries), walk.throws, e, fmt, ok, lines)
  {
    if !modelLoaded || !outputOpens {
      return false, [];
    }
    ok, lines := WalkEntries(walk, e, fmt, EntryJobs);
  }

  /** The walk loop of `create_index`, with `f` giving each entry's jobs. */
  method WalkEntries(walk: Walk, e: Embedder, fmt: real -> string, ghost f: DirEntry -> seq<Job>)
    returns (ok: bool, lines: seq<string>)
    requires forall d :: JobsAre(f, d)
    ensures IndexedAs(JobsBy(walk.entries, f), walk.throws, e, fmt, ok, lines)
  {
    lines := [];
    var ds := walk.entries;
    var i := 0;
    ghost var done: seq<Job> := [];
    while i < |ds|
      invariant 0 <= i <= |ds| && done == JobsBy(ds[..i], f)
      invariant WrittenFrom(done, 0, lines, e, fmt) && |lines| == |done|
    {
      var fileOk, out := IndexEntry(e, fmt, ds[i], |lines|, f);
      WrittenAppend(done, f(ds[i]), lines, out, Recorder(e, fmt));
      lines := lines + out;
      JobsSnoc(ds, i, f);
      if !fileOk {
        StoppedAt(ds, i, done, |out|, |lines|, e, f);
        WrittenPrefix(ds, i + 1, lines, f, Recorder(e, fmt));
        Stopped(JobsBy(ds, f), walk.throws, e, fmt, lines);
        return false, lines;
      }
      done := done + f(ds[i]);
      i := i + 1;
    }
    assert ds[..i] == ds;
    ok := !walk.throws;
    Completed(JobsBy(ds, f), walk.throws, e, fmt, lines);
  }

  /** Output that stops before a job that does not embed is a failed index. */
  lemma Stopped(jobs: seq<Job>, throws: bool, e: Embedder, fmt: real -> string, lines: seq<string>)
    requires WrittenFrom(jobs, 0, lines, e, fmt) && |lines| < |jobs|
    requires EmbedPassage(e, jobs[|lines|].text).None?
    ensures IndexedAs(jobs, throws, e, fmt, false, lines)
  {
  }

  /** Output holding every job is a complete index unless the walk throws. */
  lemma Completed(jobs: seq<Job>, throws: bool, e: Embedder, fmt: real -> string, lines: seq<string>)
    requires WrittenFrom(jobs, 0, lines, e, fmt) && |lines| == |jobs|
    ensures IndexedAs(jobs, throws, e, fmt, !throws, lines)
  {
    AllWritten(jobs, lines, e, fmt);
  }

  /**
   * The body of the walk loop for one entry: skip it unless it is accepted,
   * otherwise chunk its cleaned contents and write their records with ids
   * from `start`.
   */
  method IndexEntry(e: Embedder, fmt: real -> string, d: DirEntry, start: nat, ghost f: DirEntry -> seq<Job>)
    returns (ok: bool, out: seq<string>)
    requires JobsAre(f, d)
    ensures WrittenFrom(f(d), start, out, e, fmt)
    ensures ok ==> |out| == |f(d)|
    ensures !ok ==> |out| < |f(d)| && EmbedPassage(e, f(d)[|out|].text).None?
  {
    if !d.isRegular || !IsDocument(Basename(d.path)) || d.contents.None? {
      return true, [];
    }
    var all := Chunker.CleanSpaces(d.contents.value);
    if all == [] {
      return true, [];
    }
    var cs := Chunker.ChunkWords(all, MaxWords, Overlap);
    var name := Basename(d.path);
    assert f(d) == JobsOf(name, cs);
    ok, out := WriteFile(e, fmt, name, cs, start);
    if !ok {
      assert f(d)[|out|].text == cs[|out|];
    }
  }

  /** One more entry adds its jobs after the others. */
  lemma JobsSnoc(ds: seq<DirEntry>, i: nat, f: DirEntry -> seq<Job>)
    requires i < |ds|
    ensures JobsBy(ds[..i + 1], f) == JobsBy(ds[..i], f) + f(ds[i])
  {
    assert ds[..i + 1][..i] == ds[..i];
  }

  /** The jobs of a prefix of the walk come first among all its jobs. */
  lemma JobsPrefix(ds: seq<DirEntry>, n: nat, f: DirEntry -> seq<Job>)
    requires n <= |ds|
    ensures |JobsBy(ds[..n], f)| <= |JobsBy(ds, f)|
    ensures forall k :: 0 <= k < |JobsBy(ds[..n], f)| ==> JobsBy(ds, f)[k] == JobsBy(ds[..n], f)[k]
  {
    assert ds == ds[..n] + ds[n..];
    JobsAppend(ds[..n], ds[n..], f);
  }

  /** Records written for the jobs of a prefix of the walk are written for the whole walk. */
  lemma WrittenPrefix(ds: seq<DirEntry>, n: nat, lines: seq<string>, f: DirEntry -> seq<Job>, rec: (Job, nat) -> Option<string>)
    requires n <= |ds| && WrittenBy(JobsBy(ds[..n], f), 0, lines, rec)
    ensures WrittenBy(JobsBy(ds, f), 0, lines, rec)
  {
    JobsPrefix(ds, n, f);
  }

  /** Job `m` of entry `i` sits right after the jobs of the entries before it. */
  lemma StoppedAt(ds: seq<DirEntry>, i: nat, done: seq<Job>, m: nat, n: nat, e: Embedder, f: DirEntry -> seq<Job>)
    requires i < |ds| && done == JobsBy(ds[..i], f) && n == |done| + m
    requires m < |f(ds[i])| && EmbedPassage(e, f(ds[i])[m].text).None?
    ensures n < |JobsBy(ds, f)| && EmbedPassage(e, JobsBy(ds, f)[n].text).None?
  {
    JobsSnoc(ds, i, f);
    JobsPrefix(ds, i + 1, f);
    assert JobsBy(ds[..i + 1], f)[|done| + m] == f(ds[i])[m];
  }

  /** When all jobs are written, every job embedded. */
  lemma AllWritten(jobs: seq<Job>, lines: seq<string>, e: Embedder, fmt: real -> string)
    requires WrittenFrom(jobs, 0, lines, e, fmt) && |lines| == |jobs|
    ensures forall k :: 0 <= k < |jobs| ==> EmbedPassage(e, jobs[k].text).Some?
  {
    forall k | 0 <= k < |jobs| ensures EmbedPassage(e, jobs[k].text).Some? {
      assert Record(jobs[k], k, e, fmt).Some?;
    }
  }
}
