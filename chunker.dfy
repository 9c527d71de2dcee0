/**
 * The two text lambdas of `create_index` (src/embed_interface.cpp):
 * `clean_spaces`, which collapses whitespace runs and strips the ends, and
 * `chunk_words`, which cuts a text into overlapping word windows.
 * Whitespace is the C `isspace` set, as used by `std::regex`'s `\s` and by
 * `operator>>` on a string stream in the C locale.
 */
module Chunker {
  import opened Text

  predicate IsSpaceChar(c: char) {
    c == ' '
  }

  /** Length of the leading run of non-whitespace characters. */
  function WordLength(s: string): (n: nat)
    ensures n <= |s|
  {
    if s == [] || IsSpace(s[0]) then 0 else 1 + WordLength(s[1..])
  }

  lemma {:induction false} WordLengthSpec(s: string)
    ensures var n := WordLength(s);
      (forall i :: 0 <= i < n ==> !IsSpace(s[i])) && (n < |s| ==> IsSpace(s[n]))
  {
    if s != [] && !IsSpace(s[0]) {
      WordLengthSpec(s[1..]);
    }
  }

  lemma WordLengthIs(s: string, n: nat)
    requires n <= |s| && (forall i :: 0 <= i < n ==> !IsSpace(s[i])) && (n < |s| ==> IsSpace(s[n]))
    ensures WordLength(s) == n
  {
    if n > 0 {
      WordLengthIs(s[1..], n - 1);
    }
  }

  /** The words `iss >> w` extracts, in order: whitespace is skipped, then a word runs to the next whitespace. */
  function Words(s: string): (ws: seq<string>)
    decreases |s|
  {
    var r := TrimStart(s, IsSpace);
    if r == [] then []
    else
      var n := WordLength(r);
      [r[..n]] + Words(r[n..])
  }

  /** A non-empty run of non-whitespace characters. */
  predicate IsWord(w: string) {
    w != [] && forall i :: 0 <= i < |w| ==> !IsSpace(w[i])
  }

  predicate AllWords(ws: seq<string>) {
    forall k :: 0 <= k < |ws| ==> IsWord(ws[k])
  }

  lemma {:induction false} WordsAreWords(s: string)
    ensures AllWords(Words(s))
    decreases |s|
  {
    var r := TrimStart(s, IsSpace);
    if r != [] {
      var n := WordLength(r);
      WordLengthSpec(r);
      WordsAreWords(r[n..]);
      var ws := Words(s);
      assert ws == [r[..n]] + Words(r[n..]);
      forall k | 0 <= k < |ws| ensures IsWord(ws[k]) {
        if k == 0 {
          forall i | 0 <= i < n ensures !IsSpace(r[..n][i]) {
          }
        } else {
          assert ws[k] == Words(r[n..])[k - 1];
        }
      }
    }
  }

  /** `std::regex_replace(s, std::regex("\\s+"), " ")`: every maximal whitespace run becomes one space. */
  function Collapse(s: string): string
    decreases |s|
  {
    if s == [] then []
    else if IsSpace(s[0]) then [' '] + Collapse(TrimStart(s[1..], IsSpace))
    else [s[0]] + Collapse(s[1..])
  }

  /** `clean_spaces`: collapse, then cut to the span between the first and the last non-space. */
  function CleanSpaces(s: string): string {
    Trimmed(Collapse(s), IsSpaceChar)
  }

  /** A space in front when `s` starts with whitespace. */
  function Lead(s: string): string {
    if s != [] && IsSpace(s[0]) then " " else ""
  }

  /** A space behind when `s` has a word and ends with whitespace. */
  function Trail(s: string): string {
    if Words(s) != [] && IsSpace(s[|s| - 1]) then " " else ""
  }

  /** Collapsing keeps a leading non-whitespace run as it is. */
  lemma {:induction false} CollapseWord(s: string, n: nat)
    requires n <= |s|
    requires forall i :: 0 <= i < n ==> !IsSpace(s[i])
    ensures Collapse(s) == s[..n] + Collapse(s[n..])
  {
    if n > 0 {
      assert s[1..][n - 1..] == s[n..];
      CollapseWord(s[1..], n - 1);
      assert s[..n] == [s[0]] + s[1..][..n - 1];
    }
  }

  /** Whitespace only: no words. */
  lemma NoWordsInSpaces(s: string)
    requires forall i :: 0 <= i < |s| ==> IsSpace(s[i])
    ensures Words(s) == []
  {
    TrimStartSkips(s, IsSpace, |s|);
  }

  /** No words: whitespace only. */
  lemma SpacesWithoutWords(s: string)
    requires Words(s) == []
    ensures forall i :: 0 <= i < |s| ==> IsSpace(s[i])
  {
    TrimStartIsSuffix(s, IsSpace);
  }

  /** Skipping leading whitespace does not change the words. */
  lemma WordsAfterSpaces(s: string)
    ensures Words(TrimStart(s, IsSpace)) == Words(s)
  {
    var r := TrimStart(s, IsSpace);
    assert r == [] || !IsSpace(r[0]);
    assert TrimStart(r, IsSpace) == r;
  }

  /** The join of two or more parts starts with the first part and a separator. */
  lemma JoinCons(sep: char, w: string, ws: seq<string>)
    requires ws != []
    ensures Join(sep, [w] + ws) == w + [sep] + Join(sep, ws)
  {
    assert ([w] + ws)[1..] == ws;
  }

  /** The shape of a collapsed string: an optional space, the words joined by single spaces, an optional space. */
  lemma {:induction false} CollapseShape(s: string)
    ensures Collapse(s) == Lead(s) + Join(' ', Words(s)) + Trail(s)
    decreases |s|
  {
    if s == [] {
    } else if IsSpace(s[0]) {
      CollapseShape(TrimStart(s, IsSpace));
      ShapeAfterSpaces(s);
    } else {
      CollapseShape(s[WordLength(s)..]);
      ShapeAfterWord(s);
    }
  }

  predicate HasShape(s: string) {
    Collapse(s) == Lead(s) + Join(' ', Words(s)) + Trail(s)
  }

  /** Inductive step for a string starting with whitespace. */
  lemma ShapeAfterSpaces(s: string)
    requires s != [] && IsSpace(s[0])
    requires HasShape(TrimStart(s, IsSpace))
    ensures HasShape(s)
  {
    var r := TrimStart(s, IsSpace);
    assert TrimStart(s[1..], IsSpace) == r;
    assert Collapse(s) == [' '] + Collapse(r);
    WordsAfterSpaces(s);
    TrimStartIsSuffix(s, IsSpace);
    assert Lead(r) == "";
    if r != [] {
      assert r[|r| - 1] == s[|s| - 1];
    }
    assert Trail(r) == Trail(s);
    var j, t := Join(' ', Words(s)), Trail(s);
    assert Collapse(r) == j + t;
    assert Collapse(s) == " " + (j + t);
    assert Lead(s) == " ";
    AppendAssoc(" ", j, t);
  }

  /** Inductive step for a string starting with a word. */
  lemma ShapeAfterWord(s: string)
    requires s != [] && !IsSpace(s[0])
    requires HasShape(s[WordLength(s)..])
    ensures HasShape(s)
  {
    var n := WordLength(s);
    WordsOfWordStart(s);
    WordLengthSpec(s);
    CollapseWord(s, n);
    if Words(s[n..]) == [] {
      ShapeLastWord(s, n);
    } else {
      ShapeNextWord(s, n);
    }
  }

  /** A string starting with a word: that word, then the words of the rest. */
  lemma WordsOfWordStart(s: string)
    requires s != [] && !IsSpace(s[0])
    ensures 0 < WordLength(s)
    ensures Words(s) == [s[..WordLength(s)]] + Words(s[WordLength(s)..])
  {
    assert TrimStart(s, IsSpace) == s;
  }

  /** A word followed by more words: the rest starts with whitespace, which collapses to the separating space. */
  lemma ShapeNextWord(s: string, n: nat)
    requires 0 < n == WordLength(s)
    requires Words(s) == [s[..n]] + Words(s[n..])
    requires Words(s[n..]) != []
    requires HasShape(s[n..])
    requires Collapse(s) == s[..n] + Collapse(s[n..])
    requires n < |s| ==> IsSpace(s[n])
    ensures HasShape(s)
  {
    var w := s[..n];
    var rest := s[n..];
    assert rest != [] && IsSpace(rest[0]);
    assert Lead(rest) == " ";
    assert s[|s| - 1] == rest[|rest| - 1];
    assert Trail(s) == Trail(rest);
    JoinCons(' ', w, Words(rest));
    var j := Join(' ', Words(rest));
    var t := Trail(rest);
    Regroup(w, " ", j, t);
  }

  lemma Regroup<T>(a: seq<T>, b: seq<T>, c: seq<T>, d: seq<T>)
    ensures a + (b + c + d) == a + b + c + d
    ensures [] + (a + b + c) + d == a + b + c + d
  {
  }

  /** The last word: what follows it is whitespace only, which collapses to the trailing space. */
  lemma ShapeLastWord(s: string, n: nat)
    requires 0 < n == WordLength(s)
    requires Words(s) == [s[..n]] + Words(s[n..])
    requires Words(s[n..]) == []
    requires HasShape(s[n..])
    requires Collapse(s) == s[..n] + Collapse(s[n..])
    requires !IsSpace(s[n - 1])
    ensures HasShape(s)
  {
    LastWordTrail(s, n);
    assert Join(' ', Words(s)) == s[..n];
    Regroup(s[..n], Lead(s[n..]), [], []);
  }

  /** After the last word, the trailing space is there exactly when something follows the word. */
  lemma LastWordTrail(s: string, n: nat)
    requires 0 < n <= |s|
    requires Words(s) != []
    requires Words(s[n..]) == []
    requires !IsSpace(s[n - 1])
    ensures Trail(s) == Lead(s[n..])
  {
    var rest := s[n..];
    SpacesWithoutWords(rest);
    if rest != [] {
      assert s[|s| - 1] == rest[|rest| - 1];
    }
  }

  /** The join of words is non-empty and starts and ends with a non-whitespace character. */
  lemma {:induction false} JoinEnds(ws: seq<string>)
    requires ws != [] && AllWords(ws)
    ensures var j := Join(' ', ws); j != [] && !IsSpace(j[0]) && !IsSpace(j[|j| - 1])
    decreases |ws|
  {
    if |ws| > 1 {
      assert IsWord(ws[0]);
      assert AllWords(ws[1..]) by {
        forall k | 0 <= k < |ws[1..]| ensures IsWord(ws[1..][k]) {
          assert ws[1..][k] == ws[k + 1];
        }
      }
      JoinEnds(ws[1..]);
    } else {
      assert IsWord(ws[0]);
    }
  }

  /** Trimming spaces off `a + j + b`, where `a` and `b` are at most one space and `j` has no space at its ends, leaves `j`. */
  lemma TrimShape(a: string, j: string, b: string)
    requires a == "" || a == " "
    requires b == "" || b == " "
    requires j != [] && j[0] != ' ' && j[|j| - 1] != ' '
    ensures Trimmed(a + j + b, IsSpaceChar) == j
  {
    AppendAssoc(a, j, b);
    TrimSpacesBefore(a, j + b);
    TrimSpacesAfter(j, b);
  }

  /** Leading spaces before a string that does not start with one are what TrimStart removes. */
  lemma TrimSpacesBefore(a: string, t: string)
    requires forall k :: 0 <= k < |a| ==> a[k] == ' '
    requires t != [] && t[0] != ' '
    ensures TrimStart(a + t, IsSpaceChar) == t
  {
    TrimStartSkips(a + t, IsSpaceChar, |a|);
    assert (a + t)[|a|..] == t;
  }

  /** Trailing spaces after a string that does not end with one are what TrimEnd removes. */
  lemma TrimSpacesAfter(t: string, b: string)
    requires forall k :: 0 <= k < |b| ==> b[k] == ' '
    requires t != [] && t[|t| - 1] != ' '
    ensures TrimEnd(t + b, IsSpaceChar) == t
  {
    TrimEndSkips(t + b, IsSpaceChar, |t|);
    assert (t + b)[..|t|] == t;
  }

  /**
   * `clean_spaces` yields the words of its input joined by single spaces:
   * whitespace runs become one space and the space at either end goes.
   */
  lemma CleanSpacesIsJoin(s: string)
    ensures CleanSpaces(s) == Join(' ', Words(s))
  {
    CollapseShape(s);
    WordsAreWords(s);
    if Words(s) == [] {
      assert Collapse(s) == Lead(s);
    } else {
      JoinEnds(Words(s));
      TrimShape(Lead(s), Join(' ', Words(s)), Trail(s));
    }
  }

  /** A word followed by nothing or by whitespace: it is the first word. */
  lemma WordThen(w: string, rest: string)
    requires IsWord(w)
    requires rest == [] || IsSpace(rest[0])
    ensures Words(w + rest) == [w] + Words(rest)
  {
    var s := w + rest;
    assert s[0] == w[0];
    WordLengthIs(s, |w|);
    WordsOfWordStart(s);
    assert s[..|w|] == w && s[|w|..] == rest;
  }

  /** One leading space does not change the words. */
  lemma WordsAfterSpace(s: string)
    ensures Words([' '] + s) == Words(s)
  {
    assert ([' '] + s)[1..] == s;
    assert TrimStart([' '] + s, IsSpace) == TrimStart(s, IsSpace);
    WordsAfterSpaces(s);
    WordsAfterSpaces([' '] + s);
  }

  /** Splitting a join of words gives the words back. */
  lemma {:induction false} WordsOfJoin(ws: seq<string>)
    requires AllWords(ws)
    ensures Words(Join(' ', ws)) == ws
    decreases |ws|
  {
    if |ws| == 1 {
      assert IsWord(ws[0]);
      WordThen(ws[0], []);
      assert ws[0] + [] == ws[0];
    } else if |ws| > 1 {
      var w := ws[0];
      var rest := ws[1..];
      assert IsWord(w);
      assert AllWords(rest) by {
        forall k | 0 <= k < |rest| ensures IsWord(rest[k]) {
          assert rest[k] == ws[k + 1];
        }
      }
      WordsOfJoin(rest);
      var j := Join(' ', rest);
      WordThen(w, [' '] + j);
      WordsAfterSpace(j);
      AppendAssoc(w, [' '], j);
      assert [w] + rest == ws;
    }
  }

  /** `clean_spaces` keeps the words of its input. */
  lemma CleanSpacesKeepsWords(s: string)
    ensures Words(CleanSpaces(s)) == Words(s)
  {
    CleanSpacesIsJoin(s);
    WordsAreWords(s);
    WordsOfJoin(Words(s));
  }

  /** `clean_spaces` is idempotent. */
  lemma CleanSpacesIdempotent(s: string)
    ensures CleanSpaces(CleanSpaces(s)) == CleanSpaces(s)
  {
    CleanSpacesKeepsWords(s);
    CleanSpacesIsJoin(CleanSpaces(s));
    CleanSpacesIsJoin(s);
  }

  /** Input without a word, whitespace only, cleans to the empty string, and only such input does. */
  lemma CleanSpacesEmpty(s: string)
    ensures CleanSpaces(s) == [] <==> forall i :: 0 <= i < |s| ==> IsSpace(s[i])
  {
    CleanSpacesIsJoin(s);
    WordsAreWords(s);
    if Words(s) == [] {
      SpacesWithoutWords(s);
    } else {
      JoinEnds(Words(s));
      if forall i :: 0 <= i < |s| ==> IsSpace(s[i]) {
        NoWordsInSpaces(s);
      }
    }
  }

  /** Every whitespace character is a plain space followed by a non-whitespace character, if by anything. */
  predicate NoRuns(t: string) {
    forall i :: 0 <= i < |t| && IsSpace(t[i]) ==> t[i] == ' ' && (i + 1 < |t| ==> !IsSpace(t[i + 1]))
  }

  /** What `clean_spaces` produces: single plain spaces between non-whitespace, none at either end. */
  predicate IsClean(t: string) {
    NoRuns(t) && (t != [] ==> !IsSpace(t[0]) && !IsSpace(t[|t| - 1]))
  }

  lemma NoRunsTail(t: string)
    requires t != [] && NoRuns(t)
    ensures NoRuns(t[1..])
  {
    forall i | 0 <= i < |t| - 1 && IsSpace(t[1..][i])
      ensures t[1..][i] == ' ' && (i + 1 < |t| - 1 ==> !IsSpace(t[1..][i + 1]))
    {
      assert t[1..][i] == t[i + 1];
      if i + 1 < |t| - 1 {
        assert t[1..][i + 1] == t[i + 2];
      }
    }
  }

  /** Collapsing leaves a string without whitespace runs as it is. */
  lemma {:induction false} CollapseNoRuns(t: string)
    requires NoRuns(t)
    ensures Collapse(t) == t
    decreases |t|
  {
    if t != [] {
      NoRunsTail(t);
      CollapseNoRuns(t[1..]);
      if IsSpace(t[0]) {
        assert t[1..] == [] || !IsSpace(t[1..][0]);
        assert TrimStart(t[1..], IsSpace) == t[1..];
        assert t[0] == ' ';
      }
      assert [t[0]] + t[1..] == t;
    }
  }

  /** `clean_spaces` leaves a clean string as it is. */
  lemma CleanFixesClean(t: string)
    requires IsClean(t)
    ensures CleanSpaces(t) == t
  {
    CollapseNoRuns(t);
    TrimUnchanged(t, IsSpaceChar);
  }

  /** A word, a space and a clean non-empty string make a clean string. */
  lemma CleanCons(w: string, j: string)
    requires IsWord(w) && IsClean(j) && j != []
    ensures IsClean(w + [' '] + j)
  {
    var x := w + [' '] + j;
    forall i | 0 <= i < |x| && IsSpace(x[i]) ensures x[i] == ' ' && (i + 1 < |x| ==> !IsSpace(x[i + 1])) {
      if i < |w| {
        assert false;
      } else if i > |w| {
        assert x[i] == j[i - |w| - 1];
        if i + 1 < |x| {
          assert x[i + 1] == j[i - |w|];
        }
      } else {
        assert x[i + 1] == j[0];
      }
    }
    assert x[0] == w[0];
    assert x[|x| - 1] == j[|j| - 1];
  }

  /** Words joined by single spaces make a clean string. */
  lemma {:induction false} JoinIsClean(ws: seq<string>)
    requires AllWords(ws)
    ensures IsClean(Join(' ', ws))
    decreases |ws|
  {
    if |ws| == 1 {
      assert IsWord(ws[0]);
    } else if |ws| > 1 {
      assert IsWord(ws[0]);
      assert AllWords(ws[1..]) by {
        forall k | 0 <= k < |ws[1..]| ensures IsWord(ws[1..][k]) {
          assert ws[1..][k] == ws[k + 1];
        }
      }
      JoinIsClean(ws[1..]);
      JoinEnds(ws[1..]);
      CleanCons(ws[0], Join(' ', ws[1..]));
    }
  }

  /** The strings `clean_spaces` leaves unchanged are exactly the clean ones, and it always yields one. */
  lemma CleanSpacesFixesExactlyClean(t: string)
    ensures IsClean(CleanSpaces(t))
    ensures CleanSpaces(t) == t <==> IsClean(t)
  {
    CleanSpacesIsJoin(t);
    WordsAreWords(t);
    JoinIsClean(Words(t));
    if IsClean(t) {
      CleanFixesClean(t);
    }
  }

  // ---- chunk_words ----

  /** `std::max(1, max_words - overlap)`. */
  function Step(maxWords: int, overlap: int): (step: nat)
    ensures step >= 1
    ensures maxWords - overlap >= 1 ==> step == maxWords - overlap
    ensures maxWords - overlap < 1 ==> step == 1
  {
    if maxWords - overlap > 1 then maxWords - overlap else 1
  }

  /** `std::min<int>(words.size(), i + max_words)`. */
  function WindowEnd(n: nat, i: nat, maxWords: int): int {
    if n < i + maxWords then n else i + maxWords
  }

  /** What the `ostringstream` loop builds for the window starting at word `i`: its words separated by one space. */
  function WindowText(ws: seq<string>, i: nat, maxWords: int): string {
    var j := WindowEnd(|ws|, i, maxWords);
    if j <= i then [] else Join(' ', ws[i..j])
  }

  /** The first word of window `k`: the loop adds `step` to `i` once per window. */
  function WindowStart(k: nat, step: nat): nat {
    if k == 0 then 0 else WindowStart(k - 1, step) + step
  }

  /** Window `k` starts at word `k * step`. */
  lemma {:induction false} WindowStartIsProduct(k: nat, step: nat)
    ensures WindowStart(k, step) == k * step
  {
    if k > 0 {
      WindowStartIsProduct(k - 1, step);
      assert (k - 1) * step + step == k * step;
    }
  }

  /** The chunk the loop body makes at window start `i`, before the emptiness test. */
  function ChunkPiece(ws: seq<string>, maxWords: int): nat -> string {
    (i: nat) => CleanSpaces(WindowText(ws, i, maxWords))
  }

  /** The non-empty values among `piece(i)`, `piece(i + step)`, ... for starts below `n`, in order. */
  function Collect(piece: nat -> string, i: nat, n: nat, step: nat): seq<string>
    requires step >= 1
    decreases n - i
  {
    if i >= n then []
    else (if piece(i) == [] then [] else [piece(i)]) + Collect(piece, i + step, n, step)
  }

  /** `chunk_words`: the cleaned, non-empty windows of the text's words. */
  function Chunks(text: string, maxWords: int, overlap: int): seq<string> {
    var ws := Words(text);
    if ws == [] then [] else WordChunks(ws, maxWords, Step(maxWords, overlap))
  }

  /** The chunks of a list of words, windows starting every `step` words. */
  function WordChunks(ws: seq<string>, maxWords: int, step: nat): seq<string>
    requires step >= 1
  {
    Collect(ChunkPiece(ws, maxWords), 0, |ws|, step)
  }

  /** The number of window starts `0, step, 2 * step, ...` below `r`. */
  function NumWindows(r: int, step: nat): nat
    requires step >= 1
    decreases r
  {
    if r <= 0 then 0 else 1 + NumWindows(r - step, step)
  }

  /** The number of windows is the ceiling of `r / step`. */
  lemma {:induction false} NumWindowsIsCeiling(r: nat, step: nat)
    requires step >= 1
    ensures NumWindows(r, step) == (r + step - 1) / step
    decreases r
  {
    if r > step {
      NumWindowsIsCeiling(r - step, step);
      DivStep(r + step - 1, step);
    } else if r > 0 {
      assert NumWindows(r - step, step) == 0;
      DivUnique(r + step - 1, step, 1, r - 1);
    } else {
      DivUnique(step - 1, step, 0, step - 1);
    }
  }

  lemma DivStep(x: nat, step: nat)
    requires step >= 1 && x >= step
    ensures x / step == 1 + (x - step) / step
  {
    var q := (x - step) / step;
    var m := (x - step) % step;
    assert x == (q + 1) * step + m;
    DivUnique(x, step, q + 1, m);
  }

  /** Euclidean division has one quotient. */
  lemma DivUnique(x: int, step: int, q: int, m: int)
    requires step >= 1 && 0 <= m < step && x == q * step + m
    ensures x / step == q
  {
    var d := x / step - q;
    assert d * step == m - x % step;
    ZeroMul(d, step);
  }

  lemma ZeroMul(d: int, step: int)
    requires step >= 1 && -step < d * step < step
    ensures d == 0
  {
  }

  /** When no piece is empty, every start gives exactly one element. */
  lemma {:induction false} CollectCount(piece: nat -> string, i: nat, n: nat, step: nat)
    requires step >= 1
    requires forall j :: i <= j < n ==> piece(j) != []
    ensures |Collect(piece, i, n, step)| == NumWindows(n - i, step)
    decreases n - i
  {
    if i < n {
      CollectCount(piece, i + step, n, step);
    }
  }

  /** When no piece is empty, element `k` is the piece at start `i + k * step`. */
  lemma {:induction false} CollectAt(piece: nat -> string, i: nat, n: nat, step: nat, k: nat)
    requires step >= 1
    requires forall j :: i <= j < n ==> piece(j) != []
    requires k < |Collect(piece, i, n, step)|
    ensures i + WindowStart(k, step) < n
    ensures Collect(piece, i, n, step)[k] == piece(i + WindowStart(k, step))
    decreases k
  {
    if k > 0 {
      CollectAt(piece, i + step, n, step, k - 1);
    }
  }

  /** When every piece is empty, nothing is collected. */
  lemma {:induction false} CollectNone(piece: nat -> string, i: nat, n: nat, step: nat)
    requires step >= 1
    requires forall j :: i <= j < n ==> piece(j) == []
    ensures Collect(piece, i, n, step) == []
    decreases n - i
  {
    if i < n {
      CollectNone(piece, i + step, n, step);
    }
  }

  /** A window of words is clean already, and non-empty when it holds a word; its words are the window's. */
  lemma WindowIsClean(ws: seq<string>, i: nat, maxWords: int)
    requires AllWords(ws) && i < |ws| && maxWords >= 1
    ensures CleanSpaces(WindowText(ws, i, maxWords)) == WindowText(ws, i, maxWords) != []
    ensures Words(WindowText(ws, i, maxWords)) == ws[i..WindowEnd(|ws|, i, maxWords)]
    ensures IsClean(WindowText(ws, i, maxWords))
  {
    var ww := ws[i..WindowEnd(|ws|, i, maxWords)];
    assert AllWords(ww) by {
      forall k | 0 <= k < |ww| ensures IsWord(ww[k]) {
        assert ww[k] == ws[i + k];
      }
    }
    JoinIsClean(ww);
    JoinEnds(ww);
    CleanFixesClean(Join(' ', ww));
    WordsOfJoin(ww);
  }

  /** With at least one word per window, no window start gives an empty piece. */
  lemma PiecesNonEmpty(ws: seq<string>, maxWords: int)
    requires AllWords(ws) && maxWords >= 1
    ensures forall j :: 0 <= j < |ws| ==> ChunkPiece(ws, maxWords)(j) != []
  {
    forall j | 0 <= j < |ws| ensures ChunkPiece(ws, maxWords)(j) != [] {
      WindowIsClean(ws, j, maxWords);
    }
  }

  /** With no word per window, every piece is empty. */
  lemma PiecesEmpty(ws: seq<string>, maxWords: int)
    requires maxWords < 1
    ensures forall j :: 0 <= j < |ws| ==> ChunkPiece(ws, maxWords)(j) == []
  {
    forall j | 0 <= j < |ws| ensures ChunkPiece(ws, maxWords)(j) == [] {
      assert WindowText(ws, j, maxWords) == [];
      assert Collapse([]) == [];
    }
  }

  /** Window starts keep coming while `k * step` is below `r`. */
  lemma {:induction false} NumWindowsAbove(r: int, step: nat, k: nat)
    requires step >= 1 && WindowStart(k, step) < r
    ensures k < NumWindows(r, step)
    decreases k
  {
    if k > 0 {
      NumWindowsAbove(r - step, step, k - 1);
    }
  }

  /** With at least one word per window, every window start gives one chunk. */
  lemma WordChunksCount(ws: seq<string>, maxWords: int, step: nat)
    requires AllWords(ws) && maxWords >= 1 && step >= 1
    ensures |WordChunks(ws, maxWords, step)| == NumWindows(|ws|, step)
  {
    PiecesNonEmpty(ws, maxWords);
    CollectCount(ChunkPiece(ws, maxWords), 0, |ws|, step);
  }

  /** With at least one word per window, chunk `k` is the clean window starting at word `WindowStart(k, step)`. */
  lemma WordChunkAt(ws: seq<string>, maxWords: int, step: nat, k: nat)
    requires AllWords(ws) && maxWords >= 1 && step >= 1
    requires k < |WordChunks(ws, maxWords, step)|
    ensures WindowStart(k, step) < |ws|
    ensures WordChunks(ws, maxWords, step)[k] == CleanSpaces(WindowText(ws, WindowStart(k, step), maxWords))
  {
    PiecesNonEmpty(ws, maxWords);
    CollectAt(ChunkPiece(ws, maxWords), 0, |ws|, step, k);
  }

  /** The number of chunks is the number of window starts below the number of words. */
  lemma ChunkCountWindows(text: string, maxWords: int, overlap: int)
    requires maxWords >= 1
    ensures |Chunks(text, maxWords, overlap)| == NumWindows(|Words(text)|, Step(maxWords, overlap))
  {
    WordsAreWords(text);
    WordChunksCount(Words(text), maxWords, Step(maxWords, overlap));
  }

  /** With at least one word per window there are `ceil(W / step)` chunks for `W` words. */
  lemma ChunkCount(text: string, maxWords: int, overlap: int)
    requires maxWords >= 1
    ensures var step := Step(maxWords, overlap);
      |Chunks(text, maxWords, overlap)| == (|Words(text)| + step - 1) / step
  {
    var w := |Words(text)|;
    var step := Step(maxWords, overlap);
    ChunkCountWindows(text, maxWords, overlap);
    NumWindowsIsCeiling(w, step);
    assert |Chunks(text, maxWords, overlap)| == NumWindows(w, step);
  }

  /** Every window start below the number of words gives a chunk. */
  lemma ChunkExists(text: string, maxWords: int, overlap: int, k: nat)
    requires maxWords >= 1
    requires WindowStart(k, Step(maxWords, overlap)) < |Words(text)|
    ensures k < |Chunks(text, maxWords, overlap)|
  {
    ChunkCountWindows(text, maxWords, overlap);
    NumWindowsAbove(|Words(text)|, Step(maxWords, overlap), k);
  }

  /**
   * With at least one word per window, chunk `k` holds the words from
   * `k * step` up to `k * step + maxWords` (or the last word), separated by
   * single spaces.
   */
  lemma ChunkContents(text: string, maxWords: int, overlap: int, k: nat)
    requires maxWords >= 1
    requires k < |Chunks(text, maxWords, overlap)|
    ensures var ws := Words(text);
      var a := WindowStart(k, Step(maxWords, overlap));
      var e := WindowEnd(|ws|, a, maxWords);
      && a < e <= |ws| && e - a <= maxWords
      && Chunks(text, maxWords, overlap)[k] == Join(' ', ws[a..e])
      && Words(Chunks(text, maxWords, overlap)[k]) == ws[a..e]
      && IsClean(Chunks(text, maxWords, overlap)[k])
  {
    ChunkWindow(text, maxWords, overlap, k);
    WordsAreWords(text);
    WindowIsClean(Words(text), WindowStart(k, Step(maxWords, overlap)), maxWords);
  }

  /** Chunk `k` is window `k`, and its words are the window's words. */
  lemma ChunkWindow(text: string, maxWords: int, overlap: int, k: nat)
    requires maxWords >= 1
    requires k < |Chunks(text, maxWords, overlap)|
    ensures var ws := Words(text);
      var a := WindowStart(k, Step(maxWords, overlap));
      var e := WindowEnd(|ws|, a, maxWords);
      && a < e <= |ws| && e - a <= maxWords
      && Chunks(text, maxWords, overlap)[k] == WindowText(ws, a, maxWords)
      && Words(Chunks(text, maxWords, overlap)[k]) == ws[a..e]
  {
    var ws := Words(text);
    var step := Step(maxWords, overlap);
    WordsAreWords(text);
    WordChunkAt(ws, maxWords, step, k);
    WindowIsClean(ws, WindowStart(k, step), maxWords);
  }

  /** The words of chunk `k` are the words of window `k`. */
  lemma WordsOfChunk(text: string, maxWords: int, overlap: int, k: nat)
    requires maxWords >= 1
    requires k < |Chunks(text, maxWords, overlap)|
    ensures var ws := Words(text);
      var a := WindowStart(k, Step(maxWords, overlap));
      var e := WindowEnd(|ws|, a, maxWords);
      && a < e <= |ws| && e - a <= maxWords
      && Words(Chunks(text, maxWords, overlap)[k]) == ws[a..e]
  {
    ChunkWindow(text, maxWords, overlap, k);
  }

  /** With no word per window every piece is empty, and there are no chunks. */
  lemma NoWindowNoChunks(text: string, maxWords: int, overlap: int)
    requires maxWords < 1
    ensures Chunks(text, maxWords, overlap) == []
  {
    var ws := Words(text);
    PiecesEmpty(ws, maxWords);
    CollectNone(ChunkPiece(ws, maxWords), 0, |ws|, Step(maxWords, overlap));
    assert WordChunks(ws, maxWords, Step(maxWords, overlap)) == [];
  }

  /** Every chunk is non-empty and clean. */
  lemma ChunksAreClean(text: string, maxWords: int, overlap: int, k: nat)
    requires k < |Chunks(text, maxWords, overlap)|
    ensures Chunks(text, maxWords, overlap)[k] != []
    ensures IsClean(Chunks(text, maxWords, overlap)[k])
  {
    if maxWords < 1 {
      NoWindowNoChunks(text, maxWords, overlap);
    } else {
      ChunkContents(text, maxWords, overlap, k);
    }
  }

  /**
   * Consecutive chunks overlap by `overlap` words: when chunk `k` is a full
   * window, its last `overlap` words are the first `overlap` words of chunk
   * `k + 1`.
   */
  lemma ChunksOverlap(text: string, maxWords: int, overlap: int, k: nat)
    requires 0 <= overlap < maxWords
    requires k + 1 < |Chunks(text, maxWords, overlap)|
    requires WindowStart(k, Step(maxWords, overlap)) + maxWords <= |Words(text)|
    ensures |Words(Chunks(text, maxWords, overlap)[k])| == maxWords
    ensures overlap <= |Words(Chunks(text, maxWords, overlap)[k + 1])|
    ensures Words(Chunks(text, maxWords, overlap)[k])[maxWords - overlap..]
         == Words(Chunks(text, maxWords, overlap)[k + 1])[..overlap]
  {
    var ws := Words(text);
    var step := Step(maxWords, overlap);
    WordsOfChunk(text, maxWords, overlap, k);
    WordsOfChunk(text, maxWords, overlap, k + 1);
    var a := WindowStart(k, step);
    var b := WindowStart(k + 1, step);
    SliceOverlap(ws, a, b, maxWords, overlap, WindowEnd(|ws|, b, maxWords));
  }

  /** Two slices of the same sequence that share `o` elements. */
  lemma SliceOverlap<T>(xs: seq<T>, a: nat, b: nat, m: nat, o: nat, e: nat)
    requires o <= m && a + m <= |xs| && b == a + m - o && b + o <= e <= |xs|
    ensures xs[a..a + m][m - o..] == xs[b..e][..o]
  {
  }

  /** With a non-negative overlap every word lands in a chunk: word `w` is word `w % step` of chunk `w / step`. */
  lemma ChunksCover(text: string, maxWords: int, overlap: int, w: nat)
    requires maxWords >= 1 && overlap >= 0
    requires w < |Words(text)|
    ensures var step := Step(maxWords, overlap);
      && w / step < |Chunks(text, maxWords, overlap)|
      && w % step < |Words(Chunks(text, maxWords, overlap)[w / step])|
      && Words(Chunks(text, maxWords, overlap)[w / step])[w % step] == Words(text)[w]
  {
    var step := Step(maxWords, overlap);
    DivMod(w, step);
    CoverAt(text, maxWords, overlap, w / step, w % step);
  }

  lemma DivMod(w: nat, step: nat)
    requires step >= 1
    ensures WindowStart(w / step, step) + w % step == w && w % step < step
  {
    WindowStartIsProduct(w / step, step);
  }

  /** Word `r` of window `k`, for `r` below the step, is in chunk `k`. */
  lemma CoverAt(text: string, maxWords: int, overlap: int, k: nat, r: nat)
    requires maxWords >= 1 && overlap >= 0
    requires r < Step(maxWords, overlap)
    requires WindowStart(k, Step(maxWords, overlap)) + r < |Words(text)|
    ensures k < |Chunks(text, maxWords, overlap)|
    ensures r < |Words(Chunks(text, maxWords, overlap)[k])|
    ensures Words(Chunks(text, maxWords, overlap)[k])[r] == Words(text)[WindowStart(k, Step(maxWords, overlap)) + r]
  {
    ChunkExists(text, maxWords, overlap, k);
    WordsOfChunk(text, maxWords, overlap, k);
    var ws := Words(text);
    var a := WindowStart(k, Step(maxWords, overlap));
    var e := WindowEnd(|ws|, a, maxWords);
    assert a + r < e;
    SliceAt(ws, a, e, r);
  }

  lemma SliceAt<T>(xs: seq<T>, a: nat, e: nat, r: nat)
    requires a + r < e <= |xs|
    ensures xs[a..e][r] == xs[a + r]
  {
  }


  /** The chunks depend only on the words, so cleaning the text first does not change them. */
  lemma ChunksOfCleaned(text: string, maxWords: int, overlap: int)
    ensures Chunks(CleanSpaces(text), maxWords, overlap) == Chunks(text, maxWords, overlap)
  {
    CleanSpacesKeepsWords(text);
  }

  /**
   * Text with a word gives a chunk; text of no more words than one window
   * and one step gives exactly one chunk, the cleaned text itself.
   */
  lemma ShortTextOneChunk(text: string, maxWords: int, overlap: int)
    requires maxWords >= 1 && Words(text) != []
    ensures Chunks(text, maxWords, overlap) != []
    ensures |Words(text)| <= maxWords && |Words(text)| <= Step(maxWords, overlap) ==>
      Chunks(text, maxWords, overlap) == [CleanSpaces(text)]
  {
    ChunkExists(text, maxWords, overlap, 0);
    var n := |Words(text)|;
    var step := Step(maxWords, overlap);
    if n <= maxWords && n <= step {
      ChunkCountWindows(text, maxWords, overlap);
      assert NumWindows(n - step, step) == 0;
      ChunkContents(text, maxWords, overlap, 0);
      assert Words(text)[0..n] == Words(text);
      CleanSpacesIsJoin(text);
    }
  }

  // ---- the loops of chunk_words ----

  /** One leading whitespace character does not change the words. */
  lemma WordsSkipSpace(s: string)
    requires s != [] && IsSpace(s[0])
    ensures Words(s) == Words(s[1..])
  {
    assert TrimStart(s, IsSpace) == TrimStart(s[1..], IsSpace);
  }

  /** The end of the word starting at `p`: the first whitespace character after it, or the end of the text. */
  method ScanWord(text: string, p: nat) returns (q: nat)
    requires p <= |text|
    ensures q == p + WordLength(text[p..])
  {
    q := p;
    while q < |text| && !IsSpace(text[q])
      invariant p <= q <= |text|
      invariant forall k :: p <= k < q ==> !IsSpace(text[k])
    {
      q := q + 1;
    }
    WordLengthIs(text[p..], q - p);
  }

  /** `while (iss >> w) words.push_back(w)`: the words of the text, in order. */
  method SplitWords(text: string) returns (words: seq<string>)
    ensures words == Words(text)
  {
    words := [];
    var p := 0;
    while p < |text|
      invariant 0 <= p <= |text|
      invariant Words(text) == words + Words(text[p..])
      decreases |text| - p
    {
      if IsSpace(text[p]) {
        WordsSkipSpace(text[p..]);
        assert text[p..][1..] == text[p + 1..];
        p := p + 1;
      } else {
        var q := ScanWord(text, p);
        WordsOfWordStart(text[p..]);
        assert text[p..][..q - p] == text[p..q] && text[p..][q - p..] == text[q..];
        AppendAssoc(words, [text[p..q]], Words(text[q..]));
        words := words + [text[p..q]];
        p := q;
      }
    }
    assert words + [] == words;
  }

  /** The `ostringstream` loop: words `i` to `j - 1`, a space before each but the first. */
  method JoinRange(words: seq<string>, i: nat, j: int) returns (s: string)
    requires i <= |words| && j <= |words|
    ensures s == if j <= i then [] else Join(' ', words[i..j])
  {
    s := [];
    var k := i;
    while k < j
      invariant i <= k && (k <= j || k == i)
      invariant s == if k == i then [] else Join(' ', words[i..k])
    {
      if k > i {
        JoinSnoc(' ', words[i..k], words[k]);
        assert words[i..k + 1] == words[i..k] + [words[k]];
        s := s + [' '];
      } else {
        assert words[i..k + 1] == [words[k]];
      }
      s := s + words[k];
      k := k + 1;
    }
  }

  /** One window start: its piece, when not empty, is appended, and collecting goes on from the next start. */
  lemma CollectLoopStep(piece: nat -> string, i: nat, n: nat, step: nat, out: seq<string>, c: string, total: seq<string>)
    requires step >= 1 && i < n && c == piece(i)
    requires total == out + Collect(piece, i, n, step)
    ensures total == (if c == [] then out else out + [c]) + Collect(piece, i + step, n, step)
  {
    var rest := Collect(piece, i + step, n, step);
    if c == [] {
      assert Collect(piece, i, n, step) == [] + rest;
    } else {
      AppendAssoc(out, [c], rest);
    }
  }

  /** `chunk_words`. */
  method ChunkWords(text: string, maxWords: int, overlap: int) returns (out: seq<string>)
    ensures out == Chunks(text, maxWords, overlap)
  {
    var words := SplitWords(text);
    if words == [] {
      return [];
    }
    var step: nat := if maxWords - overlap > 1 then maxWords - overlap else 1;
    out := WindowLoop(words, maxWords, step, ChunkPiece(words, maxWords));
  }

  /** The `for` loop of `chunk_words` over the window starts `0, step, 2 * step, ...`. */
  method WindowLoop(words: seq<string>, maxWords: int, step: nat, ghost piece: nat -> string) returns (out: seq<string>)
    requires step >= 1
    requires forall j :: 0 <= j < |words| ==> PieceIs(piece, words, maxWords, j)
    ensures out == Collect(piece, 0, |words|, step)
  {
    out := [];
    var i := 0;
    while i < |words|
      invariant 0 <= i
      invariant Collect(piece, 0, |words|, step) == out + Collect(piece, i, |words|, step)
      decreases |words| - i
    {
      var c := WindowChunk(words, i, maxWords, piece);
      CollectLoopStep(piece, i, |words|, step, out, c, Collect(piece, 0, |words|, step));
      if c != [] {
        out := out + [c];
      }
      i := i + step;
    }
    assert out + [] == out;
  }

  predicate PieceIs(piece: nat -> string, words: seq<string>, maxWords: int, j: nat) {
    piece(j) == CleanSpaces(WindowText(words, j, maxWords))
  }

  /** The body of that loop: join the window's words and clean the result. */
  method WindowChunk(words: seq<string>, i: nat, maxWords: int, ghost piece: nat -> string) returns (c: string)
    requires i < |words| && PieceIs(piece, words, maxWords, i)
    ensures c == piece(i)
  {
    var j := if |words| < i + maxWords then |words| else i + maxWords;
    var s := JoinRange(words, i, j);
    c := CleanSpaces(s);
  }
}
