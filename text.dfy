/**
 * Character classes, trimming and joining shared by the index reader, the
 * index writer and the chunker. A `char` stands for one byte of the UTF-8
 * text the program handles.
 */
module Text {

  /** `isspace` in the "C" locale; also what `\s` matches in a `std::regex` over `char`. */
  predicate IsSpace(c: char) {
    c == ' ' || c == '\t' || c == '\n' || c == '\r' || c == '\U{B}' || c == '\U{C}'
  }

  /** A character that `trim` removes: its unsigned code is at most 0x20. */
  predicate IsBlank(c: char) {
    c <= ' '
  }

  /** Drops the leading characters satisfying `p`. */
  function TrimStart(s: string, p: char -> bool): (t: string)
    ensures |t| <= |s|
    ensures t == [] || !p(t[0])
  {
    if s != [] && p(s[0]) then TrimStart(s[1..], p) else s
  }

  /** Drops the trailing characters satisfying `p`. */
  function TrimEnd(s: string, p: char -> bool): (t: string)
    ensures |t| <= |s|
    ensures t == [] || !p(t[|t| - 1])
  {
    if s != [] && p(s[|s| - 1]) then TrimEnd(s[..|s| - 1], p) else s
  }

  /** Dropping a prefix of `p`-characters first does not change TrimStart. */
  lemma {:induction false} TrimStartSkips(s: string, p: char -> bool, n: nat)
    requires n <= |s|
    requires forall k :: 0 <= k < n ==> p(s[k])
    ensures TrimStart(s, p) == TrimStart(s[n..], p)
  {
    if n > 0 {
      assert s[1..][n - 1..] == s[n..];
      TrimStartSkips(s[1..], p, n - 1);
    }
  }

  /** Dropping a suffix of `p`-characters first does not change TrimEnd. */
  lemma {:induction false} TrimEndSkips(s: string, p: char -> bool, n: nat)
    requires n <= |s|
    requires forall k :: n <= k < |s| ==> p(s[k])
    ensures TrimEnd(s, p) == TrimEnd(s[..n], p)
    decreases |s| - n
  {
    if n < |s| {
      var t := s[..|s| - 1];
      assert p(s[|s| - 1]);
      assert t[..n] == s[..n];
      assert forall k :: n <= k < |t| ==> t[k] == s[k];
      TrimEndSkips(t, p, n);
    } else {
      assert s[..n] == s;
    }
  }

  /** TrimStart drops a prefix made of `p`-characters. */
  lemma {:induction false} TrimStartIsSuffix(s: string, p: char -> bool)
    ensures var t := TrimStart(s, p);
      t == s[|s| - |t|..] && forall i :: 0 <= i < |s| - |t| ==> p(s[i])
  {
    if s != [] && p(s[0]) {
      TrimStartIsSuffix(s[1..], p);
    }
  }

  /** TrimEnd drops a suffix made of `p`-characters. */
  lemma {:induction false} TrimEndIsPrefix(s: string, p: char -> bool)
    ensures var t := TrimEnd(s, p);
      t == s[..|t|] && forall i :: |t| <= i < |s| ==> p(s[i])
  {
    if s != [] && p(s[|s| - 1]) {
      TrimEndIsPrefix(s[..|s| - 1], p);
    }
  }

  /** Drops the leading and the trailing characters satisfying `p`. */
  function Trimmed(s: string, p: char -> bool): string {
    TrimEnd(TrimStart(s, p), p)
  }

  /**
   * Trimming removes exactly a run of `p`-characters at each end: the result
   * is the slice `s[i..j]`, everything outside it satisfies `p`, and the
   * result neither starts nor ends with such a character.
   */
  lemma TrimIsMaximalSlice(s: string, p: char -> bool)
    ensures var t := Trimmed(s, p);
      var i := |s| - |TrimStart(s, p)|;
      && 0 <= i <= i + |t| <= |s|
      && t == s[i..i + |t|]
      && (forall k :: 0 <= k < i ==> p(s[k]))
      && (forall k :: i + |t| <= k < |s| ==> p(s[k]))
      && (t != [] ==> !p(t[0]) && !p(t[|t| - 1]))
  {
    var u := TrimStart(s, p);
    var t := TrimEnd(u, p);
    var i := |s| - |u|;
    TrimStartIsSuffix(s, p);
    TrimEndIsPrefix(u, p);
    assert t == u[..|t|];
    assert u == s[i..];
    forall k | i + |t| <= k < |s| ensures p(s[k]) {
      assert s[k] == u[k - i];
    }
    if t != [] {
      assert t[0] == u[0];
    }
  }

  /** A slice without `p`-characters at its ends is left as it is. */
  lemma TrimUnchanged(s: string, p: char -> bool)
    requires s == [] || (!p(s[0]) && !p(s[|s| - 1]))
    ensures Trimmed(s, p) == s
  {
  }

  /** Trimming twice is trimming once. */
  lemma TrimIdempotent(s: string, p: char -> bool)
    ensures Trimmed(Trimmed(s, p), p) == Trimmed(s, p)
  {
    TrimIsMaximalSlice(s, p);
    TrimUnchanged(Trimmed(s, p), p);
  }

  /** Right-nested join: `parts[0] + sep + parts[1] + ... + parts[n-1]`. */
  function Join(sep: char, parts: seq<string>): string
  {
    if |parts| == 0 then []
    else if |parts| == 1 then parts[0]
    else parts[0] + [sep] + Join(sep, parts[1..])
  }

  /** Appending a part to a non-empty join adds one separator and the part. */
  lemma {:induction false} JoinSnoc(sep: char, parts: seq<string>, last: string)
    requires parts != []
    ensures Join(sep, parts + [last]) == Join(sep, parts) + [sep] + last
    decreases |parts|
  {
    if |parts| == 1 {
      assert (parts + [last])[1..] == [last];
    } else {
      assert (parts + [last])[1..] == parts[1..] + [last];
      JoinSnoc(sep, parts[1..], last);
    }
  }

  /** Every character of a join is a separator or a character of some part. */
  lemma {:induction false} JoinChars(sep: char, parts: seq<string>, q: char -> bool)
    requires q(sep)
    requires forall k, i :: 0 <= k < |parts| && 0 <= i < |parts[k]| ==> q(parts[k][i])
    ensures forall i :: 0 <= i < |Join(sep, parts)| ==> q(Join(sep, parts)[i])
    decreases |parts|
  {
    if |parts| >= 2 {
      JoinChars(sep, parts[1..], q);
      var j := Join(sep, parts[1..]);
      forall i | 0 <= i < |Join(sep, parts)| ensures q(Join(sep, parts)[i]) {
        if i < |parts[0]| {
          assert Join(sep, parts)[i] == parts[0][i];
        } else if i > |parts[0]| {
          assert Join(sep, parts)[i] == j[i - |parts[0]| - 1];
        }
      }
    } else if |parts| == 1 {
      assert Join(sep, parts) == parts[0];
    }
  }

  /** Regrouping a concatenation of three sequences. */
  lemma AppendAssoc<T>(a: seq<T>, b: seq<T>, c: seq<T>)
    ensures a + (b + c) == (a + b) + c
  {
  }

  /** Concatenation in order, as repeated `+=` builds it. */
  function Concat(parts: seq<string>): string
  {
    if parts == [] then [] else Concat(parts[..|parts| - 1]) + parts[|parts| - 1]
  }

  /** Position of the first `c`, or the length when there is none. */
  function IndexOf(s: string, c: char): (n: nat)
    ensures n <= |s|
  {
    if s == [] || s[0] == c then 0 else 1 + IndexOf(s[1..], c)
  }

  /** Nothing before the position holds `c`, and the position holds `c` unless it is the end. */
  lemma {:induction false} IndexOfSpec(s: string, c: char)
    ensures var n := IndexOf(s, c);
      (forall i :: 0 <= i < n ==> s[i] != c) && (n < |s| ==> s[n] == c)
  {
    if s != [] && s[0] != c {
      IndexOfSpec(s[1..], c);
    }
  }

  /** A position with no `c` before it that holds `c`, or is the end, is the first `c`. */
  lemma IndexOfIs(s: string, c: char, n: nat)
    requires n <= |s| && (forall i :: 0 <= i < n ==> s[i] != c) && (n < |s| ==> s[n] == c)
    ensures IndexOf(s, c) == n
  {
    if n > 0 {
      IndexOfIs(s[1..], c, n - 1);
    }
  }
}
