/**
 * Retrieval over the loaded index: the candidates `rank` collects, the
 * in-place sort by descending score, and the greedy context assembly of
 * `build_context` (src/rag_client.cpp).
 */
module Retriever {
  import opened RagTypes

  /** `rank` drops a row only when the threshold is enabled (non-negative) and the score is below it. */
  predicate Keep(score: real, minScoreKeep: real) {
    !(minScoreKeep >= 0.0 && score < minScoreKeep)
  }

  /** The items `rank` pushes, in row order, before sorting. */
  function Candidates(items: seq<IndexRow>, q: seq<real>, minScoreKeep: real): (c: seq<RankItem>)
    ensures |c| <= |items|
  {
    if items == [] then []
    else
      var rest := Candidates(items[..|items| - 1], q, minScoreKeep);
      var s := Dot(q, items[|items| - 1].vec);
      if Keep(s, minScoreKeep) then rest + [RankItem(s, |items| - 1)] else rest
  }

  /** Every item names a row of the index, carries that row's score, and passes the threshold. */
  predicate Scored(items: seq<IndexRow>, q: seq<real>, minScoreKeep: real, r: seq<RankItem>) {
    forall k :: 0 <= k < |r| ==>
      && 0 <= r[k].rowIndex < |items|
      && r[k].score == Dot(q, items[r[k].rowIndex].vec)
      && Keep(r[k].score, minScoreKeep)
  }

  /** No row index occurs twice. */
  predicate DistinctRows(r: seq<RankItem>) {
    forall a, b :: 0 <= a < b < |r| ==> r[a].rowIndex != r[b].rowIndex
  }

  /** Row `i` occurs somewhere in `r`. */
  predicate HasRow(r: seq<RankItem>, i: int) {
    exists k :: 0 <= k < |r| && r[k].rowIndex == i
  }

  /** Scores never increase along the sequence. */
  predicate SortedByScore(r: seq<RankItem>) {
    forall a, b :: 0 <= a < b < |r| ==> r[a].score >= r[b].score
  }

  /** The candidates are scored rows, listed by strictly increasing row index. */
  lemma {:induction false} CandidatesScored(items: seq<IndexRow>, q: seq<real>, minScoreKeep: real)
    ensures var c := Candidates(items, q, minScoreKeep);
      && Scored(items, q, minScoreKeep, c)
      && (forall a, b :: 0 <= a < b < |c| ==> c[a].rowIndex < c[b].rowIndex)
  {
    if items != [] {
      var init := items[..|items| - 1];
      CandidatesScored(init, q, minScoreKeep);
      var rest := Candidates(init, q, minScoreKeep);
      forall k | 0 <= k < |rest| ensures items[rest[k].rowIndex] == init[rest[k].rowIndex] {
      }
    }
  }

  /** A row is a candidate exactly when its score passes the threshold. */
  lemma {:induction false} CandidatesComplete(items: seq<IndexRow>, q: seq<real>, minScoreKeep: real, i: int)
    requires 0 <= i < |items|
    ensures HasRow(Candidates(items, q, minScoreKeep), i) <==> Keep(Dot(q, items[i].vec), minScoreKeep)
  {
    CandidatesScored(items, q, minScoreKeep);
    var c := Candidates(items, q, minScoreKeep);
    var init := items[..|items| - 1];
    var rest := Candidates(init, q, minScoreKeep);
    if i < |items| - 1 {
      CandidatesComplete(init, q, minScoreKeep, i);
      CandidatesScored(init, q, minScoreKeep);
      assert init[i] == items[i];
      if HasRow(rest, i) {
        var k :| 0 <= k < |rest| && rest[k].rowIndex == i;
        assert c[k] == rest[k];
      }
      if HasRow(c, i) {
        var k :| 0 <= k < |c| && c[k].rowIndex == i;
        assert k < |rest| && rest[k] == c[k];
      }
    } else {
      if Keep(Dot(q, items[i].vec), minScoreKeep) {
        assert c[|c| - 1].rowIndex == i;
      }
    }
  }

  /** Two equal elements at different positions count at least twice. */
  lemma CountTwice<T>(s: seq<T>, a: nat, b: nat)
    requires a < b < |s| && s[a] == s[b]
    ensures multiset(s)[s[a]] >= 2
  {
    assert s == s[..b] + [s[b]] + s[b + 1..];
    assert s[..b][a] == s[a];
    assert s[a] in multiset(s[..b]);
  }

  /** In a sequence without repeated row indices each item occurs at most once. */
  lemma {:induction false} CountOnce(r: seq<RankItem>, x: RankItem)
    requires DistinctRows(r)
    ensures multiset(r)[x] <= 1
  {
    if r != [] {
      var rest := r[1..];
      assert r == [r[0]] + rest;
      assert DistinctRows(rest) by {
        forall a, b | 0 <= a < b < |rest| ensures rest[a].rowIndex != rest[b].rowIndex {
          assert rest[a] == r[a + 1] && rest[b] == r[b + 1];
        }
      }
      CountOnce(rest, x);
      if r[0] == x {
        forall k | 0 <= k < |rest| ensures rest[k] != x {
          assert rest[k] == r[k + 1];
        }
        assert x !in multiset(rest);
      }
    }
  }

  /** Any reordering of the candidates keeps every property `rank` promises except an order. */
  lemma PermutedCandidates(items: seq<IndexRow>, q: seq<real>, minScoreKeep: real, r: seq<RankItem>)
    requires multiset(r) == multiset(Candidates(items, q, minScoreKeep))
    ensures Scored(items, q, minScoreKeep, r)
    ensures DistinctRows(r)
    ensures forall i :: 0 <= i < |items| ==> (HasRow(r, i) <==> Keep(Dot(q, items[i].vec), minScoreKeep))
  {
    var c := Candidates(items, q, minScoreKeep);
    CandidatesScored(items, q, minScoreKeep);
    forall k | 0 <= k < |r|
      ensures 0 <= r[k].rowIndex < |items|
      ensures r[k].score == Dot(q, items[r[k].rowIndex].vec)
      ensures Keep(r[k].score, minScoreKeep)
    {
      assert r[k] in multiset(c);
      var m :| 0 <= m < |c| && c[m] == r[k];
    }
    forall a, b | 0 <= a < b < |r| ensures r[a].rowIndex != r[b].rowIndex {
      if r[a].rowIndex == r[b].rowIndex {
        assert r[a] == r[b];
        CountTwice(r, a, b);
        assert DistinctRows(c);
        CountOnce(c, r[a]);
        assert false;
      }
    }
    forall i | 0 <= i < |items| ensures HasRow(r, i) <==> Keep(Dot(q, items[i].vec), minScoreKeep) {
      CandidatesComplete(items, q, minScoreKeep, i);
      if HasRow(r, i) {
        var k :| 0 <= k < |r| && r[k].rowIndex == i;
      }
      if HasRow(c, i) {
        var m :| 0 <= m < |c| && c[m].rowIndex == i;
        assert c[m] in multiset(r);
        var k :| 0 <= k < |r| && r[k] == c[m];
      }
    }
  }

  /** With the default threshold (negative) every row of the index is ranked. */
  lemma {:induction false} NegativeThresholdKeepsAll(items: seq<IndexRow>, q: seq<real>, minScoreKeep: real)
    requires minScoreKeep < 0.0
    ensures |Candidates(items, q, minScoreKeep)| == |items|
  {
    if items != [] {
      NegativeThresholdKeepsAll(items[..|items| - 1], q, minScoreKeep);
    }
  }

  /**
   * The insertion sort standing in for `std::sort` with `a.score > b.score`:
   * descending scores and a permutation. Like `std::sort`, nothing is
   * promised about the order of equal scores.
   */
  method SortByScore(a: array<RankItem>)
    modifies a
    ensures SortedByScore(a[..])
    ensures multiset(a[..]) == multiset(old(a[..]))
  {
    var i := 0;
    while i < a.Length
      invariant 0 <= i <= a.Length
      invariant SortedByScore(a[..i])
      invariant multiset(a[..]) == multiset(old(a[..]))
    {
      InsertAt(a, i);
      i := i + 1;
    }
  }

  /** Moves `a[i]` left past every smaller score, leaving `a[..i + 1]` sorted. */
  method InsertAt(a: array<RankItem>, i: nat)
    requires i < a.Length
    requires SortedByScore(a[..i])
    modifies a
    ensures SortedByScore(a[..i + 1])
    ensures multiset(a[..]) == multiset(old(a[..]))
  {
    var j := i;
    while j > 0 && a[j - 1].score < a[j].score
      invariant 0 <= j <= i
      invariant multiset(a[..]) == multiset(old(a[..]))
      invariant forall x, y :: 0 <= x < y <= i && x != j && y != j ==> a[x].score >= a[y].score
      invariant forall y :: j < y <= i ==> a[j].score > a[y].score
    {
      Swap(a, j);
      j := j - 1;
    }
  }

  /** Exchanges `a[j - 1]` and `a[j]`. */
  method Swap(a: array<RankItem>, j: nat)
    requires 0 < j < a.Length
    modifies a
    ensures a[..] == old(a[..])[j - 1 := old(a[j])][j := old(a[j - 1])]
    ensures multiset(a[..]) == multiset(old(a[..]))
  {
    a[j - 1], a[j] := a[j], a[j - 1];
  }

  /** Every item names a row of the index. */
  predicate ValidRows(items: seq<IndexRow>, r: seq<RankItem>) {
    forall k :: 0 <= k < |r| ==> 0 <= r[k].rowIndex < |items|
  }

  /** The text `build_context` appends for one row. */
  function Entry(row: IndexRow): string {
    "- [" + row.filename + "] " + row.text + "\n\n"
  }

  /** The entries of the given ranked items, in order. */
  function ContextText(items: seq<IndexRow>, r: seq<RankItem>): string
    requires ValidRows(items, r)
  {
    if r == [] then [] else ContextText(items, r[..|r| - 1]) + Entry(items[r[|r| - 1].rowIndex])
  }

  /**
   * `n` is where `build_context` stops on `ranked`: at most `topK` entries
   * (none when `topK` is not positive), within the budget once two or more
   * entries are in, and it stops early only at the `topK` limit or at an
   * entry that would take a non-empty context past the budget.
   */
  predicate GreedyCut(items: seq<IndexRow>, ranked: seq<RankItem>, topK: int, budget: nat, n: nat)
    requires ValidRows(items, ranked)
  {
    && n <= |ranked|
    && (n == 0 || n <= topK)
    && (n >= 2 ==> |ContextText(items, ranked[..n])| <= budget)
    && (n < |ranked| ==> n >= topK || (n >= 1 && |ContextText(items, ranked[..n + 1])| > budget))
  }

  /** A longer prefix never gives a shorter context. */
  lemma {:induction false} ContextTextGrows(items: seq<IndexRow>, r: seq<RankItem>, m: nat, n: nat)
    requires ValidRows(items, r)
    requires m <= n <= |r|
    ensures |ContextText(items, r[..m])| <= |ContextText(items, r[..n])|
    decreases n - m
  {
    if m < n {
      ContextTextGrows(items, r, m, n - 1);
      assert r[..n][..n - 1] == r[..n - 1];
    }
  }

  /** The stopping point is unique: the greedy loop has one outcome. */
  lemma GreedyCutUnique(items: seq<IndexRow>, ranked: seq<RankItem>, topK: int, budget: nat, n1: nat, n2: nat)
    requires ValidRows(items, ranked)
    requires GreedyCut(items, ranked, topK, budget, n1) && GreedyCut(items, ranked, topK, budget, n2)
    ensures n1 == n2
  {
    if n1 < n2 {
      ContextTextGrows(items, ranked, n1 + 1, n2);
      assert false;
    } else if n2 < n1 {
      ContextTextGrows(items, ranked, n2 + 1, n1);
      assert false;
    }
  }

  /** At least one entry goes in when there is a ranked item and `topK` is positive, even one longer than the budget. */
  lemma GreedyCutNonEmpty(items: seq<IndexRow>, ranked: seq<RankItem>, topK: int, budget: nat, n: nat)
    requires ValidRows(items, ranked)
    requires GreedyCut(items, ranked, topK, budget, n)
    ensures ranked != [] && topK >= 1 ==> n >= 1
    ensures topK <= 0 ==> n == 0
  {
  }

  /** The context fits the budget unless it is a single over-long entry. */
  lemma GreedyCutWithinBudget(items: seq<IndexRow>, ranked: seq<RankItem>, topK: int, budget: nat, n: nat)
    requires ValidRows(items, ranked)
    requires GreedyCut(items, ranked, topK, budget, n)
    ensures |ContextText(items, ranked[..n])| <= budget || (n == 1 && ContextText(items, ranked[..n]) == Entry(items[ranked[0].rowIndex]))
  {
    if n == 1 {
      assert ranked[..1][..0] == [];
    }
  }
}
