/**
 * The records, the configuration and the similarity score declared in
 * include/rag_client.h. Floating-point values are modelled as reals.
 */
module RagTypes {

  /** One record of the loaded index (`rag_index_row`). */
  datatype IndexRow = IndexRow(id: int, vec: seq<real>, filename: string, text: string)

  /** A score paired with the position of its row in the loaded index (`rag_rank_item`). */
  datatype RankItem = RankItem(score: real, rowIndex: int)

  /** The retrieval part of `rag_config`; paths and model settings only feed loading, which is not part of this model. */
  datatype RagConfig = RagConfig(
    topK: int,
    contextBudget: nat,
    minScoreKeep: real,
    systemPrompt: string,
    streamTokens: bool)

  /** The system prompt `rag_config` starts with (carried as an opaque constant). */
  const DefaultSystemPrompt: string :=
    "คุณคือผู้ช่วย RAG ภาษาไทย ตอบเป็นภาษาไทยเท่านั้น ตอบจากบริบทเท่านั้น ถ้าไม่มีข้อมูลให้บอกว่าไม่ทราบ"

  /** A default-constructed `rag_config`. */
  function DefaultConfig(): (c: RagConfig)
    ensures c.topK == 8 && c.contextBudget == 3500 && c.minScoreKeep == -1.0
    ensures c.minScoreKeep < 0.0 && c.streamTokens
  {
    RagConfig(8, 3500, -1.0, DefaultSystemPrompt, true)
  }

  /** Sum of `a[i] * b[i]` for `i < n`. */
  function DotUpTo(a: seq<real>, b: seq<real>, n: nat): real
    requires n <= |a| && n <= |b|
  {
    if n == 0 then 0.0 else DotUpTo(a, b, n - 1) + a[n - 1] * b[n - 1]
  }

  function Min(x: nat, y: nat): nat {
    if x <= y then x else y
  }

  /** The score: the dot product over the common length of the two vectors. */
  function Dot(a: seq<real>, b: seq<real>): real {
    DotUpTo(a, b, Min(|a|, |b|))
  }

  /** `dot`: a loop accumulating the products over `min(|a|, |b|)` positions. */
  method DotProduct(a: seq<real>, b: seq<real>) returns (s: real)
    ensures s == Dot(a, b)
  {
    var n := if |a| < |b| then |a| else |b|;
    s := 0.0;
    var i := 0;
    while i < n
      invariant 0 <= i <= n
      invariant s == DotUpTo(a, b, i)
    {
      s := s + a[i] * b[i];
      i := i + 1;
    }
  }

  /** The first n products only look at the first n elements of each vector. */
  lemma {:induction false} DotUpToPrefix(a: seq<real>, b: seq<real>, a': seq<real>, b': seq<real>, n: nat)
    requires n <= |a| && n <= |b| && n <= |a'| && n <= |b'|
    requires a[..n] == a'[..n] && b[..n] == b'[..n]
    ensures DotUpTo(a, b, n) == DotUpTo(a', b', n)
  {
    if n > 0 {
      assert a[n - 1] == a[..n][n - 1] == a'[n - 1];
      assert b[n - 1] == b[..n][n - 1] == b'[n - 1];
      assert a[..n - 1] == a[..n][..n - 1];
      assert a'[..n - 1] == a'[..n][..n - 1];
      assert b[..n - 1] == b[..n][..n - 1];
      assert b'[..n - 1] == b'[..n][..n - 1];
      DotUpToPrefix(a, b, a', b', n - 1);
    }
  }

  /** Elements past the shorter vector are ignored. */
  lemma DotIgnoresTail(a: seq<real>, b: seq<real>)
    ensures var n := Min(|a|, |b|); Dot(a, b) == Dot(a[..n], b[..n])
  {
    var n := Min(|a|, |b|);
    assert a[..n][..n] == a[..n] && b[..n][..n] == b[..n];
    DotUpToPrefix(a, b, a[..n], b[..n], n);
  }

  lemma {:induction false} DotUpToSymmetric(a: seq<real>, b: seq<real>, n: nat)
    requires n <= |a| && n <= |b|
    ensures DotUpTo(a, b, n) == DotUpTo(b, a, n)
  {
    if n > 0 {
      DotUpToSymmetric(a, b, n - 1);
    }
  }

  /** The score is symmetric. */
  lemma DotSymmetric(a: seq<real>, b: seq<real>)
    ensures Dot(a, b) == Dot(b, a)
  {
    DotUpToSymmetric(a, b, Min(|a|, |b|));
  }

  /** The score against an empty vector is 0. */
  lemma DotEmpty(a: seq<real>)
    ensures Dot(a, []) == 0.0 && Dot([], a) == 0.0
  {
  }
}
