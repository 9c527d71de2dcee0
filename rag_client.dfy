/**
 * The `rag_client` object of src/rag_client.cpp: the configuration, the
 * loaded index, the readiness flag and the two engines, with `load_index`,
 * `rank`, `build_context`, `embed_question` and `ask`.
 */
module RagClient {
  import opened Wrappers
  import opened RagTypes
  import opened IndexReader
  import opened Retriever
  import EmbedInterface
  import LlmInterface
  import Text

  const ModelsNotLoaded: string := "[ERROR] models not loaded"
  const IndexEmpty: string := "[ERROR] index is empty"
  const EmbedFailed: string := "[ERROR] failed to embed question"
  const NoContext: string := "[WARN] no relevant context found"

  /** The user prompt `ask` assembles around the context and the question (the Thai labels are carried verbatim). */
  function UserPrompt(systemPrompt: string, ctx: string, question: string): string {
    systemPrompt + "\n\n"
      + "บริบท:\n" + ctx + "\n"
      + "คำถาม: " + question + "\n\n"
      + "ข้อกำหนดการตอบ:\n"
      + "- ตอบเป็นภาษาไทยแบบกระชับ ชัดเจน\n"
  }

  /**
   * What `ask` returns: a string (with the pieces handed to `on_token`, in
   * order), the end of the process inside generation (with the pieces
   * already handed out), or an invalid range read in the session.
   */
  datatype AskResult =
    | Answer(text: string, streamed: seq<string>)
    | Exited(streamed: seq<string>)
    | Undefined

  class Client {
    var config: RagConfig
    var items: seq<IndexRow>
    var modelsReady: bool
    /** The loaded embedder; loading models is not part of this model. */
    const embedder: EmbedInterface.Embedder
    const llm: LlmInterface.Session
    /** `std::stof`: None where it throws. */
    const stof: string -> Option<real>

    /** A default-constructed client: default configuration, no rows, models not ready. */
    constructor (embedder: EmbedInterface.Embedder, llm: LlmInterface.Session, stof: string -> Option<real>)
      ensures config == DefaultConfig() && items == [] && !modelsReady
      ensures this.embedder == embedder && this.llm == llm && this.stof == stof
    {
      config := DefaultConfig();
      items := [];
      modelsReady := false;
      this.embedder := embedder;
      this.llm := llm;
      this.stof := stof;
    }

    /** `set_config`. */
    method SetConfig(cfg: RagConfig)
      modifies this`config
      ensures config == cfg
    {
      config := cfg;
    }

    /**
     * `load_index` over the lines `getline` yields; None stands for a file
     * that does not open. The old rows are dropped first in every case.
     */
    method LoadIndex(file: Option<seq<string>>) returns (ok: bool)
      modifies this`items
      ensures items == if file.None? then [] else LoadRows(file.value, stof)
      ensures ok <==> items != []
    {
      items := [];
      if file.None? {
        return false;
      }
      ReadRows(file.value, LineParser(stof));
      ok := items != [];
    }

    /** The `getline` loop of `load_index`: push the row of every non-empty line that `parse` accepts. */
    method ReadRows(lines: seq<string>, parse: string -> Option<IndexRow>)
      modifies this`items
      ensures items == old(items) + KeptRows(lines, parse)
    {
      ghost var before := items;
      var i := 0;
      while i < |lines|
        invariant 0 <= i <= |lines|
        invariant items == before + KeptRows(lines[..i], parse)
      {
        KeptSnoc(lines, i, parse);
        var line := lines[i];
        if line != [] {
          var row := parse(line);
          if row.Some? {
            items := items + [row.value];
          }
        }
        i := i + 1;
      }
      assert lines[..i] == lines;
    }

    /** `embed_question`: fails when the models are not ready, the query does not encode, or the vector is empty. */
    function EmbedQuestion(question: string): (r: Option<seq<real>>)
      reads this
      ensures r.Some? <==> modelsReady && EmbedInterface.EmbedQuery(embedder, question).Some? && EmbedInterface.EmbedQuery(embedder, question).value != []
      ensures r.Some? ==> r.value == EmbedInterface.EmbedQuery(embedder, question).value
    {
      if !modelsReady then None
      else
        var v := EmbedInterface.EmbedQuery(embedder, question);
        if v.Some? && v.value != [] then v else None
    }

    /** The push loop of `rank`: score every row in order and keep those passing the threshold. */
    method CollectCandidates(qvec: seq<real>) returns (c: seq<RankItem>)
      ensures c == Candidates(items, qvec, config.minScoreKeep)
    {
      c := [];
      var i := 0;
      while i < |items|
        invariant 0 <= i <= |items|
        invariant c == Candidates(items[..i], qvec, config.minScoreKeep)
      {
        assert items[..i + 1][..i] == items[..i];
        var s := DotProduct(qvec, items[i].vec);
        if Keep(s, config.minScoreKeep) {
          c := c + [RankItem(s, i)];
        }
        i := i + 1;
      }
      assert items[..i] == items;
    }

    /**
     * `rank`: the candidates sorted by descending score. Exactly the rows
     * passing the threshold appear, each once, with its own score; equal
     * scores may come in any order.
     */
    method Rank(qvec: seq<real>) returns (ranked: seq<RankItem>)
      ensures multiset(ranked) == multiset(Candidates(items, qvec, config.minScoreKeep))
      ensures SortedByScore(ranked)
      ensures Scored(items, qvec, config.minScoreKeep, ranked)
      ensures DistinctRows(ranked)
      ensures forall i :: 0 <= i < |items| ==> (HasRow(ranked, i) <==> Keep(Dot(qvec, items[i].vec), config.minScoreKeep))
    {
      var c := CollectCandidates(qvec);
      var a := new RankItem[|c|](k requires 0 <= k < |c| => c[k]);
      assert a[..] == c;
      SortByScore(a);
      ranked := a[..];
      PermutedCandidates(items, qvec, config.minScoreKeep, ranked);
    }

    /**
     * `build_context`: append the entries of `ranked` in order, stopping at
     * `topK` entries or before an entry that would take a non-empty context
     * past `budget`.
     */
    method BuildContext(ranked: seq<RankItem>, topK: int, budget: nat) returns (ctx: string)
      requires ValidRows(items, ranked)
      ensures exists n: nat :: GreedyCut(items, ranked, topK, budget, n) && ctx == ContextText(items, ranked[..n])
    {
      ctx := "";
      var used := 0;
      var count := 0;
      while count < |ranked|
        invariant 0 <= count <= |ranked|
        invariant count == 0 || count <= topK
        invariant ctx == ContextText(items, ranked[..count]) && used == |ctx|
        invariant count >= 2 ==> used <= budget
      {
        if count >= topK {
          break;
        }
        var one := Entry(items[ranked[count].rowIndex]);
        assert ranked[..count + 1][..count] == ranked[..count];
        if used + |one| > budget && count >= 1 {
          break;
        }
        ctx := ctx + one;
        used := used + |one|;
        count := count + 1;
      }
      assert GreedyCut(items, ranked, topK, budget, count);
    }

    /**
     * `ask`: the four early returns in their order, then rank, build the
     * context, prompt the session and return its answer. With streaming on
     * and a callback present, the callback sees every piece; otherwise the
     * pieces are buffered, and the buffer would stand in for an empty
     * answer, which it then equals.
     */
    method Ask(question: string, overrideTopK: Option<int>, hasCallback: bool, sampled: nat -> LlmInterface.Token)
      returns (r: AskResult)
      modifies llm`messages, llm`bufferSize, llm`prevLen
      ensures !modelsReady ==> r == Answer(ModelsNotLoaded, []) && unchanged(llm)
      ensures modelsReady && items == [] ==> r == Answer(IndexEmpty, []) && unchanged(llm)
      ensures modelsReady && items != [] && EmbedQuestion(question).None? ==> r == Answer(EmbedFailed, []) && unchanged(llm)
      ensures modelsReady && items != [] && EmbedQuestion(question).Some?
              && Candidates(items, EmbedQuestion(question).value, config.minScoreKeep) == [] ==>
                r == Answer(NoContext, []) && unchanged(llm)
      ensures modelsReady && items != [] && EmbedQuestion(question).Some?
              && Candidates(items, EmbedQuestion(question).value, config.minScoreKeep) != [] ==>
                exists ranked: seq<RankItem>, n: nat, out: LlmInterface.RunOutcome ::
                  && multiset(ranked) == multiset(Candidates(items, EmbedQuestion(question).value, config.minScoreKeep))
                  && SortedByScore(ranked)
                  && ValidRows(items, ranked)
                  && GreedyCut(items, ranked, overrideTopK.GetOr(config.topK), config.contextBudget, n)
                  && llm.Ran(old(llm.messages), old(llm.prevLen), old(llm.bufferSize),
                             UserPrompt(config.systemPrompt, ContextText(items, ranked[..n]), question), sampled,
                             out, llm.messages, llm.prevLen, llm.bufferSize)
                  && AnswerOf(out, config.streamTokens && hasCallback, r)
    {
      if !modelsReady {
        return Answer(ModelsNotLoaded, []);
      }
      if items == [] {
        return Answer(IndexEmpty, []);
      }
      var qvec := EmbedQuestion(question);
      if qvec.None? {
        return Answer(EmbedFailed, []);
      }
      var ranked := Rank(qvec.value);
      if ranked == [] {
        return Answer(NoContext, []);
      }
      var k := overrideTopK.GetOr(config.topK);
      assert ValidRows(items, ranked);
      var ctx := BuildContext(ranked, k, config.contextBudget);
      ghost var n: nat :| GreedyCut(items, ranked, k, config.contextBudget, n) && ctx == ContextText(items, ranked[..n]);
      var prompt := UserPrompt(config.systemPrompt, ctx, question);
      ghost var out;
      r, out := Generate(prompt, config.streamTokens && hasCallback, sampled);
      assert ValidRows(items, ranked) && GreedyCut(items, ranked, k, config.contextBudget, n);
    }

    /** The `run_prompt` call of `ask` and the choice between the streamed answer and the buffered one. */
    method Generate(prompt: string, streaming: bool, sampled: nat -> LlmInterface.Token)
      returns (r: AskResult, ghost out: LlmInterface.RunOutcome)
      modifies llm`messages, llm`bufferSize, llm`prevLen
      ensures llm.Ran(old(llm.messages), old(llm.prevLen), old(llm.bufferSize), prompt, sampled,
                      out, llm.messages, llm.prevLen, llm.bufferSize)
      ensures AnswerOf(out, streaming, r)
    {
      var o := llm.RunPrompt(prompt, sampled);
      out := o;
      match o {
        case UndefinedRange => r := Undefined;
        case ContextExceeded(emitted) =>
          r := Exited(if streaming then emitted else []);
        case Returned(result, emitted) =>
          if streaming {
            r := Answer(result, emitted);
          } else {
            var buf := Text.Concat(emitted);
            r := Answer(if result == [] then buf else result, []);
          }
      }
    }
  }

  /**
   * How the outcome of `run_prompt` shows in the result of `ask`: a
   * returned answer is the session's result, with the pieces handed to
   * `on_token` when streaming and none otherwise; an exit keeps the pieces
   * already handed out. With the buffer, the buffered pieces stand in for an
   * empty result, so the answer is still the result, which is their
   * concatenation.
   */
  predicate AnswerOf(out: LlmInterface.RunOutcome, streaming: bool, r: AskResult) {
    match out
    case UndefinedRange => r == Undefined
    case ContextExceeded(emitted) => r == Exited(if streaming then emitted else [])
    case Returned(result, emitted) => r == Answer(result, if streaming then emitted else [])
  }

  /**
   * What an answer of `ask` is in terms of the sampled tokens: the
   * concatenation of the pieces before the first end-of-generation token,
   * which is also the recorded assistant turn, with exactly those pieces
   * streamed when streaming. An exit records only the user turn and has
   * streamed, when streaming, the pieces of the first `ExitCount` sampled
   * tokens. `ask` gets an answer from the session exactly
   * when that token falls inside the context, and reads an invalid range
   * exactly when the cursor lies outside the rendering.
   */
  lemma AnswerIsGeneration(s: LlmInterface.Session, m0: seq<LlmInterface.Message>, c0: int, b0: nat,
                           prompt: string, sampled: nat -> LlmInterface.Token, out: LlmInterface.RunOutcome,
                           m1: seq<LlmInterface.Message>, c1: int, b1: nat, streaming: bool, r: AskResult)
    requires s.Ran(m0, c0, b0, prompt, sampled, out, m1, c1, b1) && AnswerOf(out, streaming, r)
    ensures r.Answer? ==> exists m: nat ::
      && s.isEog(sampled(m)) && (forall k :: 0 <= k < m ==> !s.isEog(sampled(k)))
      && r.text == Text.Concat(LlmInterface.Pieces(sampled, s.piece, m))
      && r.streamed == (if streaming then LlmInterface.Pieces(sampled, s.piece, m) else [])
      && m1 == m0 + [LlmInterface.Message(LlmInterface.User, prompt), LlmInterface.Message(LlmInterface.Assistant, r.text)]
    ensures var p := s.Prepare(m0 + [LlmInterface.Message(LlmInterface.User, prompt)], c0);
      r.Exited? ==> && p.Delta?
                    && r.streamed == (if streaming then LlmInterface.Pieces(sampled, s.piece, s.ExitCount(|s.tokenize(p.text)|)) else [])
                    && m1 == m0 + [LlmInterface.Message(LlmInterface.User, prompt)]
    ensures var p := s.Prepare(m0 + [LlmInterface.Message(LlmInterface.User, prompt)], c0);
      && (r.Undefined? <==> p.CursorOutside?)
      && (p.Delta? ==> (r.Answer? <==> exists n: nat :: |s.tokenize(p.text)| + n <= s.nCtx && s.isEog(sampled(n))))
  {
    if r.Answer? {
      var m := |out.emitted|;
      assert out.emitted == LlmInterface.Pieces(sampled, s.piece, m);
    }
  }
}
