/**
 * The control flow of the embedding side (src/embed_interface.cpp):
 * `encode_once`, its two prefixing wrappers and `embed_batch`. The
 * tokenizer, the decode call and the pooled, normalised embedding are
 * parameters of the model.
 */
module EmbedInterface {
  import opened Wrappers

  type Token = int

  /** The fields of `embed_interface::model_config` that `encode_once` reads. */
  datatype EmbedConfig = EmbedConfig(addBos: bool, queryPrefix: string, passagePrefix: string)

  /**
   * A loaded embedding model. `tokenize` stands for `embd_tokenize` with
   * special tokens, `decodes` for a decode that succeeds and yields an
   * embedding pointer, `embedding(toks, i)` for component `i` of the
   * normalised embedding of `toks`.
   */
  datatype Embedder = Embedder(
    cfg: EmbedConfig,
    nEmbd: nat,
    nCtx: int,
    tokenize: string -> seq<Token>,
    vocabAddsBos: bool,
    bos: Token,
    decodes: seq<Token> -> bool,
    embedding: (seq<Token>, nat) -> real)

  /** The text `encode_once` hands to the tokenizer: the query prefix is put in front whenever it is non-empty. */
  function EncoderInput(cfg: EmbedConfig, text: string): string {
    if cfg.queryPrefix == [] then text else cfg.queryPrefix + text
  }

  /** A BOS token is put in front when both the configuration and the vocabulary ask for one and it is not already there. */
  function WithBos(e: Embedder, toks: seq<Token>): (r: seq<Token>)
    requires toks != []
    ensures |toks| <= |r| <= |toks| + 1
    ensures r[|r| - |toks|..] == toks
  {
    if e.cfg.addBos && e.vocabAddsBos && toks[0] != e.bos then [e.bos] + toks else toks
  }

  /** `n` zeros, what `out_emb.assign(_n_embd, 0.0f)` produces. */
  function Zeros(n: nat): (z: seq<real>)
    ensures |z| == n
  {
    seq(n, _ => 0.0)
  }

  /** `encode_once` after tokenization; None stands for `false`. */
  function EncodeTokens(e: Embedder, toks: seq<Token>): (r: Option<seq<real>>)
    ensures r.Some? ==> |r.value| == e.nEmbd
    ensures toks != [] && |toks| > e.nCtx ==> r.None?
  {
    if toks == [] then Some(Zeros(e.nEmbd))
    else
      var input := WithBos(e, toks);
      if |input| > e.nCtx then None
      else if !e.decodes(input) then None
      else Some(seq(e.nEmbd, i requires 0 <= i < e.nEmbd => e.embedding(input, i)))
  }

  /** `encode_once`: tokenize the (possibly prefixed) text and encode the tokens. */
  function EncodeOnce(e: Embedder, text: string): (r: Option<seq<real>>)
    ensures r.Some? ==> |r.value| == e.nEmbd
  {
    EncodeTokens(e, e.tokenize(EncoderInput(e.cfg, text)))
  }

  /** `embed_query`: the query prefix, then `encode_once`. */
  function EmbedQuery(e: Embedder, text: string): Option<seq<real>> {
    EncodeOnce(e, e.cfg.queryPrefix + text)
  }

  /** `embed_passage`: the passage prefix, then `encode_once`. */
  function EmbedPassage(e: Embedder, text: string): Option<seq<real>> {
    EncodeOnce(e, e.cfg.passagePrefix + text)
  }

  /** A non-empty query prefix reaches the tokenizer twice for a query and once, before the passage prefix, for a passage. */
  lemma PrefixesAsFed(e: Embedder, text: string)
    requires e.cfg.queryPrefix != []
    ensures EmbedQuery(e, text) == EncodeTokens(e, e.tokenize(e.cfg.queryPrefix + e.cfg.queryPrefix + text))
    ensures EmbedPassage(e, text) == EncodeTokens(e, e.tokenize(e.cfg.queryPrefix + e.cfg.passagePrefix + text))
  {
    assert e.cfg.queryPrefix + (e.cfg.queryPrefix + text) == e.cfg.queryPrefix + e.cfg.queryPrefix + text;
    assert e.cfg.queryPrefix + (e.cfg.passagePrefix + text) == e.cfg.queryPrefix + e.cfg.passagePrefix + text;
  }

  /** Text that tokenizes to nothing encodes, successfully, as `nEmbd` zeros. */
  lemma EmptyTokensGiveZeros(e: Embedder, text: string)
    requires e.tokenize(EncoderInput(e.cfg, text)) == []
    ensures EncodeOnce(e, text) == Some(Zeros(e.nEmbd))
    ensures forall i :: 0 <= i < e.nEmbd ==> EncodeOnce(e, text).value[i] == 0.0
  {
  }

  /** Encoding succeeds exactly when there are no tokens, or the BOS-adjusted tokens fit the context and decode. */
  lemma EncodeTokensOutcome(e: Embedder, toks: seq<Token>)
    ensures EncodeTokens(e, toks).Some? <==>
      (toks == [] || (|WithBos(e, toks)| <= e.nCtx && e.decodes(WithBos(e, toks))))
    ensures toks != [] && EncodeTokens(e, toks).Some? ==>
      EncodeTokens(e, toks).value == seq(e.nEmbd, i requires 0 <= i < e.nEmbd => e.embedding(WithBos(e, toks), i))
  {
  }

  /**
   * `embed_batch`: encode each text in order; on the first failure stop and
   * report `false`, keeping the vectors already produced.
   */
  method EmbedBatch(e: Embedder, texts: seq<string>) returns (ok: bool, out: seq<seq<real>>)
    ensures ok <==> forall i :: 0 <= i < |texts| ==> EncodeOnce(e, texts[i]).Some?
    ensures |out| <= |texts|
    ensures forall i :: 0 <= i < |out| ==> EncodeOnce(e, texts[i]) == Some(out[i])
    ensures ok ==> |out| == |texts|
    ensures !ok ==> |out| < |texts| && EncodeOnce(e, texts[|out|]).None?
  {
    out := [];
    var i := 0;
    while i < |texts|
      invariant 0 <= i <= |texts| && |out| == i
      invariant forall k :: 0 <= k < i ==> EncodeOnce(e, texts[k]) == Some(out[k])
    {
      var v := EncodeOnce(e, texts[i]);
      if v.None? {
        return false, out;
      }
      out := out + [v.value];
      i := i + 1;
    }
    return true, out;
  }
}
