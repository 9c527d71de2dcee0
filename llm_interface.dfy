/**
 * The conversation session and the generation loop of src/llm_interface.cpp.
 * The chat-template renderer, the tokenizer, the end-of-generation test,
 * token-to-piece conversion and the sampled token stream are abstract.
 */
module LlmInterface {
  import opened Wrappers
  import Text

  type Token = int

  datatype Role = System | User | Assistant

  /** One `llama_chat_message`. */
  datatype Message = Message(role: Role, content: string)

  /** What `begin_prepare_prompt` produces: the text to feed, or a cursor outside the rendering (an invalid iterator range). */
  datatype Prepared = Delta(text: string) | CursorOutside

  /** How `run_prompt` ends: it returns true, the process exits because the context is full, or an invalid range was read. */
  datatype RunOutcome =
    | Returned(result: string, emitted: seq<string>)
    | ContextExceeded(emitted: seq<string>)
    | UndefinedRange

  /** The pieces of the first `n` sampled tokens, in order. */
  function Pieces(sampled: nat -> Token, piece: Token -> string, n: nat): (ps: seq<string>)
    ensures |ps| == n
  {
    if n == 0 then [] else Pieces(sampled, piece, n - 1) + [piece(sampled(n - 1))]
  }

  lemma {:induction false} PiecesAt(sampled: nat -> Token, piece: Token -> string, n: nat, k: nat)
    requires k < n
    ensures Pieces(sampled, piece, n)[k] == piece(sampled(k))
  {
    if k < n - 1 {
      PiecesAt(sampled, piece, n - 1, k);
    }
  }

  /**
   * The `while (true)` loop of `run_prompt`. The first batch is the prompt's
   * `promptLen` tokens, every later batch the one token just sampled; the
   * memory is cleared first, so `used` counts only this call's tokens. A
   * batch that would take `used` past `nCtx` ends the process
   * (`finished == false`); the first end-of-generation token ends the loop.
   * `emitted` lists the pieces handed to the callback, `result` their
   * concatenation.
   */
  method GenerationLoop(promptLen: nat, nCtx: int, sampled: nat -> Token, isEog: Token -> bool, piece: Token -> string)
    returns (finished: bool, result: string, emitted: seq<string>)
    ensures emitted == Pieces(sampled, piece, |emitted|)
    ensures result == Text.Concat(emitted)
    ensures forall k :: 0 <= k < |emitted| ==> !isEog(sampled(k))
    ensures finished ==> promptLen + |emitted| <= nCtx && isEog(sampled(|emitted|))
    ensures !finished ==> promptLen + |emitted| > nCtx && (|emitted| == 0 || promptLen + |emitted| == nCtx + 1)
    ensures finished <==> exists n: nat :: promptLen + n <= nCtx && isEog(sampled(n))
  {
    result := "";
    emitted := [];
    var used := 0;
    var batch := promptLen;
    var n := 0;
    while true
      invariant n == |emitted|
      invariant used == if n == 0 then 0 else promptLen + n - 1
      invariant batch == if n == 0 then promptLen else 1
      invariant emitted == Pieces(sampled, piece, n)
      invariant result == Text.Concat(emitted)
      invariant forall k :: 0 <= k < n ==> !isEog(sampled(k))
      invariant used <= nCtx || n == 0
      decreases nCtx - used, if n == 0 then 1 else 0
    {
      if used + batch > nCtx {
        FinishesIffEogInContext(promptLen, nCtx, sampled, isEog, false, emitted);
        return false, result, emitted;
      }
      used := used + batch;
      var tok := sampled(n);
      if isEog(tok) {
        FinishesIffEogInContext(promptLen, nCtx, sampled, isEog, true, emitted);
        return true, result, emitted;
      }
      var p := piece(tok);
      emitted := emitted + [p];
      result := result + p;
      batch := 1;
      n := n + 1;
    }
  }

  /** The generation loop finishes exactly when an end-of-generation token is sampled at a position the context still admits. */
  lemma FinishesIffEogInContext(promptLen: nat, nCtx: int, sampled: nat -> Token, isEog: Token -> bool,
                                finished: bool, emitted: seq<string>)
    requires forall k :: 0 <= k < |emitted| ==> !isEog(sampled(k))
    requires finished ==> promptLen + |emitted| <= nCtx && isEog(sampled(|emitted|))
    requires !finished ==> promptLen + |emitted| > nCtx && (|emitted| == 0 || promptLen + |emitted| == nCtx + 1)
    ensures finished <==> exists n: nat :: promptLen + n <= nCtx && isEog(sampled(n))
  {
    if !finished {
      forall n: nat | promptLen + n <= nCtx ensures !isEog(sampled(n)) {
        assert n < |emitted|;
      }
    }
  }

  /**
   * `llm_interface`: the message list, the `_formatted_messages` buffer
   * (only its size is modelled: its contents are written by the renderer)
   * and the `_prev_len` cursor.
   */
  class Session {
    var messages: seq<Message>
    var bufferSize: nat
    var prevLen: int
    /** `llama_chat_apply_template` with or without the generation marker; None for a negative length. */
    const render: (seq<Message>, bool) -> Option<string>
    const tokenize: string -> seq<Token>
    const isEog: Token -> bool
    const piece: Token -> string
    const nCtx: int

    /** A new session: no messages, the cursor at 0 and an empty buffer. */
    constructor (render: (seq<Message>, bool) -> Option<string>, tokenize: string -> seq<Token>,
                 isEog: Token -> bool, piece: Token -> string, nCtx: nat)
      ensures messages == [] && prevLen == 0 && bufferSize == 0
      ensures this.render == render && this.tokenize == tokenize
      ensures this.isEog == isEog && this.piece == piece && this.nCtx == nCtx
    {
      messages := [];
      bufferSize := 0;
      prevLen := 0;
      this.render := render;
      this.tokenize := tokenize;
      this.isEog := isEog;
      this.piece := piece;
      this.nCtx := nCtx;
    }

    /** The step of `load_model` that sizes the rendering buffer to the context: `n_ctx` characters. */
    method SizeBuffer()
      modifies this`bufferSize
      ensures bufferSize == if nCtx < 0 then 0 else nCtx
    {
      bufferSize := if nCtx < 0 then 0 else nCtx;
    }

    /** `set_system_prompt`: appends one system message, wherever the list stands. */
    method SetSystemPrompt(text: string)
      modifies this`messages
      ensures messages == old(messages) + [Message(System, text)]
    {
      messages := messages + [Message(System, text)];
    }

    /**
     * `begin_prepare_prompt`: append the user message, render with the
     * generation marker (growing the buffer if the rendering did not fit)
     * and return the part past the cursor.
     */
    method BeginPreparePrompt(prompt: string) returns (p: Prepared)
      modifies this`messages, this`bufferSize
      ensures messages == old(messages) + [Message(User, prompt)]
      ensures match render(messages, true)
        case None => p == Delta("") && bufferSize == old(bufferSize)
        case Some(t) =>
          && bufferSize == (if |t| > old(bufferSize) then |t| else old(bufferSize))
          && (0 <= prevLen <= |t| ==> p == Delta(t[prevLen..]) && t[..prevLen] + p.text == t)
          && (!(0 <= prevLen <= |t|) ==> p == CursorOutside)
    {
      messages := messages + [Message(User, prompt)];
      var r := render(messages, true);
      if r.Some? && |r.value| > bufferSize {
        bufferSize := |r.value|;
      }
      if r.None? {
        return Delta("");
      }
      var t := r.value;
      if 0 <= prevLen <= |t| {
        p := Delta(t[prevLen..]);
        assert t[..prevLen] + t[prevLen..] == t;
      } else {
        p := CursorOutside;
      }
    }

    /** `after_prepare_prepare`: append the assistant message and move the cursor to the rendering's length, -1 when it fails. */
    method AfterPreparePrompt(result: string)
      modifies this`messages, this`prevLen
      ensures messages == old(messages) + [Message(Assistant, result)]
      ensures prevLen == match render(messages, false) case Some(t) => |t| case None => -1
    {
      messages := messages + [Message(Assistant, result)];
      var r := render(messages, false);
      prevLen := if r.Some? then |r.value| else -1;
    }

    /** What `begin_prepare_prompt` returns once the user turn is in `msgs`: the rendering past `cursor`, "" when rendering fails. */
    function Prepare(msgs: seq<Message>, cursor: int): Prepared {
      match render(msgs, true)
      case None => Delta("")
      case Some(t) => if 0 <= cursor <= |t| then Delta(t[cursor..]) else CursorOutside
    }

    /** The buffer size after rendering `msgs` with the generation marker into a buffer of `size` characters. */
    function GrownBuffer(msgs: seq<Message>, size: nat): nat {
      match render(msgs, true)
      case None => size
      case Some(t) => if |t| > size then |t| else size
    }

    /** `emitted` are the pieces of the first sampled tokens, none of them an end-of-generation token. */
    /** The number of pieces handed out before the batch that overflows `nCtx`, for a prompt of `promptLen` tokens. */
    function ExitCount(promptLen: nat): (n: nat)
      ensures promptLen + n > nCtx
      ensures n > 0 ==> promptLen + n == nCtx + 1
    {
      if promptLen > nCtx then 0 else nCtx + 1 - promptLen
    }

    predicate Generated(sampled: nat -> Token, emitted: seq<string>) {
      && emitted == Pieces(sampled, piece, |emitted|)
      && forall k :: 0 <= k < |emitted| ==> !isEog(sampled(k))
    }

    /**
     * One `run_prompt` call, from the messages `m0`, the cursor `c0` and the
     * buffer size `b0` to `m1`, `c1` and `b1`:
     * - the user turn is recorded and the buffer grows to fit its rendering;
     * - the run reads an invalid range exactly when the cursor lies outside
     *   that rendering;
     * - otherwise the prompt is the `promptLen` tokens of the rendering past
     *   the cursor, and the run returns exactly when an end-of-generation
     *   token is sampled at a position the context still admits;
     * - on return the answer is the concatenation of the pieces before the
     *   first end-of-generation token, it is recorded as the assistant turn
     *   and the cursor moves to the length of the rendering (-1 when that
     *   fails);
     * - on an exit the pieces handed out are those before the first batch
     *   that would overflow `nCtx`: none when the prompt alone overflows,
     *   otherwise `nCtx + 1 - promptLen`; the cursor stays.
     */
    predicate Ran(m0: seq<Message>, c0: int, b0: nat, prompt: string, sampled: nat -> Token,
                  out: RunOutcome, m1: seq<Message>, c1: int, b1: nat) {
      var m := m0 + [Message(User, prompt)];
      var p := Prepare(m, c0);
      && b1 == GrownBuffer(m, b0)
      && (out.UndefinedRange? <==> p.CursorOutside?)
      && (p.Delta? ==>
            (out.Returned? <==> exists n: nat :: |tokenize(p.text)| + n <= nCtx && isEog(sampled(n))))
      && match out
         case UndefinedRange => m1 == m && c1 == c0
         case ContextExceeded(emitted) =>
           && m1 == m && c1 == c0
           && Generated(sampled, emitted)
           && |emitted| == ExitCount(|tokenize(p.text)|)
         case Returned(result, emitted) =>
           && Generated(sampled, emitted)
           && isEog(sampled(|emitted|))
           && |tokenize(p.text)| + |emitted| <= nCtx
           && result == Text.Concat(emitted)
           && m1 == m + [Message(Assistant, result)]
           && c1 == match render(m1, false) case Some(t) => |t| case None => -1
    }

    /**
     * `run_prompt`: prepare the prompt, tokenize the new part, run the
     * generation loop over the sampled tokens and record the answer as an
     * assistant turn.
     */
    method RunPrompt(prompt: string, sampled: nat -> Token) returns (out: RunOutcome)
      modifies this`messages, this`bufferSize, this`prevLen
      ensures Ran(old(messages), old(prevLen), old(bufferSize), prompt, sampled, out, messages, prevLen, bufferSize)
    {
      var p := BeginPreparePrompt(prompt);
      if p.CursorOutside? {
        return UndefinedRange;
      }
      var tokens := tokenize(p.text);
      var finished, result, emitted := GenerationLoop(|tokens|, nCtx, sampled, isEog, piece);
      if !finished {
        return ContextExceeded(emitted);
      }
      AfterPreparePrompt(result);
      out := Returned(result, emitted);
    }
  }
}
