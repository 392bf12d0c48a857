/**
 * The HTML tokenizer skeleton of saba_core/src/renderer/html/token.rs: the
 * token and state enums, the tokenizer object, and `next`, of which only the
 * `Data` state is written; every other state is `todo!()`.
 */
module Token {
  import opened Wrappers
  import opened HtmlAttribute

  datatype HtmlToken =
    | StartTag(tag: string, selfClosing: bool, attributes: seq<Attribute>)
    | EndTag(tag: string)
    | Char(c: char)
    | EOF

  datatype State =
    | Data
    | TagOpen
    | EndTagOpen
    | TagName
    | BeforeAttributeName
    | AttributeName
    | AfterAttributeName
    | BeforeAttributeValue
    | AttributeValueDoubleQuoted
    | AttributeValueSingleQuoted
    | AttributeValueUnquoted
    | AfterAttributeValueQuoted
    | SelfClosingStartTag
    | ScriptData
    | ScriptDataLessThanSign
    | ScriptDataEndTagOpen
    | ScriptDataEndTagName
    | TemporaryBuffer

  /** The eighteen states, each once. */
  const AllStates: seq<State> := [
    Data, TagOpen, EndTagOpen, TagName, BeforeAttributeName, AttributeName,
    AfterAttributeName, BeforeAttributeValue, AttributeValueDoubleQuoted,
    AttributeValueSingleQuoted, AttributeValueUnquoted, AfterAttributeValueQuoted,
    SelfClosingStartTag, ScriptData, ScriptDataLessThanSign, ScriptDataEndTagOpen,
    ScriptDataEndTagName, TemporaryBuffer]

  /** The state enum is closed: eighteen distinct states and no others. */
  lemma StatesAreClosed(s: State)
    ensures s in AllStates
    ensures |AllStates| == 18
    ensures forall i, j :: 0 <= i < j < |AllStates| ==> AllStates[i] != AllStates[j]
  {
  }

  /**
   * The tokenizer's fields as one value. `consume_next_input` borrows the
   * tokenizer immutably, so the character it yields is a function of this.
   */
  datatype TokenizerView = TokenizerView(
    state: State,
    pos: nat,
    reconsume: bool,
    latestToken: Option<HtmlToken>,
    input: seq<char>,
    buf: string)

  /** `is_eof` on a snapshot. */
  predicate ViewIsEof(v: TokenizerView)
  {
    v.pos > |v.input|
  }

  /** What one pass of the `Data` arm decides for the character read. */
  datatype DataOutcome = SwitchTo(next: State) | Emit(token: HtmlToken)

  /** The `Data` arm: a `<` switches to `TagOpen`, otherwise EOF or the character. */
  function DataStep(c: char, eof: bool): DataOutcome
  {
    if c == '<' then SwitchTo(TagOpen)
    else if eof then Emit(EOF)
    else Emit(Char(c))
  }

  /** A `<` is never emitted; the `<` test comes first, so it wins even at EOF. */
  lemma DataStepCases(c: char, eof: bool)
    ensures DataStep(c, eof) == SwitchTo(TagOpen) <==> c == '<'
    ensures DataStep(c, eof) == Emit(EOF) <==> c != '<' && eof
    ensures DataStep(c, eof) == Emit(Char(c)) <==> c != '<' && !eof
    ensures DataStep(c, eof) != Emit(Char('<'))
  {
  }

  /**
   * The `loop` of `next` from snapshot `v`: what it returns, and the state
   * the tokenizer is left in. Only `Data` can go round again, and only into
   * `TagOpen`, which is `todo!()`.
   */
  function Loop(v: TokenizerView, consume: TokenizerView -> char): (Run<Option<HtmlToken>>, State)
    decreases if v.state == Data then 1 else 0
  {
    var c := consume(v);
    if v.state == Data then
      match DataStep(c, ViewIsEof(v))
      case SwitchTo(s) => Loop(v.(state := s), consume)
      case Emit(t) => (Returns(Some(t)), Data)
    else
      (Panics(NotYetImplemented), v.state)
  }

  /** `next` from snapshot `v`: `None` once `pos` reaches the input length, else the loop. */
  function NextOf(v: TokenizerView, consume: TokenizerView -> char): (Run<Option<HtmlToken>>, State)
  {
    if v.pos >= |v.input| then (Returns(None), v.state) else Loop(v, consume)
  }

  /** Past the end of the input, `next` yields `None` and keeps its state. */
  lemma NextAtEnd(v: TokenizerView, consume: TokenizerView -> char)
    requires v.pos >= |v.input|
    ensures NextOf(v, consume) == (Returns(None), v.state)
  {
  }

  /** In `Data`, a character other than `<` is emitted and the state stays `Data`. */
  lemma NextDataChar(v: TokenizerView, consume: TokenizerView -> char)
    requires v.pos < |v.input| && v.state == Data && consume(v) != '<'
    ensures NextOf(v, consume) == (Returns(Some(Char(consume(v)))), Data)
  {
  }

  /** In `Data`, a `<` moves to `TagOpen`, whose handler is `todo!()`. */
  lemma NextDataLessThan(v: TokenizerView, consume: TokenizerView -> char)
    requires v.pos < |v.input| && v.state == Data && consume(v) == '<'
    ensures NextOf(v, consume) == (Panics(NotYetImplemented), TagOpen)
  {
    assert Loop(v.(state := TagOpen), consume) == (Panics(NotYetImplemented), TagOpen);
  }

  /** Every state other than `Data` panics on entry and is left as it was. */
  lemma NextOtherState(v: TokenizerView, consume: TokenizerView -> char)
    requires v.pos < |v.input| && v.state != Data
    ensures NextOf(v, consume) == (Panics(NotYetImplemented), v.state)
  {
  }

  /**
   * The `EOF` branch of the `Data` arm is dead: the guard demands
   * `pos < input.len()`, nothing in the loop moves `pos`, and `is_eof`
   * needs `pos > input.len()`.
   */
  lemma NextNeverEof(v: TokenizerView, consume: TokenizerView -> char)
    ensures NextOf(v, consume).0 != Returns(Some(EOF))
    ensures NextOf(v, consume).0.Returns? && NextOf(v, consume).0.value.Some? ==>
      NextOf(v, consume).0.value.value == Char(consume(v)) && consume(v) != '<'
  {
    if v.pos < |v.input| && v.state == Data {
      if consume(v) == '<' {
        NextDataLessThan(v, consume);
      } else {
        NextDataChar(v, consume);
      }
    }
  }

  /** The tokenizer object; `next` changes only `state`. */
  class HtmlTokenizer {
    var state: State
    var pos: nat
    var reconsume: bool
    var latestToken: Option<HtmlToken>
    var input: seq<char>
    var buf: string

    /** `HtmlTokenizer::new`: the `Data` state at position 0 over the characters of `html`. */
    constructor(html: string)
      ensures state == Data && pos == 0 && !reconsume && latestToken == None
      ensures input == html && buf == []
    {
      state := Data;
      pos := 0;
      reconsume := false;
      latestToken := None;
      input := html;
      buf := [];
    }

    function View(): TokenizerView
      reads this
    {
      TokenizerView(state, pos, reconsume, latestToken, input, buf)
    }

    /** `is_eof`: the position has gone past the end of the input. */
    predicate IsEof()
      reads this
    {
      pos > |input|
    }

    /**
     * `Iterator::next`. `consume` stands for `consume_next_input`, a function
     * of the tokenizer as it stands (it takes `&self`).
     */
    method Next(consume: TokenizerView -> char) returns (r: Run<Option<HtmlToken>>)
      modifies this
      ensures (r, state) == NextOf(old(View()), consume)
      ensures pos == old(pos) && input == old(input) && buf == old(buf)
      ensures reconsume == old(reconsume) && latestToken == old(latestToken)
    {
      if pos >= |input| {
        return Returns(None);
      }
      while true
        invariant pos == old(pos) && input == old(input) && buf == old(buf)
        invariant reconsume == old(reconsume) && latestToken == old(latestToken)
        invariant pos < |input|
        invariant Loop(View(), consume) == NextOf(old(View()), consume)
        decreases if state == Data then 1 else 0
      {
        var c := consume(View());
        if state == Data {
          var step := DataStep(c, IsEof());
          match step {
            case SwitchTo(s) =>
              state := s;
            case Emit(t) =>
              return Returns(Some(t));
          }
        } else {
          return Panics(NotYetImplemented);
        }
      }
    }
  }
}
