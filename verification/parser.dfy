/**
 * The tree builder's state record of saba_core/src/renderer/html/parser.rs
 * and its constructor. No insertion algorithm exists yet.
 */
module Parser {
  import Token
  import Dom

  /** The insertion modes written so far: only the first one. */
  datatype InsertionMode = Initial

  /**
   * The parser: its window (with the window's node arena), the current and
   * the original insertion mode, the stack of open elements as node indices,
   * and the tokenizer it reads from.
   */
  datatype HtmlParser = HtmlParser(
    window: Dom.Window,
    mode: InsertionMode,
    originalInsertionMode: InsertionMode,
    stackOfOpenElements: seq<Dom.NodeId>,
    t: Token.HtmlTokenizer)

  /**
   * `HtmlParser::new`: a fresh window whose arena is the lone document node,
   * both modes `Initial`, no open elements, and the tokenizer as given.
   */
  method NewParser(t: Token.HtmlTokenizer) returns (p: HtmlParser)
    ensures fresh(p.window) && p.window.Valid()
    ensures p.window.nodes == [Dom.DocumentNode()] && p.window.document == 0
    ensures p.mode == Initial && p.originalInsertionMode == Initial
    ensures p.stackOfOpenElements == []
    ensures p.t == t
  {
    var window := new Dom.Window();
    p := HtmlParser(window, Initial, Initial, [], t);
  }

  /** With one insertion mode, both mode fields of any parser hold `Initial`. */
  lemma ModesAreInitial(p: HtmlParser)
    ensures p.mode == Initial && p.originalInsertionMode == Initial
  {
  }
}
