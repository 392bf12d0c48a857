# saba core, modelled in Dafny

This project models the core of the saba toy browser:

- the HTTP response parser `HttpResponse::new` and its accessors (`saba_core/src/http.rs`);
- the request text the HTTP client writes to the socket (`net/wasabi/src/http.rs`);
- the HTML tokenizer skeleton (`saba_core/src/renderer/html/token.rs`);
- the DOM node records (`saba_core/src/renderer/dom/node.rs`);
- the HTML parser's state record (`saba_core/src/renderer/html/parser.rs`);
- the URL record (`saba_core/src/url.rs`).

Layout, one module per file:

| file | module | models |
|---|---|---|
| `wrappers.dfy` | `Wrappers` | `Option`, `Result`, and `Run`: what a Rust call does, either returning a value or panicking with a `PanicCause` |
| `text.dfy` | `Text` | the `str` operations the parser relies on: `trim_start`, `trim`, `replace("\r\n", "\n")`, `split_once`, `split`, `splitn`, `parse::<u16>` |
| `http.dfy` | `Http` | `HttpResponse`, `Header`, `new`, `header_value` |
| `http_client.dfy` | `HttpClient` | the GET request built in `HttpClient::get` |
| `attribute.dfy` | `HtmlAttribute` | the attribute type, left abstract |
| `token.dfy` | `Token` | `HtmlToken`, `State`, `HtmlTokenizer`, `is_eof`, `next` |
| `node.dfy` | `Dom` | `NodeKind`, `Node`, `Window`, `Element`, `ElementKind` |
| `parser.dfy` | `Parser` | `InsertionMode`, `HtmlParser::new` |
| `url.dfy` | `Url` | `Url::new` |

How the model is built:

- **Panics are values.** An out-of-range vector index, a failed `expect` and a `todo!()` are modelled as `Panics(cause)`, never as preconditions. Every input reaches a defined outcome.
- **`HttpResponse::new` has a specification and an implementation.** The specification is the function `Http.Parse`, composed of `Preprocess`, `HeaderBlock`, `HeadersOf` and `Build`. The implementation is the method `Http.New`, which builds the header vector with a loop of pushes as the source does and is proved equal to `Parse`. The lemmas are stated about `Parse`.
- **`next` is a method on the tokenizer class, proved against the function `Token.NextOf`.** `consume_next_input` is a parameter of type `TokenizerView -> char`. Its body is `todo!()`, and it takes `&self`, so the character it yields can depend on the tokenizer's fields but cannot change them.
- **DOM nodes live in an index arena owned by the `Window` class.** Each `Rc` or `Weak` link between nodes is an `Option<NodeId>`. The setters are methods of `Window` that update one node in place. The window back-link that `Window::new` sets points at a `Window` whose only strong reference is dropped at once, so it is modelled as `WindowLink.Dropped`. A link to the live window that owns the arena is `WindowLink.Live`.
- **`ElementKind::from_str` is a parameter `fromStr` of `Dom.NewElement`.** Its definition is not part of this model.

Places where the code does something other than what its names and its role suggest. The model follows the code in each:

- A status line followed by a blank line (`HTTP/1.1 200 OK` LF LF) would be expected to give no headers and an empty body. The code gives the body `"\n"` (`Http.ParseStatusLineLiteral`); see Findings.
- A response with no blank line between headers and body is not rejected. Only a response with no line feed after its leading whitespace is an error. Without a `\n\n` (two LFs in a row), the code reads no headers and takes all the text after the status line as the body (`Http.ReadHeaderBlock`).
- `Url::new` does not parse host, port, path or query. It keeps the input and leaves every part empty (`Url.NewUrlDoesNotParse`).
- The tree builder has only the insertion mode `Initial` and no insertion algorithm.
- The request line is `GET /` followed by the path. With the `/` that `src/main.rs:12` passes, the request line begins `GET //` (`HttpClient.RootPathIsDoubled`).

## Model

| member | source | states |
|---|---|---|
| Http.Parse | saba_core/src/http.rs:16-56 | What `new` does with a raw response: trim the start, replace CR LF, split off the status line, read the header block, then read the status fields. Pinned by `ParseFailsWithoutNewline`, `ParseIgnoresCrlf`, the `ParseOk…` lemmas and the round trip `ParseRender`. |
| Http.New | saba_core/src/http.rs:16-56 | The outcome of `new` on any input is `Parse(raw)`: either a `Network` error, a panic, or the parsed response. |
| Http.ReadHeaderBlock | saba_core/src/http.rs:31-44 | The text after the status line is cut at the first `\n\n` (two LFs in a row). The part before it is read as header lines and the part after it is the body. With no `\n\n` there are no headers and the whole text is the body. |
| Http.ReadHeaders | saba_core/src/http.rs:33-41 | The loop pushes the header of each line in order. It stops with an `IndexOutOfBounds(1, 1)` panic when some line has no `:`. |
| Http.HeaderOf | saba_core/src/http.rs:35-39 | A header's name holds no `:`. Its name and value are trimmed, so trimming them again changes nothing. |
| Http.HeaderOfSplit | saba_core/src/http.rs:35-39 | When `splitn(2, ':')` yields two parts, the line holds a `:`. The header is then the two parts, trimmed. |
| Http.HeaderValue | saba_core/src/http.rs:79-86 | `Ok` if and only if some header has exactly the name asked for. The value is that of the first such header. Otherwise the result is `Err("failed to find <name> in headers")`. |
| Http.ParseFailsWithoutNewline | saba_core/src/http.rs:17-28 | The result is an `Err` if and only if no line feed follows the leading whitespace. That error is `Network("invalid http response: " + the preprocessed text)`. |
| Http.ParseIgnoresCrlf | saba_core/src/http.rs:17 | A response written with CR LF line ends parses exactly like the same response written with LF. |
| Http.PreprocessIgnoresCrlf | saba_core/src/http.rs:17 | Trimming the start and replacing CR LF gives the same text for the CR LF and the LF form of a response. |
| Http.StatusLineFields | saba_core/src/http.rs:47-52 | A status line of three or more space-free fields gives version = field 0, code = field 1 parsed, and reason = exactly field 2. Later fields are dropped. |
| Http.ShortStatusLinePanics | saba_core/src/http.rs:47-52 | A status line of one field panics on index 1. A status line of two fields panics on index 2. |
| Http.StatusCodeOfDecimal | saba_core/src/http.rs:51 | A decimal code up to 65535 reads as itself, with or without a leading `+`. A code above 65535 falls back to 404. |
| Http.StatusCodeNotNumber | saba_core/src/http.rs:51 | An empty code, a lone `+`, or a code with any non-digit (a `-` included) falls back to 404. |
| Http.HeaderSplitsAtFirstColon | saba_core/src/http.rs:35-38 | A header line splits at its first `:`. Later colons stay in the value. |
| Http.HeaderWithoutColonPanics | saba_core/src/http.rs:35-38 | A header line without `:` makes the whole header block panic with `IndexOutOfBounds(1, 1)`, whatever the other lines hold. |
| Http.ParseOkStatusFields | saba_core/src/http.rs:47-52 | On success the version and the reason hold neither a space nor a line feed. |
| Http.HeaderBlockTrimmed | saba_core/src/http.rs:31-44 | Whenever the header block is read without a panic, every name is free of `:` and names and values are trimmed. |
| Http.ParseOkHeaders | saba_core/src/http.rs:31-44 | On success every header name holds no `:`, and every name and value is trimmed. |
| Http.HeaderBlockBody | saba_core/src/http.rs:31-44 | The body is the end of the text that follows the status line, verbatim. |
| Http.BodyIsSuffix | saba_core/src/http.rs:20-44 | Once a status line is found, the body is the end of the preprocessed text. |
| Http.ParseOkParts | saba_core/src/http.rs:16-56 | A successful parse found a status line, and its body is the body of the header block. |
| Http.ParseOkBody | saba_core/src/http.rs:17-54 | On success the body is the end of the preprocessed response, verbatim. |
| Http.RenderStatusLine | saba_core/src/http.rs:17-28 | A well-formed response text is unchanged by preprocessing. It splits at the end of its status line. |
| Http.StatusLineOfRender | saba_core/src/http.rs:47-52 | `version code reason` with the code in decimal reads back as that version, code and reason. |
| Http.HeaderLineParses | saba_core/src/http.rs:35-39 | A well-formed header written as `name: value` reads back as itself. |
| Http.HeadersOfHeaderLines | saba_core/src/http.rs:33-41 | The lines of well-formed headers read back as those headers, in order. |
| Http.SplitAtBlankLine | saba_core/src/http.rs:31 | Non-empty header lines joined by LF hold no `\n\n`, so `split_once("\n\n")` cuts right after them. |
| Http.HeaderBlockOfRender | saba_core/src/http.rs:31-42 | A header block of one or more well-formed header lines followed by a blank line reads back as those headers and the exact body. |
| Http.ParseRender | saba_core/src/http.rs:16-56 | Round trip: a well-formed response with at least one header parses back to itself. |
| Http.ParseNoHeadersKeepsLf | saba_core/src/http.rs:31-44 | As written, a response with no headers whose body has no line feed parses with an extra LF at the head of its body. |
| Http.ParseStatusLineOnly | saba_core/src/http.rs:31-44 | As written, a status line followed by a blank line parses to the body `"\n"`, not the empty body. |
| Http.ParseStatusLineLiteral | saba_core/src/http.rs:16-56 | As written, the text `HTTP/1.1 200 OK` LF LF parses to version `HTTP/1.1`, code 200, reason `OK`, no headers and the body `"\n"`. |
| Http.ParseNoHeadersBlankLinePanics | saba_core/src/http.rs:31-40 | As written, a response with no headers panics with `IndexOutOfBounds(1, 1)` whenever `\n\n` (two LFs in a row) occurs in LF + body, the text after the status line. |
| Http.NoHeadersPanicCases | saba_core/src/http.rs:31-40 | The condition above holds when the body holds `\n\n` anywhere or when it starts with an LF. |
| Http.HeaderBlockLfPanics | saba_core/src/http.rs:31-40 | As written, a text that starts with an LF and holds `\n\n` is cut into header lines whose first one is `""`. The empty line has no `:`, so the block panics with `IndexOutOfBounds(1, 1)`. |
| Http.ParseIntendedAgrees | saba_core/src/http.rs:31-44 | The corrected parse differs from the source only when the text after the status line starts with an LF. |
| Http.HeaderBlockIntendedOfRender | saba_core/src/http.rs:31-44 | With the empty header block read as intended, the header block of any well-formed response is its headers and its exact body. |
| Http.ParseIntendedRender | saba_core/src/http.rs:16-56 | Round trip of the corrected parse: every well-formed response, with or without headers, parses back to itself. |
| Text.TrimStart | saba_core/src/http.rs:17 | `trim_start` removes only whitespace, and what it keeps does not start with whitespace. |
| Text.TrimStartSuffix | saba_core/src/http.rs:17 | What `trim_start` keeps is the end of its input. |
| Text.Trim | saba_core/src/http.rs:37-38 | `trim` leaves neither end whitespace and adds no character. |
| Text.TrimSlice | saba_core/src/http.rs:37-38 | `trim` removes exactly the whitespace at the two ends: the result is the slice of the input after its leading whitespace, and everything before and after that slice is whitespace. |
| Text.TrimFixpoint | saba_core/src/http.rs:37-38 | `trim` leaves a string alone if and only if neither end is whitespace. |
| Text.TrimIdempotent | saba_core/src/http.rs:37-38 | Trimming twice is trimming once. |
| Text.ReplaceCrlf | saba_core/src/http.rs:17 | `replace("\r\n", "\n")` never lengthens the text. It leaves CR-free text alone and keeps every character other than CR. |
| Text.ReplaceCrlfUndoesToCrlf | saba_core/src/http.rs:17 | Replacing CR LF by LF undoes writing every LF as CR LF. |
| Text.TrimStartToCrlf | saba_core/src/http.rs:17 | Leading whitespace is the same whether lines end in LF or in CR LF. |
| Text.SplitOnceChar | saba_core/src/http.rs:20 | `split_once('\n')` fails if and only if there is no LF. Otherwise it cuts around the first LF. |
| Text.SplitOnceCharAfter | saba_core/src/http.rs:20 | A separator-free prefix is recovered exactly. |
| Text.SplitOnceCharSuffix | saba_core/src/http.rs:20 | What follows the first separator is the end of the text. |
| Text.Find | saba_core/src/http.rs:31 | The result is the first occurrence of the pattern, or none if there is none. |
| Text.SplitOnce | saba_core/src/http.rs:31 | `split_once("\n\n")` fails if and only if there is no `\n\n` (two LFs in a row). Otherwise it cuts around the first one. |
| Text.SplitLeadingSeparator | saba_core/src/http.rs:34 | A text that is empty or starts with the separator splits into an empty first piece. |
| Text.SplitOnceAfter | saba_core/src/http.rs:31 | When the pattern first occurs right after `a`, the two sides are recovered exactly. |
| Text.Split | saba_core/src/http.rs:34 | `split` gives at least one piece, no piece holds the separator, and joining the pieces gives back the input. |
| Text.SplitJoin | saba_core/src/http.rs:47 | `split` undoes a join of separator-free pieces. |
| Text.JoinNoDoubleSeparator | saba_core/src/http.rs:34 | A join of non-empty, separator-free pieces never holds two separators in a row. |
| Text.SplitN | saba_core/src/http.rs:35 | `splitn(2, ':')` gives at most 2 pieces, which join back to the input. Only the last piece may hold a `:`. There are 2 pieces if and only if the line holds a `:`. |
| Text.ParseU16 | saba_core/src/http.rs:51 | A successful `u16` parse had neither an empty string nor a lone `+`. |
| Text.ParseU16Decimal | saba_core/src/http.rs:51 | The decimal form of `n` parses to `n` exactly when `n` fits in 16 bits, and a leading `+` changes nothing. |
| Text.ParseU16Digits | saba_core/src/http.rs:51 | Any non-empty string of digits, leading zeros included, parses to its value exactly when that fits in 16 bits, and a leading `+` changes nothing. |
| Text.DigitsValueLeadingZero | saba_core/src/http.rs:51 | A leading `0` does not change the value of a string of digits. |
| Text.ParseU16LeadingZero | saba_core/src/http.rs:51 | A leading `0` does not change the parse, so `0200` reads as 200. |
| Text.ParseU16RejectsNonDigit | saba_core/src/http.rs:51 | Any non-digit, other than one leading `+`, makes the parse fail. |
| HttpClient.BuildRequest | net/wasabi/src/http.rs:44-54 | The request grown by pushes is the GET request for the path on the host. |
| HttpClient.RequestLength | net/wasabi/src/http.rs:44-54 | The fixed text adds 59 characters to the path and the host. |
| HttpClient.RequestEndsWithBlankLine | net/wasabi/src/http.rs:54 | The request ends with a blank line. |
| HttpClient.RequestLines | net/wasabi/src/http.rs:44-54 | With no LF in the host or the path, the request is exactly these lines: the request line, `Host`, `Accept: text/html`, `Connection: close`, then the blank line. |
| HttpClient.RequestLineFields | net/wasabi/src/http.rs:44-46 | With no space in the path, the request line has exactly the three fields `GET`, `/` + path, `HTTP/1.1`. |
| HttpClient.RootPathIsDoubled | net/wasabi/src/http.rs:44-45 | The path `/` gives a request line that begins `GET //`. |
| Token.StatesAreClosed | saba_core/src/renderer/html/token.rs:98-117 | There are eighteen distinct states and no others. |
| Token.ViewIsEof | saba_core/src/renderer/html/token.rs:17-19 | `is_eof` on a snapshot of the tokenizer: the position is past the end of the input. `NextNeverEof` shows it never holds where `next` reads it. |
| Token.HtmlTokenizer.IsEof | saba_core/src/renderer/html/token.rs:17-19 | `is_eof` on the tokenizer object, the same test as `ViewIsEof` on its `View()`. |
| Token.DataStep | saba_core/src/renderer/html/token.rs:38-47 | The decision of the `Data` arm for one character. Characterised by `DataStepCases`. |
| Token.Loop | saba_core/src/renderer/html/token.rs:34-66 | The `loop` of `next`: the `Data` arm can go round once more, into `TagOpen`, and every other arm panics. Characterised by `NextDataChar`, `NextDataLessThan` and `NextOtherState`. |
| Token.NextOf | saba_core/src/renderer/html/token.rs:29-67 | `next` on a snapshot: `None` past the end, otherwise the loop. `HtmlTokenizer.Next` is proved equal to it. `NextAtEnd` and `NextNeverEof` state its outcomes. |
| Token.DataStepCases | saba_core/src/renderer/html/token.rs:38-47 | `<` switches to `TagOpen`, even at EOF. Otherwise the arm yields `EOF` at EOF and the character elsewhere. It never emits `<`. |
| Token.NextAtEnd | saba_core/src/renderer/html/token.rs:30-32 | With `pos` at or past the input length, `next` yields `None` and keeps its state. |
| Token.NextDataChar | saba_core/src/renderer/html/token.rs:38-47 | In `Data`, a character other than `<` is emitted and the state stays `Data`. |
| Token.NextDataLessThan | saba_core/src/renderer/html/token.rs:38-48 | In `Data`, a `<` moves to `TagOpen`, whose arm is `todo!()`. |
| Token.NextOtherState | saba_core/src/renderer/html/token.rs:48-64 | Every state other than `Data` panics and keeps its state. |
| Token.NextNeverEof | saba_core/src/renderer/html/token.rs:30-46 | `next` never yields `EOF`, because the guard excludes `is_eof`. Any token it yields is the consumed character, which is not `<`. |
| Token.HtmlTokenizer.constructor | saba_core/src/renderer/html/token.rs:71-80 | The tokenizer starts in `Data` at position 0, with no reconsume, no token, an empty buffer and the input's characters. |
| Token.HtmlTokenizer.Next | saba_core/src/renderer/html/token.rs:29-67 | The token returned and the new state are `NextOf` of the old fields. Position, input, buffer, reconsume flag and latest token are unchanged. |
| Dom.NewNode | saba_core/src/renderer/dom/node.rs:28-38 | A new node keeps its kind and has no window link and no tree links. |
| Dom.GetElement | saba_core/src/renderer/dom/node.rs:44-49 | The result is `Some` if and only if the node is an element, and it is that element. |
| Dom.ElementKindOf | saba_core/src/renderer/dom/node.rs:51-56 | `element_kind`: the element's kind for element nodes, `None` otherwise. Tied to `GetElement` by `ElementKindOfGetElement`. |
| Dom.ElementKindOfGetElement | saba_core/src/renderer/dom/node.rs:51-56 | `element_kind` is `get_element` followed by `Element::kind`. It is `Some` exactly for element nodes. |
| Dom.NewElement | saba_core/src/renderer/dom/node.rs:139-145 | The result returns if and only if the name converts to a kind, with that kind and the given attributes. Otherwise it panics with the `expect` message. |
| Dom.ElementKindsAreClosed | saba_core/src/renderer/dom/node.rs:153-159 | There are five distinct element kinds and no others. |
| Dom.DocumentNode | saba_core/src/renderer/dom/node.rs:114-122 | The document node is a `Document` with a dropped window link and no tree links. |
| Dom.Window.constructor | saba_core/src/renderer/dom/node.rs:114-125 | A new window's arena holds only the document node, at index 0, and every link is in range. |
| Dom.Window.AddNode | saba_core/src/renderer/dom/node.rs:116 | Wrapping a node in `Rc::new(RefCell::new(..))` adds it to the arena at the next index. The nodes already there are unchanged, and the links stay in range. |
| Dom.Window.SetWindow | saba_core/src/renderer/dom/node.rs:83-85 | Only the window link of the node changes. The links stay in range. |
| Dom.Window.SetParent | saba_core/src/renderer/dom/node.rs:87-89 | Only the parent link of the node changes. The links stay in range. |
| Dom.Window.SetFirstChild | saba_core/src/renderer/dom/node.rs:91-93 | Only the first-child link of the node changes. The links stay in range. |
| Dom.Window.SetLastChild | saba_core/src/renderer/dom/node.rs:95-97 | Only the last-child link of the node changes. The links stay in range. |
| Dom.Window.SetPreviousSibling | saba_core/src/renderer/dom/node.rs:99-101 | Only the previous-sibling link of the node changes. The links stay in range. |
| Dom.Window.SetNextSibling | saba_core/src/renderer/dom/node.rs:103-105 | Only the next-sibling link of the node changes. The links stay in range. |
| Parser.NewParser | saba_core/src/renderer/html/parser.rs:23-31 | A new parser has a fresh window holding only the document, both modes `Initial`, no open elements, and the given tokenizer. |
| Parser.ModesAreInitial | saba_core/src/renderer/html/parser.rs:9-11 | With one insertion mode, both mode fields of any parser are `Initial`. |
| Url.NewUrl | saba_core/src/url.rs:13-21 | `Url::new`. Its outcome is stated by `NewUrlKeepsInput`, `NewUrlInjective` and `NewUrlDoesNotParse`. |
| Url.NewUrlKeepsInput | saba_core/src/url.rs:13-21 | `new` keeps the input verbatim and leaves host, port, path and query empty. |
| Url.NewUrlInjective | saba_core/src/url.rs:13-21 | Two inputs give equal records if and only if they are equal. |
| Url.NewUrlDoesNotParse | saba_core/src/url.rs:13-21 | A full URL with scheme, port, path and query is not split up. |

## Left out

- Network I/O in `HttpClient::get` is not modelled: name resolution, connect, write, the read loop and UTF-8 decoding (`net/wasabi/src/http.rs`). Only the request text is modelled.
- `src/main.rs` is not modelled. It is a caller that prints the result.
- The bodies of `consume_next_input` and `ElementKind::from_str` are not modelled. The first is `todo!()` in the source and the second is not part of this model. Both are parameters. A real call to `consume_next_input` would itself panic, which the model does not show.
- The `Attribute` type is abstract (`HtmlAttribute.Attribute`). Its definition is not part of this model.
- The accessors `version`, `status_code`, `reason`, `headers` and `body`, the `Node` getters, `Node::kind`, `Element::kind` and `Window::document` are the datatype and class fields, read directly. They clone or borrow a field, so they have no contract of their own.
- `Dom.Window`: `Rc`/`Weak` sharing, reference counts and `RefCell` borrow checks are not modelled. The arena index stands for the pointer, so a dangling `Weak` to a node cannot be expressed. Only the window back-link is modelled as dropped. A window link names either the arena's own window (`Live`) or a dropped one, so a link to some other live window cannot be expressed.
- `Parser.NewParser`: the tokenizer is held by reference, so the aliasing a Rust move rules out is not ruled out in the model.
- `Token.HtmlTokenizer.Next`: each `todo!()` arm is modelled as a `NotYetImplemented` panic.
- The other variants of `crate::error::Error` are not modelled. `new` only builds `Network`.

## Findings

| source | as written | input that shows it | evidently intended | confidence | as-written member | corrected member |
|---|---|---|---|---|---|---|
| saba_core/src/http.rs:31-44 | `split_once("\n\n")` runs on the text after the status line's own LF. A blank line right after the status line is then only one LF long. | `HTTP/1.1 200 OK` LF LF parses to the body `"\n"`, not `""`. With no headers, a body such as `a` LF LF `b` makes `new` panic (index 1 of a one-element vector) instead of returning the body. | An empty header block: no headers, and the body is the text after the blank line. | not executed | Http.ParseStatusLineLiteral, Http.ParseStatusLineOnly, Http.ParseNoHeadersKeepsLf, Http.ParseNoHeadersBlankLinePanics | Http.ParseIntendedRender (on Http.ParseIntended) |
