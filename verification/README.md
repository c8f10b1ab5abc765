# yaml-lsp: validation and completion engine, modelled in Dafny

The repository is a small Language Server for YAML files. Its only logic lives
in `server/src/server.ts`:

- `validateYamlDocument` loads a document's text with js-yaml.
  - A syntax error becomes one positioned diagnostic.
  - Otherwise, when the loaded value is a non-null object, two rules run on the
    key `servername`. The presence rule reports a missing own key at the origin.
    The type rule reports a non-string value across the first line that
    `/^servername\s*:/` matches.
- The `onCompletion` handler offers the single `servername: ` completion when
  the key is absent. It judges absence by the object's own keys when loading
  gave an object. Otherwise it uses the multiline pattern
  `/^\s*servername\s*:/m` over the raw text.

The model is functional: immutable datatypes for loaded values, diagnostics and
completion items, and pure functions over `string` (`seq<char>`).

| file | module | contents |
|---|---|---|
| `wrappers.dfy` | `Wrappers` | `Option`, with `GetOr` for the `??` operator |
| `js_text.dfy` | `JsText` | the JavaScript `\s` class, `split(/\r?\n/)`, UTF-16 `length`, and lemmas about line splitting |
| `key_pattern.dfy` | `KeyPattern` | the two `servername` patterns. Each has a scanner (used by the server) and a regex-semantics definition, with equivalence lemmas |
| `yaml_value.dfy` | `YamlValue` | loaded JavaScript values, the abstract load outcome, `typeof`, `hasOwnProperty` |
| `lsp_types.dfy` | `LspTypes` | positions, ranges, diagnostics, completion items, documents |
| `server.dfy` | `YamlServer` | `Validate`, `ValidateYamlDocument`, `OnCompletion` and their parts |
| `server_properties.dfy` | `ServerProperties` | properties of validation and completion over all inputs, plus worked examples |

The YAML loader is a parameter, `Loader = string -> ParseOutcome`. A load either
gives a `Value` or a `ParseError(message, line, column)`. The line and column
are optional because the source reads them as `error.mark?.line ?? 0`. The
`Value` variants follow what js-yaml's default schema produces:

- strings, numbers, booleans, null and undefined (the result for an empty text);
- `Date` (from `!!timestamp`) and `Uint8Array` (from `!!binary`);
- arrays and plain objects.

`typeof` is `"object"` for null, Date, typed arrays, arrays and plain objects.
So an array root counts as an object, and it gets the missing-key diagnostic.
Validation and completion both call the loader on the same text. Because the
model treats the loader as a function, the two calls agree.

Behaviour of the code that a reader might not expect, modelled as written:

- The syntax-error range is `(line, col)`–`(line, col + 1)` and is not clamped
  to the line's length (`SyntaxErrorRangeUnclamped`).
- When no line matches `^servername\s*:`, the type diagnostic spans the whole
  of line 0. It is not the empty range at the origin.
- Completion still offers `servername` when the text fails to load, unless the
  multiline pattern matches (`CompletionOffersOnSyntaxError`).
- For `servername: 5` followed by a newline, the type diagnostic ends at
  character 13, which is the line's length. It does not end at 14
  (`ExampleNumberValue`).
- A lone `\r` does not end a line for `split(/\r?\n/)`, although it ends a
  line for the editor and for js-yaml. A key line after a lone `\r` is not
  found, and the type diagnostic covers line 0 as split (`ExampleLoneCr`).
- Completion's pattern accepts indentation and a key after a lone `\r` or
  U+2028. Validation's line search accepts neither. The two searches agree in
  one direction only (`KeyLineImpliesDeclaresKey`, `IndentedKeyOnlyDeclared`).

## Model

| member | source | states |
|---|---|---|
| JsText.SkipSpaces | server/src/server.ts:79 | the run `\s*` consumes: all of its characters are JavaScript white space or line terminators, and the character after it is not |
| JsText.Utf16Length | server/src/server.ts:88 | a line's JavaScript `length` lies between its code-point count and twice that, and equals the code-point count when every character is in the Basic Multilingual Plane; a single character counts 2 exactly when it lies outside that plane |
| JsText.Utf16Append | server/src/server.ts:88 | the `length` of a concatenation is the sum of the lengths; with the one-character case this fixes the `length` of every text as one unit per character plus one per character outside the Basic Multilingual Plane |
| JsText.SplitLines | server/src/server.ts:76 | `split(/\r?\n/)` yields at least one line, and no line contains a line feed |
| JsText.SplitAfterCrLf | server/src/server.ts:76 | a line without "\n" followed by "\r\n" splits off as exactly that line: "\r\n" is a separator and its "\r" is dropped, so `a\r\nb` gives `a` and `b` |
| JsText.SplitLinesCount | server/src/server.ts:76 | the number of lines is the number of line feeds plus one |
| JsText.JoinSplitLines | server/src/server.ts:76 | for a text without carriage returns, joining the lines with "\n" gives the text back |
| JsText.SplitJoinLines | server/src/server.ts:76 | joining lines that contain no "\n" (none but the last ending in "\r") and splitting again gives the same lines |
| JsText.SplitLinesLocated | server/src/server.ts:76 | every line occurs verbatim in the text, line 0 at offset 0 and each later line just after a "\n" |
| KeyPattern.IsKeyLineIff | server/src/server.ts:79 | the line scanner accepts exactly the lines the regex `^servername\s*:` matches, under backtracking semantics |
| KeyPattern.KeyLineNeedsKeyAtStart | server/src/server.ts:79 | a line not starting with the key's first letter (a comment, indentation, a list dash) never matches, and neither does a longer key such as `servername2` |
| KeyPattern.DeclaresKeyIff | server/src/server.ts:119-120 | the text scanner holds exactly when `/^\s*servername\s*:/m` matches: a line start, white space that may cross lines, the key, white space, a colon |
| KeyPattern.KeyLineImpliesDeclaresKey | server/src/server.ts:76-120 | if validation's per-line search finds the key on any line, then completion's multiline pattern also matches the text |
| KeyPattern.DeclaresKeyMentionsKey | server/src/server.ts:119-120 | `/^\s*servername\s*:/m` matches only a text in which `servername` is written out at some offset |
| KeyPattern.IndentedKeyOnlyDeclared | server/src/server.ts:79-120 | the converse fails: a one-line text holding the key indented by a space, then a colon, matches completion's pattern but matches validation's line pattern on no line |
| YamlValue.TypeOf | server/src/server.ts:60 | `typeof` is "string" exactly for strings and "undefined" exactly for undefined; it is "object" exactly for null, Date, typed arrays, arrays and plain objects |
| YamlValue.LetterKeyNotOwnedBySeq | server/src/server.ts:62 | an array or typed array never has an own property named by a key other than `length` that does not start with a digit, so an array root lacks `servername` |
| YamlServer.SyntaxErrorDiagnostic | server/src/server.ts:45-55 | the syntax-error diagnostic is an Error. It starts at the mark's line and column, each 0 when absent. It is one character wide on one line, and its message ends with the parser's message |
| YamlServer.KeyLineIndex | server/src/server.ts:76-83 | the line found is the first line matching `^servername\s*:`, or 0 when none matches; it is a valid line index whenever there is a line |
| YamlServer.NotStringDiagnostic | server/src/server.ts:84-92 | the type diagnostic lies on an existing line of the text and spans it from character 0 to the line's UTF-16 length |
| YamlServer.Validate | server/src/server.ts:37-97 | at most one diagnostic. Every diagnostic is an Error from source `yaml-lsp`. A syntax error always yields exactly one, whose message ends with the parser's message |
| YamlServer.ValidateYamlDocument | server/src/server.ts:37-96 | the diagnostics are published for the document's own URI. There is at most one, and exactly one when the text fails to load |
| YamlServer.OnCompletion | server/src/server.ts:99-134 | an unknown document gets no items. Otherwise the result is empty or the single `servername` item, whose insert text is `servername: ` |
| ServerProperties.SyntaxErrorShortCircuits | server/src/server.ts:44-57 | a syntax error yields exactly one Error diagnostic at `(line,col)`–`(line,col+1)`, with defaults 0, and its message ends with the parser's message; no rule runs |
| ServerProperties.SyntaxErrorRangeUnclamped | server/src/server.ts:45-51 | the syntax-error range can fall outside the document, because the column is not clamped to the line |
| ServerProperties.NonObjectRootIsClean | server/src/server.ts:60 | a root that is a string, number, boolean, null or undefined produces no diagnostic |
| ServerProperties.MissingKeyReported | server/src/server.ts:62-71 | an object root without an own `servername` yields exactly the missing-key diagnostic, with the empty range at (0,0) |
| ServerProperties.SequenceRootMissesKey | server/src/server.ts:60-71 | an array root always yields the missing-key diagnostic |
| ServerProperties.PresentKeyTypeRule | server/src/server.ts:72-93 | with `servername` present, validation is clean exactly when the value is a string; otherwise it yields exactly the type diagnostic |
| ServerProperties.RulesExclusive | server/src/server.ts:62-94 | no document gets both the presence and the type diagnostic, and none gets more than one diagnostic |
| ServerProperties.ValidateCleanIff | server/src/server.ts:37-97 | validation is clean exactly when the text loads and the root is outside the rules' domain or binds `servername` to a string |
| ServerProperties.NotStringLineIsFirstKeyLine | server/src/server.ts:76-83 | the type diagnostic's line is the first line the regex `^servername\s*:` matches (regex semantics), or line 0 when none does |
| ServerProperties.RuleDiagnosticsWithinDocument | server/src/server.ts:60-94 | every diagnostic of a successfully loaded text lies within the lines `split(/\r?\n/)` yields and within their lengths |
| ServerProperties.CompletionAgreesWithValidation | server/src/server.ts:116-123 | for an object root, completion offers `servername` exactly when validation reports it missing |
| ServerProperties.CompletionFallback | server/src/server.ts:109-123 | when loading fails or gives a non-object, completion offers the item exactly when `/^\s*servername\s*:/m` does not match the text |
| ServerProperties.CompletionOffersOnSyntaxError | server/src/server.ts:109-131 | every text that fails to load and in which `servername` occurs at no offset gets the completion item as well as one syntax diagnostic |
| ServerProperties.AnchoredKeySilencesFallback | server/src/server.ts:76-121 | when loading gives no object and some line matches the type rule's anchored pattern, completion offers nothing |
| ServerProperties.KeyOnFirstLineReported | server/src/server.ts:74-92 | for every text whose first line (after splitting on `\r?\n`, so with or without a line break after it) is a key line, a non-string value gives the one diagnostic spanning exactly that line, (0,0) to (0, its `length`), and completion offers nothing |
| ServerProperties.ExampleNumberValue | server/src/server.ts:73-92 | `servername: 5` plus a newline loaded as a number gives one type diagnostic over (0,0)–(0,13) and no completion |
| ServerProperties.ExampleNumberValueCrLf | server/src/server.ts:73-92 | the same line ended by "\r\n" gives the same diagnostic, (0,0)–(0,13): the carriage return is not counted |
| ServerProperties.ExampleLoneCr | server/src/server.ts:76-92 | `a: 1`, a lone "\r", then `servername: 5` is one split line that is not a key line, so the type diagnostic spans (0,0)–(0,18) over the carriage return and the key |
| ServerProperties.ExampleMissingKey | server/src/server.ts:62-131 | a text that loads as the mapping `foo: bar` gives the missing-key diagnostic and the one completion item |

## Left out

- The YAML grammar and js-yaml's `load`. The parser is a foreign library, so a load is an abstract `ParseOutcome` supplied by a `Loader` parameter.
- The LSP plumbing (`createConnection`, `TextDocuments`, the `onInitialize` capabilities and trigger characters, `onDidChangeContent`, `sendDiagnostics`, `listen`; server.ts:17-35). This is transport and I/O. Validation returns the `PublishDiagnosticsParams` it would send.
- The document registry behind `documents.get`. It is the state of the external document layer, so `OnCompletion` takes the lookup's result as an `Option<TextDocument>`. The completion request's position is unused by the source and is not a parameter.
- `client/src/extention.ts`, the VS Code extension activation and process setup. It has no logic.
- Number values. A `Num` carries no value, because the server only asks `typeof`.
- The meaning of the messages. The Japanese texts are kept verbatim as constants, and only the syntax-error message's relation to the parser's message is stated.
- Text with unpaired UTF-16 surrogates. `string` is a sequence of Unicode scalar values, and the JavaScript `length` is recovered by `Utf16Length`.
- ServerProperties.RuleDiagnosticsWithinDocument: bounds the diagnostics by the lines `split(/\r?\n/)` yields, not by the editor's lines. The editor also ends a line at a lone "\r", but the split does not. A text with lone carriage returns can therefore get the type diagnostic on the wrong editor line and past that line's end (`ExampleLoneCr`). Editor line numbering is not modelled.
