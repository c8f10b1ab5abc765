/** The YAML language server's logic: validating a document against the
    `servername` rules and offering the `servername` completion. The parser
    is a parameter (`Loader`), and publishing the diagnostics is left to the
    caller: validation returns what would be published. */
module YamlServer {
  import opened Wrappers
  import opened JsText
  import opened KeyPattern
  import opened YamlValue
  import opened LspTypes

  /** The `source` of every diagnostic. */
  const Source: string := "yaml-lsp"
  /** Put in front of the parser's own message on a syntax error. */
  const SyntaxErrorPrefix: string := "YAMLの構文エラー: "
  const MissingKeyMessage: string := "必須のキー'servername'が存在しません"
  const NotStringMessage: string := "キー'servername'の値は文字列である必要があります。"
  const ServerNameDetail: string := "サーバ名（文字列）を指定する必須プロパティ"

  /** The YAML loader: the text's value, or the error it throws. */
  type Loader = string -> ParseOutcome

  predicate IsSuffix(suffix: string, s: string) {
    |suffix| <= |s| && s[|s| - |suffix|..] == suffix
  }

  /** The one diagnostic reported for a syntax error: one character wide at
      the error's mark, line and column 0 when the mark lacks them. */
  function SyntaxErrorDiagnostic(message: string, line: Option<nat>, column: Option<nat>): (d: Diagnostic)
    ensures d.severity == Error && d.source == Source
    ensures line.Some? ==> d.range.start.line == line.value
    ensures line.None? ==> d.range.start.line == 0
    ensures column.Some? ==> d.range.start.character == column.value
    ensures column.None? ==> d.range.start.character == 0
    ensures d.range.end.line == d.range.start.line
    ensures d.range.end.character == d.range.start.character + 1
    ensures IsSuffix(message, d.message)
  {
    var l := line.GetOr(0);
    var c := column.GetOr(0);
    Diagnostic(Error, Range(Position(l, c), Position(l, c + 1)), SyntaxErrorPrefix + message, Source)
  }

  /** The diagnostic for a mapping without the required key, at the origin. */
  const MissingKeyDiagnostic: Diagnostic :=
    Diagnostic(Error, Range(Position(0, 0), Position(0, 0)), MissingKeyMessage, Source)

  /** The index of the first line at or after `i` that `/^servername\s*:/`
      matches, or `|lines|` when there is none. */
  function FirstKeyLineFrom(lines: seq<string>, i: nat): (k: nat)
    requires i <= |lines|
    ensures i <= k <= |lines|
    ensures k < |lines| ==> IsKeyLine(lines[k])
    ensures forall j :: i <= j < k ==> !IsKeyLine(lines[j])
    decreases |lines| - i
  {
    if i == |lines| then |lines|
    else if IsKeyLine(lines[i]) then i
    else FirstKeyLineFrom(lines, i + 1)
  }

  /** The line the type diagnostic is put on: the first line of the text that
      `/^servername\s*:/` matches, and line 0 when none does. */
  function KeyLineIndex(lines: seq<string>): (k: nat)
    ensures |lines| > 0 ==> k < |lines|
    ensures (exists j :: 0 <= j < |lines| && IsKeyLine(lines[j])) ==>
      k < |lines| && IsKeyLine(lines[k]) && forall j :: 0 <= j < k ==> !IsKeyLine(lines[j])
    ensures (forall j :: 0 <= j < |lines| ==> !IsKeyLine(lines[j])) ==> k == 0
  {
    var k := FirstKeyLineFrom(lines, 0);
    if k < |lines| then k else 0
  }

  /** The diagnostic for a `servername` value that is not a string: it spans
      the whole of the line found by KeyLineIndex. */
  function NotStringDiagnostic(text: string): (d: Diagnostic)
    ensures d.severity == Error && d.source == Source && d.message == NotStringMessage
    ensures d.range.start.line < |SplitLines(text)|
    ensures d.range.end.line == d.range.start.line
    ensures d.range.start.character == 0
    ensures d.range.end.character == Utf16Length(SplitLines(text)[d.range.start.line])
  {
    var lines := SplitLines(text);
    var k := KeyLineIndex(lines);
    Diagnostic(Error, Range(Position(k, 0), Position(k, Utf16Length(lines[k]))), NotStringMessage, Source)
  }

  /** The diagnostics of one document, given what loading its text gave. */
  function Validate(parsed: ParseOutcome, text: string): (ds: seq<Diagnostic>)
    ensures |ds| <= 1
    ensures forall d :: d in ds ==> d.severity == Error && d.source == Source
    ensures parsed.ParseError? ==> |ds| == 1 && IsSuffix(parsed.message, ds[0].message)
  {
    match parsed
    case ParseError(message, line, column) =>
      [SyntaxErrorDiagnostic(message, line, column)]
    case Loaded(root) =>
      if !IsNonNullObject(root) then []
      else if !HasOwnProperty(root, ServerName) then [MissingKeyDiagnostic]
      else if TypeOf(GetProperty(root, ServerName)) != JsString then [NotStringDiagnostic(text)]
      else []
  }

  /** What validating a changed document publishes: its diagnostics, for its URI. */
  function ValidateYamlDocument(doc: TextDocument, load: Loader): (p: PublishDiagnosticsParams)
    ensures p.uri == doc.uri
    ensures |p.diagnostics| <= 1
    ensures load(doc.text).ParseError? ==> |p.diagnostics| == 1
  {
    PublishDiagnosticsParams(doc.uri, Validate(load(doc.text), doc.text))
  }

  /** The single completion the server knows. */
  const ServerNameItem: CompletionItem :=
    CompletionItem(ServerName, Property, ServerName + ": ", PlainText, ServerNameDetail)

  /** Whether completion considers the key present: from the loaded object's
      own keys when loading gave an object, and otherwise (a failed load
      counts as null) from the multiline pattern over the text. */
  predicate HasServerName(parsed: ParseOutcome, text: string) {
    var data := if parsed.Loaded? then parsed.root else Null;
    if IsNonNullObject(data) then HasOwnProperty(data, ServerName)
    else DeclaresKey(text)
  }

  /** The completion items for a document; none for a document that is not open. */
  function OnCompletion(doc: Option<TextDocument>, load: Loader): (items: seq<CompletionItem>)
    ensures doc.None? ==> items == []
    ensures items == [] || items == [ServerNameItem]
    ensures forall it :: it in items ==> it.caption == ServerName && it.insertText == ServerName + ": "
  {
    match doc
    case None => []
    case Some(d) =>
      if HasServerName(load(d.text), d.text) then [] else [ServerNameItem]
  }
}
