/** The Language Server Protocol records the server produces. */
module LspTypes {

  /** Zero-based line and character offsets; characters count UTF-16 code units. */
  datatype Position = Position(line: nat, character: nat)

  /** A range whose end is exclusive. */
  datatype Range = Range(start: Position, end: Position)

  datatype DiagnosticSeverity = Error | Warning | Information | Hint

  datatype Diagnostic = Diagnostic(
    severity: DiagnosticSeverity,
    range: Range,
    message: string,
    source: string)

  datatype CompletionItemKind = Property

  datatype InsertTextFormat = PlainText | Snippet

  /** `caption` is the protocol's `label` field (`label` is a Dafny keyword). */
  datatype CompletionItem = CompletionItem(
    caption: string,
    kind: CompletionItemKind,
    insertText: string,
    insertTextFormat: InsertTextFormat,
    detail: string)

  /** An open document as the document layer hands it over. */
  datatype TextDocument = TextDocument(uri: string, text: string)

  /** The diagnostics published for one document, replacing earlier ones. */
  datatype PublishDiagnosticsParams = PublishDiagnosticsParams(uri: string, diagnostics: seq<Diagnostic>)
}
