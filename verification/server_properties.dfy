/** What the server promises about its diagnostics and completions, stated
    for every parse outcome and every text. */
module ServerProperties {
  import opened Wrappers
  import opened JsText
  import opened KeyPattern
  import opened YamlValue
  import opened LspTypes
  import opened YamlServer

  /** A range lies inside the text: both ends on an existing line (after
      splitting on "\r?\n") and at most that line's length from its start. */
  predicate WithinDocument(r: Range, text: string) {
    var lines := SplitLines(text);
    && r.start.line < |lines|
    && r.end.line < |lines|
    && r.start.character <= Utf16Length(lines[r.start.line])
    && r.end.character <= Utf16Length(lines[r.end.line])
  }

  /** A syntax error stops validation with exactly one diagnostic, one
      character wide at the parser's mark (line and column default to 0),
      whose message ends with the parser's message. */
  lemma {:induction false} SyntaxErrorShortCircuits(message: string, line: Option<nat>, column: Option<nat>, text: string)
    ensures var ds := Validate(ParseError(message, line, column), text);
      && |ds| == 1
      && ds[0].severity == Error
      && ds[0].range == Range(Position(line.GetOr(0), column.GetOr(0)),
                              Position(line.GetOr(0), column.GetOr(0) + 1))
      && IsSuffix(message, ds[0].message)
  {
  }

  /** The syntax-error range is not clamped to the text: a mark past the end
      of a line yields a range outside the document. */
  lemma {:induction false} SyntaxErrorRangeUnclamped()
    ensures var ds := Validate(ParseError("unexpected end of the stream", Some(0), Some(3)), "a: ");
      |ds| == 1 && !WithinDocument(ds[0].range, "a: ")
  {
    var text := "a: ";
    assert '\n' !in text;
    SplitSingleLine(text);
  }

  /** A root that is not a non-null object (a string, number, boolean, null,
      or undefined from an empty text) produces no diagnostic. */
  lemma {:induction false} NonObjectRootIsClean(root: Value, text: string)
    requires !IsNonNullObject(root)
    ensures Validate(Loaded(root), text) == []
  {
  }

  /** An object root without an own `servername` gets exactly the
      missing-key diagnostic, at line 0, character 0, of zero width. */
  lemma {:induction false} MissingKeyReported(root: Value, text: string)
    requires IsNonNullObject(root) && !HasOwnProperty(root, ServerName)
    ensures Validate(Loaded(root), text) == [MissingKeyDiagnostic]
    ensures MissingKeyDiagnostic.range == Range(Position(0, 0), Position(0, 0))
  {
  }

  /** A sequence root is an object to `typeof`, so it is reported as
      missing the key rather than ignored. */
  lemma {:induction false} SequenceRootMissesKey(items: seq<Value>, text: string)
    ensures Validate(Loaded(Seq(items)), text) == [MissingKeyDiagnostic]
  {
    LetterKeyNotOwnedBySeq(items, [], ServerName);
  }

  /** With `servername` present, the document is clean exactly when its value
      is a string, and otherwise gets exactly the type diagnostic. */
  lemma {:induction false} PresentKeyTypeRule(root: Value, text: string)
    requires IsNonNullObject(root) && HasOwnProperty(root, ServerName)
    ensures Validate(Loaded(root), text) == [] <==> GetProperty(root, ServerName).Str?
    ensures !GetProperty(root, ServerName).Str? ==> Validate(Loaded(root), text) == [NotStringDiagnostic(text)]
  {
  }

  /** The two rules exclude each other: no document gets both the
      missing-key and the type diagnostic, and none gets two diagnostics. */
  lemma {:induction false} RulesExclusive(parsed: ParseOutcome, text: string)
    ensures |Validate(parsed, text)| <= 1
    ensures !(MissingKeyDiagnostic in Validate(parsed, text) && NotStringDiagnostic(text) in Validate(parsed, text))
  {
    assert MissingKeyDiagnostic.message != NotStringDiagnostic(text).message;
  }

  /** Validation is clean exactly when loading succeeded and the root is
      either outside the rules' domain or binds `servername` to a string. */
  lemma {:induction false} ValidateCleanIff(parsed: ParseOutcome, text: string)
    ensures Validate(parsed, text) == [] <==>
      && parsed.Loaded?
      && (!IsNonNullObject(parsed.root)
          || (HasOwnProperty(parsed.root, ServerName) && GetProperty(parsed.root, ServerName).Str?))
  {
  }

  /** The type diagnostic sits on the first line that `/^servername\s*:/`
      matches, or on line 0 when no line does; a key behind a comment marker,
      indentation or another key never counts. */
  lemma {:induction false} NotStringLineIsFirstKeyLine(text: string)
    ensures var lines := SplitLines(text);
      var l := NotStringDiagnostic(text).range.start.line;
      && l < |lines|
      && (forall j :: 0 <= j < l ==> !KeyLineRegex(lines[j]))
      && ((exists j :: 0 <= j < |lines| && KeyLineRegex(lines[j])) ==> KeyLineRegex(lines[l]))
      && ((forall j :: 0 <= j < |lines| ==> !KeyLineRegex(lines[j])) ==> l == 0)
  {
    var lines := SplitLines(text);
    forall j | 0 <= j < |lines| {
      IsKeyLineIff(lines[j]);
    }
  }

  /** Every diagnostic of a successfully loaded document lies within the
      lines `split(/\r?\n/)` yields, and within those lines' lengths. A lone
      "\r" does not end such a line (see `ExampleLoneCr`). */
  lemma {:induction false} RuleDiagnosticsWithinDocument(root: Value, text: string)
    ensures forall d :: d in Validate(Loaded(root), text) ==> WithinDocument(d.range, text)
  {
  }

  /** For an object root, completion offers `servername` exactly when
      validation reports it missing: both ask the same own-property question. */
  lemma {:induction false} CompletionAgreesWithValidation(doc: TextDocument, load: Loader)
    requires load(doc.text).Loaded? && IsNonNullObject(load(doc.text).root)
    ensures OnCompletion(Some(doc), load) == [ServerNameItem] <==>
            ValidateYamlDocument(doc, load).diagnostics == [MissingKeyDiagnostic]
  {
    var root := load(doc.text).root;
    if HasOwnProperty(root, ServerName) {
      assert NotStringDiagnostic(doc.text).message != MissingKeyDiagnostic.message;
    }
  }

  /** When loading fails or gives no object, completion offers `servername`
      exactly when `/^\s*servername\s*:/m` does not match the text. */
  lemma {:induction false} CompletionFallback(doc: TextDocument, load: Loader)
    requires !(load(doc.text).Loaded? && IsNonNullObject(load(doc.text).root))
    ensures OnCompletion(Some(doc), load) == [ServerNameItem] <==> !MultilineKeyRegex(doc.text)
    ensures OnCompletion(Some(doc), load) == [] <==> MultilineKeyRegex(doc.text)
  {
    DeclaresKeyIff(doc.text);
  }

  /** Completion is not silenced by a syntax error: a text that fails to load
      and never mentions the key still gets the suggestion, while validation
      reports the syntax error. */
  lemma {:induction false} CompletionOffersOnSyntaxError(doc: TextDocument, load: Loader)
    requires load(doc.text).ParseError?
    requires forall q :: !MentionsKeyAt(doc.text, q)
    ensures OnCompletion(Some(doc), load) == [ServerNameItem]
    ensures |ValidateYamlDocument(doc, load).diagnostics| == 1
  {
    DeclaresKeyMentionsKey(doc.text);
  }

  /** A text that validation anchors on also satisfies completion's pattern,
      so for a failed load completion stays silent whenever the type rule's
      line search would have found the key. */
  lemma {:induction false} AnchoredKeySilencesFallback(doc: TextDocument, load: Loader, i: nat)
    requires !(load(doc.text).Loaded? && IsNonNullObject(load(doc.text).root))
    requires i < |SplitLines(doc.text)| && KeyLineRegex(SplitLines(doc.text)[i])
    ensures OnCompletion(Some(doc), load) == []
  {
    IsKeyLineIff(SplitLines(doc.text)[i]);
    KeyLineImpliesDeclaresKey(doc.text, i);
  }

  /** When the first line of the text is the key line, the type diagnostic
      covers exactly that line, and completion offers nothing. */
  lemma {:induction false} KeyOnFirstLineReported(doc: TextDocument, load: Loader)
    requires IsKeyLine(SplitLines(doc.text)[0])
    requires load(doc.text).Loaded? && IsNonNullObject(load(doc.text).root)
    requires HasOwnProperty(load(doc.text).root, ServerName)
    requires !GetProperty(load(doc.text).root, ServerName).Str?
    ensures ValidateYamlDocument(doc, load).diagnostics ==
      [Diagnostic(Error, Range(Position(0, 0), Position(0, Utf16Length(SplitLines(doc.text)[0]))), NotStringMessage, Source)]
    ensures OnCompletion(Some(doc), load) == []
  {
    assert KeyLineIndex(SplitLines(doc.text)) == 0;
  }

  /** `servername: 5` followed by a newline: one type diagnostic covering
      all 13 characters of line 0, and no completion. */
  lemma {:induction false} ExampleNumberValue(doc: TextDocument, line: string, load: Loader)
    requires line == "servername: 5" && doc.text == line + "\n"
    requires load(doc.text) == Loaded(Map(map[ServerName := Num]))
    ensures ValidateYamlDocument(doc, load).diagnostics ==
      [Diagnostic(Error, Range(Position(0, 0), Position(0, 13)), NotStringMessage, Source)]
    ensures OnCompletion(Some(doc), load) == []
  {
    ExampleLine(line);
    assert doc.text == line + "\n" + "";
    SplitAfterLine(line, "");
    KeyOnFirstLineReported(doc, load);
  }

  /** The same line ended by "\r\n": the carriage return is not part of the
      line, so the diagnostic still ends at character 13. */
  lemma {:induction false} ExampleNumberValueCrLf(doc: TextDocument, line: string, load: Loader)
    requires line == "servername: 5" && doc.text == line + "\r\n"
    requires load(doc.text) == Loaded(Map(map[ServerName := Num]))
    ensures ValidateYamlDocument(doc, load).diagnostics ==
      [Diagnostic(Error, Range(Position(0, 0), Position(0, 13)), NotStringMessage, Source)]
    ensures OnCompletion(Some(doc), load) == []
  {
    ExampleLine(line);
    assert doc.text == line + "\r\n" + "";
    SplitAfterCrLf(line, "");
    KeyOnFirstLineReported(doc, load);
  }

  lemma {:induction false} ExampleLine(line: string)
    requires line == "servername: 5"
    ensures IsKeyLine(line) && '\n' !in line && !EndsWithCr(line) && Utf16Length(line) == 13
  {
    KeyThenColon(line, ": 5");
  }

  /** A key line after a lone "\r": the split yields one line, which is not
      a key line, so the type diagnostic falls back to line 0 and spans all
      18 units of the text, carriage return and key included. */
  lemma {:induction false} ExampleLoneCr(doc: TextDocument, line: string, load: Loader)
    requires line == "a: 1\rservername: 5" && doc.text == line
    requires load(doc.text) == Loaded(Map(map["a" := Num, ServerName := Num]))
    ensures ValidateYamlDocument(doc, load).diagnostics ==
      [Diagnostic(Error, Range(Position(0, 0), Position(0, 18)), NotStringMessage, Source)]
  {
    ExampleCrLine(line);
    SplitSingleLine(line);
    var lines := SplitLines(doc.text);
    assert lines == [line];
    assert KeyLineIndex(lines) == 0;
  }

  lemma {:induction false} ExampleCrLine(line: string)
    requires line == "a: 1\rservername: 5"
    ensures !IsKeyLine(line) && '\n' !in line && Utf16Length(line) == 18
  {
    assert line[0] == 'a';
    KeyLineNeedsKeyAtStart(line);
    IsKeyLineIff(line);
  }

  /** `foo: bar`: the missing-key diagnostic, and the one completion item. */
  lemma {:induction false} ExampleMissingKey(doc: TextDocument, load: Loader)
    requires load(doc.text) == Loaded(Map(map["foo" := Str("bar")]))
    ensures ValidateYamlDocument(doc, load).diagnostics == [MissingKeyDiagnostic]
    ensures OnCompletion(Some(doc), load) == [ServerNameItem]
  {
  }
}
