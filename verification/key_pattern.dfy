/** The two regular expressions the server uses to look for the required key
    in the raw text: `/^servername\s*:/` applied to one line (validation) and
    `/^\s*servername\s*:/m` applied to the whole text (completion). Each is
    computed by a scanner and defined a second time by its matching
    semantics, with a lemma tying the two together. */
module KeyPattern {
  import opened JsText

  /** The one required key of the rule set. */
  const ServerName: string := "servername"

  predicate StartsWithKey(s: string) {
    |s| >= |ServerName| && s[..|ServerName|] == ServerName
  }

  /** Scanner for `/^servername\s*:/.test(line)`: the key at offset 0, then
      the longest run of `\s`, then a colon. */
  predicate IsKeyLine(line: string) {
    && StartsWithKey(line)
    && var rest := line[|ServerName|..];
       var j := SkipSpaces(rest);
       j < |rest| && rest[j] == ':'
  }

  /** The regular expression matches `line` with its colon at offset `k`. */
  ghost predicate KeyLineMatchAt(line: string, k: int) {
    && |ServerName| <= k < |line|
    && line[..|ServerName|] == ServerName
    && AllJsSpace(line[|ServerName|..k])
    && line[k] == ':'
  }

  /** `/^servername\s*:/` matches `line` (backtracking semantics). */
  ghost predicate KeyLineRegex(line: string) {
    exists k :: KeyLineMatchAt(line, k)
  }

  lemma {:induction false} IsKeyLineIff(line: string)
    ensures IsKeyLine(line) <==> KeyLineRegex(line)
  {
    if IsKeyLine(line) {
      KeyLineWitness(line);
    }
    if KeyLineRegex(line) {
      var k :| KeyLineMatchAt(line, k);
      KeyLineFromWitness(line, k);
    }
  }

  /** The scanner's colon is a match of the regular expression. */
  lemma {:induction false} KeyLineWitness(line: string)
    requires IsKeyLine(line)
    ensures KeyLineMatchAt(line, |ServerName| + SkipSpaces(line[|ServerName|..]))
  {
    var n := |ServerName|;
    var rest := line[n..];
    var j := SkipSpaces(rest);
    SubSlice(line, n, 0, j);
    assert rest[..j] == rest[0..j];
    assert rest[j] == line[n + j];
  }

  /** Any match of the regular expression is found by the scanner. */
  lemma {:induction false} KeyLineFromWitness(line: string, k: int)
    requires KeyLineMatchAt(line, k)
    ensures IsKeyLine(line)
  {
    var n := |ServerName|;
    var rest := line[n..];
    SubSlice(line, n, 0, k - n);
    assert rest[..k - n] == rest[0..k - n];
    assert rest[k - n] == line[k];
    SkipSpacesUnique(rest, k - n);
  }

  /** The key followed by a tail that starts with a colon is a key line. */
  lemma {:induction false} KeyThenColon(line: string, tail: string)
    requires line == ServerName + tail && |tail| > 0 && tail[0] == ':'
    ensures IsKeyLine(line)
  {
    assert line[..|ServerName|] == ServerName;
    assert line[|ServerName|..] == tail;
    SkipSpacesUnique(tail, 0);
  }

  /** Only a key written at the very start of a line counts: a line that
      starts with anything but the key's first letter (a comment marker,
      indentation, a nested key's dash) never matches `/^servername\s*:/`,
      and neither does a longer key such as `servername2`. */
  lemma KeyLineNeedsKeyAtStart(line: string)
    ensures |line| > 0 && line[0] != 's' ==> !KeyLineRegex(line)
    ensures StartsWithKey(line) && |line| > |ServerName| && !IsJsSpace(line[|ServerName|]) && line[|ServerName|] != ':'
            ==> !KeyLineRegex(line)
  {
    IsKeyLineIff(line);
    if StartsWithKey(line) && |line| > |ServerName| && !IsJsSpace(line[|ServerName|]) {
      assert SkipSpaces(line[|ServerName|..]) == 0;
    }
  }

  /** `^` of a multiline pattern matches at offset `p` of `text`. */
  predicate AtLineStart(text: string, p: int) {
    p == 0 || (0 < p <= |text| && IsLineTerminator(text[p - 1]))
  }

  /** Scanner for `/^\s*servername\s*:/m.test(text)`: some line start from
      which, after the longest run of `\s` (which may cross line breaks),
      the text reads as a key line. */
  predicate DeclaresKey(text: string) {
    exists p | 0 <= p <= |text| ::
      AtLineStart(text, p) && IsKeyLine(text[p..][SkipSpaces(text[p..])..])
  }

  /** The multiline regular expression matches with `^` at `p`, the key at
      `k1` and the colon at `k2`. */
  ghost predicate MultilineMatchAt(text: string, p: int, k1: int, k2: int) {
    && 0 <= p <= k1
    && k1 + |ServerName| <= k2 < |text|
    && AtLineStart(text, p)
    && AllJsSpace(text[p..k1])
    && text[k1..k1 + |ServerName|] == ServerName
    && AllJsSpace(text[k1 + |ServerName|..k2])
    && text[k2] == ':'
  }

  /** `/^\s*servername\s*:/m` matches `text` (backtracking semantics). */
  ghost predicate MultilineKeyRegex(text: string) {
    exists p, k1, k2 :: MultilineMatchAt(text, p, k1, k2)
  }

  lemma {:induction false} DeclaresKeyIff(text: string)
    ensures DeclaresKey(text) <==> MultilineKeyRegex(text)
  {
    if DeclaresKey(text) {
      var p :| 0 <= p <= |text| && AtLineStart(text, p) && IsKeyLine(text[p..][SkipSpaces(text[p..])..]);
      ScannerMatchIsRegexMatch(text, p);
    }
    if MultilineKeyRegex(text) {
      var p, k1, k2 :| MultilineMatchAt(text, p, k1, k2);
      RegexMatchIsScannerMatch(text, p, k1, k2);
    }
  }

  /** A key line found at offset `k1` of `text`, after spaces that start at
      a line start `p`, is a match of the multiline expression. */
  lemma {:induction false} MatchFromKeyLine(text: string, p: int, k1: int, len: int, k: int)
    requires 0 <= p <= k1 && 0 <= len && k1 + len <= |text|
    requires AtLineStart(text, p) && AllJsSpace(text[p..k1])
    requires KeyLineMatchAt(text[k1..k1 + len], k)
    ensures MultilineMatchAt(text, p, k1, k1 + k)
  {
    var n := |ServerName|;
    var line := text[k1..k1 + len];
    assert line[..n] == line[0..n];
    WindowSlice(text, k1, len, 0, n);
    WindowSlice(text, k1, len, n, k);
    assert line[k] == text[k1 + k];
  }

  lemma {:induction false} ScannerMatchIsRegexMatch(text: string, p: int)
    requires 0 <= p <= |text| && AtLineStart(text, p)
    requires IsKeyLine(text[p..][SkipSpaces(text[p..])..])
    ensures MultilineKeyRegex(text)
  {
    var n := |ServerName|;
    var j := SkipSpaces(text[p..]);
    var line := text[p..][j..];
    KeyLineWitness(line);
    var k := n + SkipSpaces(line[n..]);
    assert line == text[p + j..p + j + |line|];
    SubSlice(text, p, 0, j);
    assert text[p..][..j] == text[p..][0..j];
    MatchFromKeyLine(text, p, p + j, |line|, k);
  }

  lemma {:induction false} RegexMatchIsScannerMatch(text: string, p: int, k1: int, k2: int)
    requires MultilineMatchAt(text, p, k1, k2)
    ensures DeclaresKey(text)
  {
    var tail := text[p..];
    SubSlice(text, p, 0, k1 - p);
    assert tail[..k1 - p] == tail[0..k1 - p];
    assert tail[k1 - p] == text[k1] == ServerName[0];
    SkipSpacesUnique(tail, k1 - p);
    assert tail[k1 - p..] == text[k1..];
    KeyLineOfMatch(text, p, k1, k2);
    KeyLineFromWitness(text[k1..], k2 - k1);
    assert AtLineStart(text, p) && IsKeyLine(text[p..][SkipSpaces(text[p..])..]);
  }

  /** From the key of a multiline match on, the text reads as a key line. */
  lemma {:induction false} KeyLineOfMatch(text: string, p: int, k1: int, k2: int)
    requires MultilineMatchAt(text, p, k1, k2)
    ensures KeyLineMatchAt(text[k1..], k2 - k1)
  {
    var n := |ServerName|;
    var line := text[k1..];
    SubSlice(text, k1, 0, n);
    SubSlice(text, k1, n, k2 - k1);
    assert line[..n] == line[0..n];
    assert line[k2 - k1] == text[k2];
  }

  /** Whenever validation's per-line search finds the key on some line of
      `text`, completion's multiline pattern also matches `text`. */
  lemma {:induction false} KeyLineImpliesDeclaresKey(text: string, i: nat)
    requires i < |SplitLines(text)| && IsKeyLine(SplitLines(text)[i])
    ensures DeclaresKey(text)
  {
    var n := |ServerName|;
    var line := SplitLines(text)[i];
    SplitLinesLocated(text, i);
    var p: nat :| LineLocated(text, i, p, line);
    KeyLineWitness(line);
    var k := n + SkipSpaces(line[n..]);
    assert AllJsSpace(text[p..p]);
    MatchFromKeyLine(text, p, p, |line|, k);
    RegexMatchIsScannerMatch(text, p, p, p + k);
  }

  /** The converse fails: an indented key line satisfies completion's pattern
      while no line satisfies validation's anchored one. */
  lemma {:induction false} IndentedKeyOnlyDeclared(text: string, tail: string)
    requires text == " " + ServerName + tail
    requires |tail| > 0 && tail[0] == ':' && '\n' !in tail
    ensures DeclaresKey(text)
    ensures forall i :: 0 <= i < |SplitLines(text)| ==> !IsKeyLine(SplitLines(text)[i])
  {
    var line := ServerName + tail;
    assert text == " " + line;
    assert '\n' !in text by {
      forall i | 0 <= i < |text| ensures text[i] != '\n' {
        if i > |ServerName| {
          assert text[i] == tail[i - 1 - |ServerName|];
        }
      }
    }
    SplitSingleLine(text);
    assert !StartsWithKey(text) by {
      assert text[0] == ' ' != ServerName[0];
    }
    KeyThenColon(line, tail);
    assert text[1] == line[0] == 's';
    assert AllJsSpace(text[..1]) by {
      assert text[..1] == " ";
    }
    SkipSpacesUnique(text, 1);
    assert text[0..] == text;
    assert text[1..] == line;
    assert AtLineStart(text, 0) && IsKeyLine(text[0..][SkipSpaces(text[0..])..]);
  }

  /** The key is written out in `text` starting at offset `q`. */
  predicate MentionsKeyAt(text: string, q: int) {
    0 <= q <= |text| && StartsWithKey(text[q..])
  }

  /** Completion's pattern matches only a text in which the key is written
      out somewhere. */
  lemma {:induction false} DeclaresKeyMentionsKey(text: string)
    ensures DeclaresKey(text) ==> exists q :: MentionsKeyAt(text, q)
  {
    if DeclaresKey(text) {
      var p :| 0 <= p <= |text| && AtLineStart(text, p) && IsKeyLine(text[p..][SkipSpaces(text[p..])..]);
      var j := SkipSpaces(text[p..]);
      assert text[p..][j..] == text[p + j..];
      assert MentionsKeyAt(text, p + j);
    }
  }
}
