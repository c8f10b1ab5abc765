/** The pieces of JavaScript string semantics the server relies on: the
    regular-expression class `\s`, the `^` anchor of a multiline pattern,
    `String.prototype.split(/\r?\n/)` and the UTF-16 `length` of a string. */
module JsText {

  /** The code points matched by the regular-expression class `\s`: the
      ECMAScript WhiteSpace and LineTerminator productions. */
  predicate IsJsSpace(c: char) {
    var n := c as int;
    || n == 0x09 || n == 0x0A || n == 0x0B || n == 0x0C || n == 0x0D || n == 0x20
    || n == 0xA0 || n == 0x1680 || (0x2000 <= n <= 0x200A)
    || n == 0x2028 || n == 0x2029 || n == 0x202F || n == 0x205F
    || n == 0x3000 || n == 0xFEFF
  }

  /** The line terminators after which `^` matches when a pattern has the m flag. */
  predicate IsLineTerminator(c: char) {
    c == '\n' || c == '\r' || c as int == 0x2028 || c as int == 0x2029
  }

  predicate AllJsSpace(s: string) {
    forall i :: 0 <= i < |s| ==> IsJsSpace(s[i])
  }

  /** The length of the longest prefix of `s` matched by `\s*`. */
  function SkipSpaces(s: string): (j: nat)
    ensures j <= |s|
    ensures AllJsSpace(s[..j])
    ensures j < |s| ==> !IsJsSpace(s[j])
  {
    if |s| == 0 || !IsJsSpace(s[0]) then 0
    else
      var j' := SkipSpaces(s[1..]);
      assert s[..1 + j'] == [s[0]] + s[1..][..j'];
      1 + j'
  }

  /** Any run of spaces that stops at a non-space is the one SkipSpaces finds:
      this is why the greedy `\s*` never needs to backtrack before a non-space. */
  lemma {:induction false} SkipSpacesUnique(s: string, k: nat)
    requires k <= |s| && AllJsSpace(s[..k])
    requires k < |s| ==> !IsJsSpace(s[k])
    ensures SkipSpaces(s) == k
    decreases k
  {
    if k > 0 {
      assert s[..k][0] == s[0];
      var t := s[1..];
      assert t[..k - 1] == s[..k][1..];
      var u := t[..k - 1];
      assert AllJsSpace(u) by {
        forall i | 0 <= i < |u| ensures IsJsSpace(u[i]) {
          assert u[i] == s[..k][i + 1];
        }
      }
      if k - 1 < |t| {
        assert t[k - 1] == s[k];
      }
      SkipSpacesUnique(t, k - 1);
    }
  }

  /** The JavaScript `length` of a string: the number of UTF-16 code units,
      two for each code point outside the Basic Multilingual Plane. */
  function Utf16Length(s: string): (n: nat)
    ensures |s| <= n <= 2 * |s|
    ensures (forall i :: 0 <= i < |s| ==> s[i] as int < 0x10000) ==> n == |s|
    ensures |s| == 1 ==> (n == 2 <==> s[0] as int >= 0x10000)
  {
    if |s| == 0 then 0
    else (if s[0] as int < 0x10000 then 1 else 2) + Utf16Length(s[1..])
  }

  /** The length of a concatenation is the sum of the lengths; with the
      one-character case of `Utf16Length`, this fixes the length of every
      text: one unit per character, plus one per character outside the
      Basic Multilingual Plane. */
  lemma {:induction false} Utf16Append(a: string, b: string)
    ensures Utf16Length(a + b) == Utf16Length(a) + Utf16Length(b)
    decreases |a|
  {
    if |a| > 0 {
      assert (a + b)[0] == a[0];
      assert (a + b)[1..] == a[1..] + b;
      Utf16Append(a[1..], b);
    } else {
      assert a + b == b;
    }
  }

  /** `s.split(/\r?\n/)`: the lines of `s`, cut at every "\n" and at every
      "\r\n", with the separators removed. A lone "\r" stays in its line. */
  function SplitLines(s: string): (lines: seq<string>)
    ensures |lines| >= 1
    ensures forall i :: 0 <= i < |lines| ==> '\n' !in lines[i]
    decreases |s|
  {
    if |s| == 0 then [""]
    else if s[0] == '\n' then [""] + SplitLines(s[1..])
    else if |s| >= 2 && s[0] == '\r' && s[1] == '\n' then [""] + SplitLines(s[2..])
    else
      var rest := SplitLines(s[1..]);
      [[s[0]] + rest[0]] + rest[1..]
  }

  /** `lines.join("\n")`. */
  function JoinLines(lines: seq<string>): (s: string) {
    if |lines| == 0 then ""
    else if |lines| == 1 then lines[0]
    else lines[0] + "\n" + JoinLines(lines[1..])
  }

  function CountChar(s: string, c: char): (n: nat) {
    if |s| == 0 then 0
    else (if s[0] == c then 1 else 0) + CountChar(s[1..], c)
  }

  /** Splitting yields one more line than the text has "\n" characters. */
  lemma {:induction false} SplitLinesCount(s: string)
    ensures |SplitLines(s)| == CountChar(s, '\n') + 1
    decreases |s|
  {
    if |s| == 0 {
    } else if s[0] == '\n' {
      SplitLinesCount(s[1..]);
    } else if |s| >= 2 && s[0] == '\r' && s[1] == '\n' {
      SplitLinesCount(s[2..]);
      assert s[1..][1..] == s[2..];
      assert CountChar(s[1..], '\n') == 1 + CountChar(s[2..], '\n');
    } else {
      SplitLinesCount(s[1..]);
    }
  }

  lemma {:induction false} JoinPrependChar(c: char, ls: seq<string>)
    requires |ls| >= 1
    ensures JoinLines([[c] + ls[0]] + ls[1..]) == [c] + JoinLines(ls)
  {
    var ls' := [[c] + ls[0]] + ls[1..];
    assert |ls'| == |ls| && ls'[0] == [c] + ls[0];
    if |ls| > 1 {
      assert ls'[1..] == ls[1..];
      var tail := JoinLines(ls[1..]);
      var nl := "\n";
      assert JoinLines(ls') == ([c] + ls[0]) + nl + tail;
      assert JoinLines(ls) == ls[0] + nl + tail;
      assert ([c] + ls[0]) + nl + tail == [c] + (ls[0] + nl + tail);
    }
  }

  /** Joining the lines of a text without carriage returns gives the text back. */
  lemma {:induction false} JoinSplitLines(s: string)
    requires '\r' !in s
    ensures JoinLines(SplitLines(s)) == s
    decreases |s|
  {
    if |s| == 0 {
    } else if s[0] == '\n' {
      JoinSplitLines(s[1..]);
      var rest := SplitLines(s[1..]);
      assert ([""] + rest)[1..] == rest;
      assert s == "\n" + s[1..];
    } else {
      assert s[0] != '\r';
      JoinSplitLines(s[1..]);
      var rest := SplitLines(s[1..]);
      JoinPrependChar(s[0], rest);
      assert s == [s[0]] + s[1..];
    }
  }

  /** A text without "\n" is a single line. */
  lemma {:induction false} SplitSingleLine(a: string)
    requires '\n' !in a
    ensures SplitLines(a) == [a]
    decreases |a|
  {
    if |a| > 0 {
      assert a[0] in a;
      if |a| >= 2 {
        assert a[1] in a;
      }
      assert '\n' !in a[1..] by {
        forall i | 0 <= i < |a[1..]| ensures a[1..][i] != '\n' {
          assert a[1..][i] == a[i + 1];
        }
      }
      SplitSingleLine(a[1..]);
      assert [a[0]] + a[1..] == a;
    }
  }

  predicate EndsWithCr(a: string) {
    |a| > 0 && a[|a| - 1] == '\r'
  }

  /** A line without "\n" and not ending in "\r", followed by "\n", splits off
      as exactly one line. */
  lemma {:induction false} SplitAfterLine(a: string, b: string)
    requires '\n' !in a && !EndsWithCr(a)
    ensures SplitLines(a + "\n" + b) == [a] + SplitLines(b)
    decreases |a|
  {
    var s := a + "\n" + b;
    if |a| == 0 {
      assert s[1..] == b;
    } else {
      var a' := a[1..];
      assert a[0] in a;
      assert '\n' !in a' by {
        forall i | 0 <= i < |a'| ensures a'[i] != '\n' {
          assert a'[i] == a[i + 1];
          assert a[i + 1] in a;
        }
      }
      assert s[0] == a[0];
      if |a'| > 0 {
        assert s[1] == a'[0] && a'[0] == a[1] && a[1] in a;
        assert a'[|a'| - 1] == a[|a| - 1];
      } else {
        assert s[1] == '\n';
        assert a[0] != '\r';
      }
      assert s[1..] == a' + "\n" + b;
      SplitAfterLine(a', b);
      assert [a[0]] + a' == a;
    }
  }

  /** A line without "\n", followed by "\r\n", splits off as exactly one
      line: the carriage return of the separator is dropped. */
  lemma {:induction false} SplitAfterCrLf(a: string, b: string)
    requires '\n' !in a
    ensures SplitLines(a + "\r\n" + b) == [a] + SplitLines(b)
    decreases |a|
  {
    var s := a + "\r\n" + b;
    if |a| == 0 {
      assert s[0] == '\r' && s[1] == '\n';
      assert s[2..] == b;
    } else {
      var a' := a[1..];
      assert a[0] in a;
      assert '\n' !in a' by {
        forall i | 0 <= i < |a'| ensures a'[i] != '\n' {
          assert a'[i] == a[i + 1];
          assert a[i + 1] in a;
        }
      }
      assert s[0] == a[0];
      if |a'| > 0 {
        assert s[1] == a'[0] && a'[0] == a[1] && a[1] in a;
      } else {
        assert s[1] == '\r';
      }
      assert s[1..] == a' + "\r\n" + b;
      SplitAfterCrLf(a', b);
      assert [a[0]] + a' == a;
    }
  }

  /** Joining lines that contain no "\n", none but the last ending in "\r",
      and splitting again gives the lines back. */
  lemma {:induction false} SplitJoinLines(lines: seq<string>)
    requires |lines| >= 1
    requires forall i :: 0 <= i < |lines| ==> '\n' !in lines[i]
    requires forall i :: 0 <= i < |lines| - 1 ==> !EndsWithCr(lines[i])
    ensures SplitLines(JoinLines(lines)) == lines
    decreases |lines|
  {
    if |lines| == 1 {
      SplitSingleLine(lines[0]);
    } else {
      SplitJoinLines(lines[1..]);
      SplitAfterLine(lines[0], JoinLines(lines[1..]));
      assert [lines[0]] + lines[1..] == lines;
    }
  }

  /** Line `i` of `s` starts at offset `p`: at the start of the text for the
      first line, just after a "\n" for every later one. */
  ghost predicate LineLocated(s: string, i: nat, p: nat, line: string) {
    && p + |line| <= |s|
    && s[p..p + |line|] == line
    && (if i == 0 then p == 0 else 0 < p && s[p - 1] == '\n')
  }

  /** A slice of a suffix is a slice of the whole. */
  lemma {:induction false} SubSlice(s: string, d: int, i: int, j: int)
    requires 0 <= d <= |s| && 0 <= i <= j <= |s| - d
    ensures s[d..][i..j] == s[d + i..d + j]
  {
  }

  /** A slice of a window is a slice of the whole. */
  lemma {:induction false} WindowSlice(s: string, a: int, len: int, i: int, j: int)
    requires 0 <= a && 0 <= len && a + len <= |s| && 0 <= i <= j <= len
    ensures s[a..a + len][i..j] == s[a + i..a + j]
  {
    var w := s[a..a + len];
    forall t | 0 <= t < j - i ensures w[i..j][t] == s[a + i..a + j][t] {
      assert w[i..j][t] == w[i + t] == s[a + i + t];
    }
  }

  /** The first line is a prefix of the text. */
  lemma {:induction false} SplitLinesHead(s: string)
    ensures |SplitLines(s)[0]| <= |s| && s[..|SplitLines(s)[0]|] == SplitLines(s)[0]
    decreases |s|
  {
    if |s| > 0 && s[0] != '\n' && !(|s| >= 2 && s[0] == '\r' && s[1] == '\n') {
      var rest := SplitLines(s[1..]);
      SplitLinesHead(s[1..]);
      var n := |rest[0]|;
      assert SplitLines(s)[0] == [s[0]] + rest[0];
      assert s[..n + 1] == [s[0]] + s[1..][..n];
    }
  }

  /** A line located in a suffix `s[d..]` is located in `s`, one line later
      or more, provided a "\n" ends the text before the suffix. */
  lemma {:induction false} ShiftLocated(s: string, d: nat, j: nat, i: nat, p: nat, line: string)
    requires 1 <= d <= |s| && i > 0
    requires LineLocated(s[d..], j, p, line)
    requires p == 0 ==> s[d - 1] == '\n'
    ensures LineLocated(s, i, p + d, line)
  {
    SubSlice(s, d, p, p + |line|);
    if p > 0 {
      assert s[d..][p - 1] == s[p + d - 1];
    }
  }

  /** Every line produced by SplitLines occurs in the text at a line start. */
  lemma {:induction false} SplitLinesLocated(s: string, i: nat)
    requires i < |SplitLines(s)|
    ensures exists p: nat :: LineLocated(s, i, p, SplitLines(s)[i])
    decreases |s|
  {
    var lines := SplitLines(s);
    if i == 0 {
      SplitLinesHead(s);
      assert LineLocated(s, 0, 0, lines[0]);
    } else {
      var d: nat, j: nat := LineStep(s, i);
      SplitLinesLocated(s[d..], j);
      var p': nat :| LineLocated(s[d..], j, p', SplitLines(s[d..])[j]);
      ShiftLocated(s, d, j, i, p', lines[i]);
    }
  }

  /** How line `i > 0` of `s` is line `j` of the suffix `s[d..]` that the
      recursion of SplitLines continues on. */
  lemma {:induction false} LineStep(s: string, i: nat) returns (d: nat, j: nat)
    requires 0 < i < |SplitLines(s)|
    ensures 1 <= d <= |s| && j < |SplitLines(s[d..])|
    ensures SplitLines(s[d..])[j] == SplitLines(s)[i]
    ensures j == 0 ==> s[d - 1] == '\n'
    ensures j > 0 ==> j == i || j == i - 1
  {
    if s[0] == '\n' {
      assert SplitLines(s) == [""] + SplitLines(s[1..]);
      d, j := 1, i - 1;
    } else if |s| >= 2 && s[0] == '\r' && s[1] == '\n' {
      assert SplitLines(s) == [""] + SplitLines(s[2..]);
      d, j := 2, i - 1;
    } else {
      var rest := SplitLines(s[1..]);
      assert SplitLines(s) == [[s[0]] + rest[0]] + rest[1..];
      d, j := 1, i;
    }
  }
}
