/**
 * Characters and line structure of the texts the installer inspects: the
 * METADATA file of a wheel and the error output of pip.
 */
module Text {

  /** A character of the package-name class `[a-zA-Z0-9._-]`. */
  predicate IsNameChar(c: char) {
    ('a' <= c <= 'z') || ('A' <= c <= 'Z') || ('0' <= c <= '9') || c == '.' || c == '_' || c == '-'
  }

  /**
   * A character that `\s` matches in a regular expression over text: exactly
   * the characters Python's `str.isspace` accepts.
   */
  predicate IsSpace(c: char) {
    ('\t' <= c <= '\r')                       // tab, line feed, vertical tab, form feed, carriage return
    || ('\U{1C}' <= c <= ' ')                 // the four separators U+001C..U+001F and the space
    || c == '\U{85}' || c == '\U{A0}' || c == '\U{1680}'
    || ('\U{2000}' <= c <= '\U{200A}')
    || c == '\U{2028}' || c == '\U{2029}' || c == '\U{202F}' || c == '\U{205F}' || c == '\U{3000}'
  }

  lemma NameCharIsNotSpace(c: char)
    requires IsNameChar(c)
    ensures !IsSpace(c)
  {
  }

  predicate AllNameChars(s: string) {
    forall i :: 0 <= i < |s| ==> IsNameChar(s[i])
  }

  predicate AllSpace(s: string) {
    forall i :: 0 <= i < |s| ==> IsSpace(s[i])
  }

  /** Nothing in `s` can extend a name written just before it. */
  predicate EndsName(s: string) {
    s == [] || !IsNameChar(s[0])
  }

  /** A text is its prefix followed by the rest. */
  lemma SplitAt(s: string, k: nat)
    requires k <= |s|
    ensures s == s[..k] + s[k..]
  {
  }

  /** Concatenation is associative; the one regrouping step the proofs below call. */
  lemma Associate(a: string, b: string, c: string)
    ensures a + (b + c) == a + b + c
  {
  }

  lemma PrefixOfAppend(a: string, b: string, k: nat)
    requires k <= |b|
    ensures (a + b)[..|a| + k] == a + b[..k]
  {
  }

  /** A text that ends with a name ends with a name character. */
  lemma EndsInName(x: string, name: string)
    requires name != [] && AllNameChars(name)
    ensures IsNameChar((x + name)[|x + name| - 1])
  {
    assert (x + name)[|x + name| - 1] == name[|name| - 1];
  }

  predicate StartsWith(s: string, prefix: string) {
    |prefix| <= |s| && s[..|prefix|] == prefix
  }

  predicate EndsWith(s: string, suffix: string) {
    |suffix| <= |s| && s[|s| - |suffix|..] == suffix
  }

  /** `p` occurs somewhere in `s` as a contiguous piece. */
  predicate Occurs(s: string, p: string) {
    exists i :: 0 <= i <= |s| && StartsWith(s[i..], p)
  }

  /**
   * The greedy group `([a-zA-Z0-9._-]+)` read at the start of `s`: the longest
   * prefix of `s` made of name characters (empty when `s` does not start with one).
   */
  function NameRun(s: string): (r: string)
    ensures |r| <= |s| && r == s[..|r|]
    ensures AllNameChars(r) && EndsName(s[|r|..])
  {
    if s != [] && IsNameChar(s[0]) then [s[0]] + NameRun(s[1..]) else []
  }

  /** A name followed by anything that cannot continue it is read back whole. */
  lemma {:induction false} NameRunOfName(name: string, tail: string)
    requires AllNameChars(name) && EndsName(tail)
    ensures NameRun(name + tail) == name
  {
    if name != [] {
      assert (name + tail)[1..] == name[1..] + tail;
      NameRunOfName(name[1..], tail);
    } else {
      assert name + tail == tail;
    }
  }

  /** The greedy `\s*` read at the start of `s`: how many leading characters are white space. */
  function SpaceRun(s: string): (n: nat)
    ensures n <= |s| && AllSpace(s[..n])
    ensures n == |s| || !IsSpace(s[n])
  {
    if s != [] && IsSpace(s[0]) then
      var m := SpaceRun(s[1..]);
      assert s[..1 + m] == [s[0]] + s[1..][..m];
      1 + m
    else 0
  }

  lemma {:induction false} SpaceRunOfSpace(space: string, tail: string)
    requires AllSpace(space) && (tail == [] || !IsSpace(tail[0]))
    ensures SpaceRun(space + tail) == |space|
  {
    if space != [] {
      assert (space + tail)[1..] == space[1..] + tail;
      SpaceRunOfSpace(space[1..], tail);
    } else {
      assert space + tail == tail;
    }
  }

  /** The two ways the source divides a text into lines. */
  datatype Newlines =
    | FileLines   // iterating over a file opened in text mode: `\n`, `\r` and `\r\n` end a line
    | SplitLines  // `str.splitlines()`: also `\v`, `\f`, U+001C..U+001E, U+0085, U+2028 and U+2029

  predicate IsBreak(mode: Newlines, c: char) {
    c == '\n' || c == '\r'
    || (mode == SplitLines &&
        (c == '\U{0B}' || c == '\U{0C}' || ('\U{1C}' <= c <= '\U{1E}')
         || c == '\U{85}' || c == '\U{2028}' || c == '\U{2029}'))
  }

  predicate NoBreak(mode: Newlines, s: string) {
    forall i :: 0 <= i < |s| ==> !IsBreak(mode, s[i])
  }

  lemma NoBreakConcat(mode: Newlines, a: string, b: string)
    requires NoBreak(mode, a) && NoBreak(mode, b)
    ensures NoBreak(mode, a + b)
  {
    assert forall i :: 0 <= i < |b| ==> (a + b)[|a| + i] == b[i];
  }

  lemma NameHasNoBreak(mode: Newlines, name: string)
    requires AllNameChars(name)
    ensures NoBreak(mode, name)
  {
  }

  /** Where the line starting at `i` ends: at the first line break at or after `i`, or at the end of `s`. */
  function LineEnd(mode: Newlines, s: string, i: nat): (k: nat)
    requires i <= |s|
    ensures i <= k <= |s|
    ensures forall j :: i <= j < k ==> !IsBreak(mode, s[j])
    ensures k < |s| ==> IsBreak(mode, s[k])
    decreases |s| - i
  {
    if i == |s| || IsBreak(mode, s[i]) then i else LineEnd(mode, s, i + 1)
  }

  /** The width of the line break at `s[k]`: a carriage return followed by a line feed is one break. */
  function BreakWidth(s: string, k: nat): (w: nat)
    requires k < |s|
    ensures 1 <= w <= 2 && k + w <= |s|
  {
    if s[k] == '\r' && k + 1 < |s| && s[k + 1] == '\n' then 2 else 1
  }

  /** The lines of `s[i..]`, without their line breaks. */
  function LinesFrom(mode: Newlines, s: string, i: nat): (lines: seq<string>)
    requires i <= |s|
    decreases |s| - i
  {
    if i == |s| then []
    else
      var k := LineEnd(mode, s, i);
      if k == |s| then [s[i..]]
      else [s[i..k]] + LinesFrom(mode, s, k + BreakWidth(s, k))
  }

  /**
   * The lines of `s`, without their line breaks; a final line break does not
   * start an empty line, and the empty text has no lines.
   */
  function Lines(mode: Newlines, s: string): (lines: seq<string>) {
    LinesFrom(mode, s, 0)
  }

  /** No line contains a line break. */
  lemma {:induction false} LinesHaveNoBreak(mode: Newlines, s: string, i: nat, n: nat)
    requires i <= |s| && n < |LinesFrom(mode, s, i)|
    ensures NoBreak(mode, LinesFrom(mode, s, i)[n])
    decreases |s| - i
  {
    var k := LineEnd(mode, s, i);
    if k < |s| && n > 0 {
      LinesHaveNoBreak(mode, s, k + BreakWidth(s, k), n - 1);
    } else if k < |s| {
      assert forall j :: 0 <= j < k - i ==> s[i..k][j] == s[i + j];
    } else {
      assert forall j :: 0 <= j < |s| - i ==> s[i..][j] == s[i + j];
    }
  }

  /** What occurs in a piece of a text occurs in the text. */
  lemma OccursInPiece(s: string, i: nat, k: nat, p: string)
    requires i <= k <= |s| && Occurs(s[i..k], p)
    ensures Occurs(s, p)
  {
    var j :| 0 <= j <= k - i && StartsWith(s[i..k][j..], p);
    var t := s[i..k][j..];
    assert t[..|p|] == s[i + j..i + j + |p|];
    assert s[i + j..][..|p|] == s[i + j..i + j + |p|];
    assert StartsWith(s[i + j..], p);
  }

  /** What occurs in one line of a text occurs in the text. */
  lemma {:induction false} OccursInLine(mode: Newlines, s: string, i: nat, n: nat, p: string)
    requires i <= |s| && n < |LinesFrom(mode, s, i)| && Occurs(LinesFrom(mode, s, i)[n], p)
    ensures Occurs(s, p)
    decreases |s| - i
  {
    var k := LineEnd(mode, s, i);
    if k == |s| {
      assert s[i..] == s[i..|s|];
      OccursInPiece(s, i, |s|, p);
    } else if n == 0 {
      OccursInPiece(s, i, k, p);
    } else {
      var rest := LinesFrom(mode, s, k + BreakWidth(s, k));
      assert LinesFrom(mode, s, i) == [s[i..k]] + rest;
      assert LinesFrom(mode, s, i)[n] == rest[n - 1];
      OccursInLine(mode, s, k + BreakWidth(s, k), n - 1, p);
    }
  }

  /**
   * The independent reading of `s[i..]` as a stream of lines: every line
   * break (a carriage return followed by a line feed being one break)
   * becomes a single line feed, and every other character is kept. For
   * `FileLines` this is the newline translation of a file read in text mode.
   */
  function Normalize(mode: Newlines, s: string, i: nat): (r: string)
    requires i <= |s|
    decreases |s| - i
  {
    if i == |s| then []
    else if IsBreak(mode, s[i]) then "\n" + Normalize(mode, s, i + BreakWidth(s, i))
    else [s[i]] + Normalize(mode, s, i + 1)
  }

  /** Lines written out one after the other, each followed by a line feed. */
  function Terminated(lines: seq<string>): (r: string) {
    if lines == [] then [] else lines[0] + "\n" + Terminated(lines[1..])
  }

  /** A character that is not a break is kept. */
  lemma NormalizeKeeps(mode: Newlines, s: string, i: nat)
    requires i < |s| && !IsBreak(mode, s[i])
    ensures Normalize(mode, s, i) == [s[i]] + Normalize(mode, s, i + 1)
  {
  }

  /** The line starting at `i` is copied unchanged. */
  lemma {:induction false} NormalizeLine(mode: Newlines, s: string, i: nat)
    requires i <= |s|
    ensures Normalize(mode, s, i) == s[i..LineEnd(mode, s, i)] + Normalize(mode, s, LineEnd(mode, s, i))
    decreases |s| - i
  {
    if i < |s| && !IsBreak(mode, s[i]) {
      NormalizeLine(mode, s, i + 1);
      NormalizeLineStep(mode, s, i);
    } else {
      assert LineEnd(mode, s, i) == i;
      assert s[i..i] == [];
    }
  }

  /** The step of `NormalizeLine`: a kept character in front of the rest of the line. */
  lemma NormalizeLineStep(mode: Newlines, s: string, i: nat)
    requires i < |s| && !IsBreak(mode, s[i])
    requires Normalize(mode, s, i + 1) == s[i + 1..LineEnd(mode, s, i + 1)] + Normalize(mode, s, LineEnd(mode, s, i + 1))
    ensures Normalize(mode, s, i) == s[i..LineEnd(mode, s, i)] + Normalize(mode, s, LineEnd(mode, s, i))
  {
    var k := LineEnd(mode, s, i + 1);
    var tail := Normalize(mode, s, k);
    assert LineEnd(mode, s, i) == k;
    NormalizeKeeps(mode, s, i);
    assert s[i..k] == [s[i]] + s[i + 1..k];
    Associate([s[i]], s[i + 1..k], tail);
  }

  /** The line feed written after the last line when the text does not end in a break. */
  function FinalFeed(mode: Newlines, s: string, i: nat): (feed: string) {
    if i < |s| && !IsBreak(mode, s[|s| - 1]) then "\n" else []
  }

  /** The covering property for a last line that runs to the end of the text. */
  lemma LastLineCover(mode: Newlines, s: string, i: nat)
    requires i < |s| && LineEnd(mode, s, i) == |s|
    ensures Terminated(LinesFrom(mode, s, i)) == Normalize(mode, s, i) + FinalFeed(mode, s, i)
  {
    NormalizeLine(mode, s, i);
    assert s[i..] == s[i..|s|];
    assert !IsBreak(mode, s[|s| - 1]);
    assert LinesFrom(mode, s, i) == [s[i..]];
    assert Terminated([s[i..]]) == s[i..] + "\n";
  }

  /** A break is read as one line feed. */
  lemma NormalizeAtBreak(mode: Newlines, s: string, k: nat)
    requires k < |s| && IsBreak(mode, s[k])
    ensures Normalize(mode, s, k) == "\n" + Normalize(mode, s, k + BreakWidth(s, k))
  {
  }

  /** A line ended by a break is followed by the lines after the break. */
  lemma InnerLine(mode: Newlines, s: string, i: nat)
    requires i < |s| && LineEnd(mode, s, i) < |s|
    ensures var k := LineEnd(mode, s, i);
            Terminated(LinesFrom(mode, s, i)) == s[i..k] + "\n" + Terminated(LinesFrom(mode, s, k + BreakWidth(s, k)))
  {
    var k := LineEnd(mode, s, i);
    var rest := LinesFrom(mode, s, k + BreakWidth(s, k));
    assert LinesFrom(mode, s, i) == [s[i..k]] + rest;
    assert ([s[i..k]] + rest)[1..] == rest;
  }

  /** The final line feed depends only on whether the text ends in a break. */
  lemma FinalFeedAfterBreak(mode: Newlines, s: string, i: nat, k: nat)
    requires i <= k < |s| && IsBreak(mode, s[k])
    ensures FinalFeed(mode, s, k + BreakWidth(s, k)) == FinalFeed(mode, s, i)
  {
    if k + BreakWidth(s, k) == |s| {
      assert IsBreak(mode, s[|s| - 1]);
    }
  }

  /** The covering property for a line ended by a break, given it for the lines after the break. */
  lemma InnerLineCover(mode: Newlines, s: string, i: nat)
    requires i < |s| && LineEnd(mode, s, i) < |s|
    requires var n := LineEnd(mode, s, i) + BreakWidth(s, LineEnd(mode, s, i));
             Terminated(LinesFrom(mode, s, n)) == Normalize(mode, s, n) + FinalFeed(mode, s, n)
    ensures Terminated(LinesFrom(mode, s, i)) == Normalize(mode, s, i) + FinalFeed(mode, s, i)
  {
    var k := LineEnd(mode, s, i);
    var n := k + BreakWidth(s, k);
    var line, after, final := s[i..k], Normalize(mode, s, n), FinalFeed(mode, s, n);
    InnerLine(mode, s, i);
    NormalizeLine(mode, s, i);
    NormalizeAtBreak(mode, s, k);
    FinalFeedAfterBreak(mode, s, i, k);
    Associate(line + "\n", after, final);
    Associate(line, "\n", after);
  }

  /**
   * The lines from `i` on cover the rest of the text: written out each
   * followed by a line feed, they give `s[i..]` with its breaks normalized,
   * and a final line feed where the text does not end in a break.
   */
  lemma {:induction false} LinesFromCover(mode: Newlines, s: string, i: nat)
    requires i <= |s|
    ensures Terminated(LinesFrom(mode, s, i)) == Normalize(mode, s, i) + FinalFeed(mode, s, i)
    decreases |s| - i
  {
    if i < |s| {
      var k := LineEnd(mode, s, i);
      if k == |s| {
        LastLineCover(mode, s, i);
      } else {
        LinesFromCover(mode, s, k + BreakWidth(s, k));
        InnerLineCover(mode, s, i);
      }
    }
  }

  /**
   * The lines make up the whole text: nothing is dropped but the line
   * breaks themselves, and a final break does not start another line.
   */
  lemma LinesCover(mode: Newlines, s: string)
    ensures Terminated(Lines(mode, s)) == Normalize(mode, s, 0) + (if s != [] && !IsBreak(mode, s[|s| - 1]) then "\n" else [])
  {
    LinesFromCover(mode, s, 0);
  }

  /** A text whose only line breaks are line feeds is its own normal form. */
  lemma {:induction false} NormalizeLineFeeds(mode: Newlines, s: string, i: nat)
    requires i <= |s|
    requires forall j :: i <= j < |s| && IsBreak(mode, s[j]) ==> s[j] == '\n'
    ensures Normalize(mode, s, i) == s[i..]
    decreases |s| - i
  {
    if i < |s| {
      NormalizeLineFeeds(mode, s, i + 1);
      assert s[i..] == [s[i]] + s[i + 1..];
    }
  }

  /**
   * With line feeds only, writing the lines out each followed by a line
   * feed gives back the text itself, plus a line feed if it did not end in one.
   */
  lemma LinesOfLineFeeds(mode: Newlines, s: string)
    requires forall j :: 0 <= j < |s| && IsBreak(mode, s[j]) ==> s[j] == '\n'
    ensures Terminated(Lines(mode, s)) == s + (if s != [] && s[|s| - 1] != '\n' then "\n" else [])
  {
    LinesCover(mode, s);
    NormalizeLineFeeds(mode, s, 0);
    assert s[0..] == s;
  }

  /** The line starting at `i` ends at the first break after it. */
  lemma {:induction false} LineEndAt(mode: Newlines, s: string, i: nat, k: nat)
    requires i <= k < |s| && IsBreak(mode, s[k])
    requires forall j :: i <= j < k ==> !IsBreak(mode, s[j])
    ensures LineEnd(mode, s, i) == k
    decreases k - i
  {
    if i < k {
      LineEndAt(mode, s, i + 1, k);
    }
  }

  /** A non-empty text without line breaks, ended by a line feed, is a single line. */
  lemma TerminatedLine(mode: Newlines, s: string)
    requires s != [] && NoBreak(mode, s)
    ensures Lines(mode, s + "\n") == [s]
  {
    var t := s + "\n";
    assert forall j :: 0 <= j < |s| ==> t[j] == s[j];
    LineEndAt(mode, t, 0, |s|);
    assert BreakWidth(t, |s|) == 1;
    assert LinesFrom(mode, t, |t|) == [];
    assert t[0..|s|] == s;
  }

  /** A non-empty text without line breaks is a single line. */
  lemma OneLine(mode: Newlines, s: string)
    requires s != [] && NoBreak(mode, s)
    ensures Lines(mode, s) == [s]
  {
    assert LineEnd(mode, s, 0) == |s|;
    assert s[0..] == s;
  }
}
