/**
 * The pip error-output parser: the package names pip reports as not
 * available from the local directory.
 */
module PipErrors {
  import opened Wrappers
  import opened Text

  const NoMatchingDistribution: string := "No matching distribution found for "
  const NoSatisfyingVersion: string := "Could not find a version that satisfies the requirement "

  /** The recognized phrases, in the order they are tried on a line. */
  const Recognizers: seq<string> := [NoMatchingDistribution, NoSatisfyingVersion]

  /** The pattern `phrase([a-zA-Z0-9._-]+)` matches `line` starting at position `i`. */
  predicate MatchesAt(line: string, phrase: string, i: nat) {
    i + |phrase| < |line| && line[i..i + |phrase|] == phrase && IsNameChar(line[i + |phrase|])
  }

  /** The leftmost position, at or after `from`, where the pattern matches. */
  function LeftmostMatch(line: string, phrase: string, from: nat): (r: Option<nat>)
    decreases |line| - from
    ensures r.Some? ==> from <= r.value && MatchesAt(line, phrase, r.value)
    ensures r.Some? ==> forall j :: from <= j < r.value ==> !MatchesAt(line, phrase, j)
    ensures r.None? ==> forall j :: from <= j ==> !MatchesAt(line, phrase, j)
  {
    if |line| <= from + |phrase| then None
    else if MatchesAt(line, phrase, from) then Some(from)
    else LeftmostMatch(line, phrase, from + 1)
  }

  /**
   * `re.search` of the pattern `phrase([a-zA-Z0-9._-]+)` in a line: the
   * captured name at the leftmost match, if there is a match.
   */
  function Search(line: string, phrase: string): (r: Option<string>)
    ensures r.Some? <==> exists i :: MatchesAt(line, phrase, i)
    ensures r.Some? ==> r.value != [] && AllNameChars(r.value)
  {
    match LeftmostMatch(line, phrase, 0)
    case None => None
    case Some(i) => Some(NameRun(line[i + |phrase|..]))
  }

  /** The match found is the leftmost one, and its name is the whole run of name characters there. */
  lemma SearchFindsLeftmost(line: string, phrase: string, i: nat)
    requires MatchesAt(line, phrase, i)
    requires forall j :: 0 <= j < i ==> !MatchesAt(line, phrase, j)
    ensures Search(line, phrase) == Some(NameRun(line[i + |phrase|..]))
  {
    assert LeftmostMatch(line, phrase, 0) == Some(i);
  }

  /** The recognizers tried in order on one line: the name from the first that matches. */
  function FirstRecognized(line: string, recognizers: seq<string>): (name: Option<string>)
  {
    if recognizers == [] then None
    else
      match Search(line, recognizers[0])
      case Some(name) => Some(name)
      case None => FirstRecognized(line, recognizers[1..])
  }

  /** A name is recognized only through a phrase that matches the line. */
  lemma {:induction false} RecognizedByPhrase(line: string, recognizers: seq<string>) returns (p: string)
    requires FirstRecognized(line, recognizers).Some?
    ensures p in recognizers && Search(line, p) == FirstRecognized(line, recognizers)
  {
    if Search(line, recognizers[0]).Some? {
      p := recognizers[0];
    } else {
      p := RecognizedByPhrase(line, recognizers[1..]);
    }
  }

  /** The name, if any, that one line of pip's error output contributes. */
  function LineMissing(line: string): (name: Option<string>) {
    FirstRecognized(line, Recognizers)
  }

  /**
   * The first recognizer wins: a line matching "No matching distribution found
   * for" gives that name, even when it also matches the second phrase.
   */
  lemma LineMissingOrder(line: string)
    ensures Search(line, NoMatchingDistribution).Some? ==>
              LineMissing(line) == Search(line, NoMatchingDistribution)
    ensures Search(line, NoMatchingDistribution).None? ==>
              LineMissing(line) == Search(line, NoSatisfyingVersion)
  {
    var second := [NoSatisfyingVersion];
    assert Recognizers[1..] == second;
    if Search(line, NoMatchingDistribution).None? {
      assert LineMissing(line) == FirstRecognized(line, second);
      assert second[0] == NoSatisfyingVersion && second[1..] == [];
      assert FirstRecognized(line, second[1..]) == None;
    }
  }

  /** The names the lines contribute, one at most per line. */
  function MissingIn(lines: seq<string>): (names: set<string>)
  {
    if lines == [] then {}
    else
      var last := LineMissing(lines[|lines| - 1]);
      MissingIn(lines[..|lines| - 1]) + (if last.Some? then {last.value} else {})
  }

  /** Scanning one more line adds at most the name found on it. */
  lemma MissingInStep(lines: seq<string>, k: nat)
    requires k < |lines|
    ensures MissingIn(lines[..k + 1]) ==
              MissingIn(lines[..k]) + (if LineMissing(lines[k]).Some? then {LineMissing(lines[k]).value} else {})
  {
    assert lines[..k + 1][..k] == lines[..k];
  }

  /** The names reported missing in pip's standard-error text. */
  function MissingDependencies(errorOutput: string): (names: set<string>) {
    MissingIn(Lines(SplitLines, errorOutput))
  }

  lemma {:induction false} MissingInMembers(lines: seq<string>, d: string)
    ensures d in MissingIn(lines) <==> exists k :: 0 <= k < |lines| && LineMissing(lines[k]) == Some(d)
  {
    if lines != [] {
      var init := lines[..|lines| - 1];
      MissingInMembers(init, d);
      assert forall k :: 0 <= k < |init| ==> init[k] == lines[k];
    }
  }

  /** Each line contributes at most one name. */
  lemma {:induction false} AtMostOnePerLine(lines: seq<string>)
    ensures |MissingIn(lines)| <= |lines|
  {
    if lines != [] {
      AtMostOnePerLine(lines[..|lines| - 1]);
    }
  }

  /** Every reported name is a non-empty run of name characters. */
  lemma MissingAreNames(errorOutput: string, d: string)
    requires d in MissingDependencies(errorOutput)
    ensures d != [] && AllNameChars(d)
  {
    var lines := Lines(SplitLines, errorOutput);
    MissingInMembers(lines, d);
    var k :| 0 <= k < |lines| && LineMissing(lines[k]) == Some(d);
    var p := RecognizedByPhrase(lines[k], Recognizers);
  }

  /** A phrase matching inside a line occurs in the whole text. */
  lemma PhraseInText(errorOutput: string, k: nat, p: string, i: nat)
    requires k < |Lines(SplitLines, errorOutput)|
    requires MatchesAt(Lines(SplitLines, errorOutput)[k], p, i)
    ensures Occurs(errorOutput, p)
  {
    var line := Lines(SplitLines, errorOutput)[k];
    assert line[i..][..|p|] == p;
    OccursInLine(SplitLines, errorOutput, 0, k, p);
  }

  /** Text in which neither phrase occurs yields no names (and no error). */
  lemma NoPhraseNoMissing(errorOutput: string)
    requires !Occurs(errorOutput, NoMatchingDistribution) && !Occurs(errorOutput, NoSatisfyingVersion)
    ensures MissingDependencies(errorOutput) == {}
  {
    var lines := Lines(SplitLines, errorOutput);
    forall d | d in MissingIn(lines)
      ensures false
    {
      MissingInMembers(lines, d);
      var k :| 0 <= k < |lines| && LineMissing(lines[k]) == Some(d);
      var p := RecognizedByPhrase(lines[k], Recognizers);
      var i :| MatchesAt(lines[k], p, i);
      PhraseInText(errorOutput, k, p, i);
    }
  }

  lemma PhraseHasNoBreak()
    ensures NoBreak(SplitLines, NoMatchingDistribution)
  {
  }

  /** No match can start where the line differs from the first letter of the phrase. */
  lemma NoMatchBefore(line: string, phrase: string, k: nat)
    requires phrase != [] && k <= |line|
    requires forall j :: 0 <= j < k ==> line[j] != phrase[0]
    ensures forall j :: 0 <= j < k ==> !MatchesAt(line, phrase, j)
  {
    forall j | 0 <= j < k
      ensures !MatchesAt(line, phrase, j)
    {
      if j + |phrase| <= |line| {
        assert line[j..j + |phrase|][0] == line[j];
      }
    }
  }

  /** A phrase whose first letter does not occur before it, followed by a name character, matches first right there. */
  lemma MatchAfterPrefix(prefix: string, phrase: string, tail: string)
    requires phrase != [] && phrase[0] !in prefix
    requires tail != [] && IsNameChar(tail[0])
    ensures MatchesAt(prefix + phrase + tail, phrase, |prefix|)
    ensures forall j :: 0 <= j < |prefix| ==> !MatchesAt(prefix + phrase + tail, phrase, j)
    ensures (prefix + phrase + tail)[|prefix| + |phrase|..] == tail
  {
    var line := prefix + phrase + tail;
    var at := |prefix|;
    assert line[at..at + |phrase|] == phrase;
    assert line[at + |phrase|..] == tail;
    assert forall j :: 0 <= j < at ==> line[j] == prefix[j] && prefix[j] in prefix;
    NoMatchBefore(line, phrase, at);
  }

  /** The search finds the name that follows the first occurrence of the phrase. */
  lemma SearchAfterPrefix(prefix: string, phrase: string, name: string, rest: string)
    requires phrase != [] && phrase[0] !in prefix
    requires name != [] && AllNameChars(name) && EndsName(rest)
    ensures Search(prefix + phrase + (name + rest), phrase) == Some(name)
  {
    MatchAfterPrefix(prefix, phrase, name + rest);
    SearchFindsLeftmost(prefix + phrase + (name + rest), phrase, |prefix|);
    NameRunOfName(name, rest);
  }

  /**
   * A line holding "No matching distribution found for" followed by a name
   * reports that name, whatever comes after it (such as a version list, or
   * the second phrase with another name) and whatever comes before the
   * phrase, as long as no match of the phrase starts inside that prefix.
   */
  lemma FirstPhraseWins(prefix: string, name: string, rest: string)
    requires forall j :: 0 <= j < |prefix| ==> !MatchesAt(prefix + NoMatchingDistribution + name + rest, NoMatchingDistribution, j)
    requires name != [] && AllNameChars(name) && EndsName(rest)
    ensures LineMissing(prefix + NoMatchingDistribution + name + rest) == Some(name)
  {
    var line := prefix + NoMatchingDistribution + name + rest;
    var at := |prefix|;
    assert line == prefix + NoMatchingDistribution + (name + rest);
    assert line[at..at + |NoMatchingDistribution|] == NoMatchingDistribution;
    assert line[at + |NoMatchingDistribution|..] == name + rest;
    assert MatchesAt(line, NoMatchingDistribution, at);
    SearchFindsLeftmost(line, NoMatchingDistribution, at);
    NameRunOfName(name, rest);
    LineMissingOrder(line);
  }

  /** A prefix without the phrase's first letter holds no match of it. */
  lemma PrefixWithoutN(prefix: string, name: string, rest: string)
    requires 'N' !in prefix && name != [] && AllNameChars(name)
    ensures forall j :: 0 <= j < |prefix| ==> !MatchesAt(prefix + NoMatchingDistribution + name + rest, NoMatchingDistribution, j)
  {
    var line := prefix + NoMatchingDistribution + name + rest;
    assert line == prefix + NoMatchingDistribution + (name + rest);
    MatchAfterPrefix(prefix, NoMatchingDistribution, name + rest);
  }

  /** A common pip line: the version list after the name is not part of it. */
  lemma VersionListIsDropped(line: string)
    requires line == "ERROR: " + NoMatchingDistribution + "foo" + " (from versions: none)"
    ensures LineMissing(line) == Some("foo")
  {
    assert AllNameChars("foo") && EndsName(" (from versions: none)");
    PrefixWithoutN("ERROR: ", "foo", " (from versions: none)");
    FirstPhraseWins("ERROR: ", "foo", " (from versions: none)");
  }

  lemma MissingInOne(line: string)
    ensures MissingIn([line]) == if LineMissing(line).Some? then {LineMissing(line).value} else {}
  {
    assert [line][..0] == [];
  }

  /**
   * A line reporting one name, with a prefix holding no match of the phrase
   * and a rest that cannot continue the name: with no break in the prefix
   * and the rest, the line has none, and it yields that name.
   */
  lemma ReportLine(prefix: string, name: string, rest: string)
    requires NoBreak(SplitLines, prefix)
    requires forall j :: 0 <= j < |prefix| ==> !MatchesAt(prefix + NoMatchingDistribution + name + rest, NoMatchingDistribution, j)
    requires name != [] && AllNameChars(name)
    requires EndsName(rest) && NoBreak(SplitLines, rest)
    ensures NoBreak(SplitLines, prefix + NoMatchingDistribution + name + rest)
    ensures LineMissing(prefix + NoMatchingDistribution + name + rest) == Some(name)
  {
    PhraseHasNoBreak();
    NameHasNoBreak(SplitLines, name);
    NoBreakConcat(SplitLines, prefix, NoMatchingDistribution);
    NoBreakConcat(SplitLines, prefix + NoMatchingDistribution, name);
    NoBreakConcat(SplitLines, prefix + NoMatchingDistribution + name, rest);
    FirstPhraseWins(prefix, name, rest);
  }

  /**
   * A one-line error output reporting one name yields exactly that name,
   * whatever follows the name on the line (such as a version list), when
   * no match of the phrase starts before it.
   */
  lemma SingleReport(prefix: string, name: string, rest: string)
    requires NoBreak(SplitLines, prefix)
    requires forall j :: 0 <= j < |prefix| ==> !MatchesAt(prefix + NoMatchingDistribution + name + rest, NoMatchingDistribution, j)
    requires name != [] && AllNameChars(name)
    requires EndsName(rest) && NoBreak(SplitLines, rest)
    ensures MissingDependencies(prefix + NoMatchingDistribution + name + rest) == {name}
  {
    var line := prefix + NoMatchingDistribution + name + rest;
    ReportLine(prefix, name, rest);
    OneLine(SplitLines, line);
    MissingInOne(line);
  }

  /** The same when the output ends in a line feed, as pip's output does. */
  lemma SingleReportTerminated(prefix: string, name: string, rest: string)
    requires NoBreak(SplitLines, prefix)
    requires forall j :: 0 <= j < |prefix| ==> !MatchesAt(prefix + NoMatchingDistribution + name + rest, NoMatchingDistribution, j)
    requires name != [] && AllNameChars(name)
    requires EndsName(rest) && NoBreak(SplitLines, rest)
    ensures MissingDependencies(prefix + NoMatchingDistribution + name + rest + "\n") == {name}
  {
    var line := prefix + NoMatchingDistribution + name + rest;
    ReportLine(prefix, name, rest);
    TerminatedLine(SplitLines, line);
    MissingInOne(line);
  }

  /** The error output `ERROR: No matching distribution found for bar` yields exactly `bar`. */
  lemma ReportedNameExample(errorOutput: string)
    requires errorOutput == "ERROR: " + NoMatchingDistribution + "bar"
    ensures MissingDependencies(errorOutput) == {"bar"}
  {
    assert errorOutput == "ERROR: " + NoMatchingDistribution + "bar" + "";
    PrefixWithoutN("ERROR: ", "bar", "");
    SingleReport("ERROR: ", "bar", "");
  }

  /** The one-line output `INFO: No matching distribution found for foo` yields exactly `foo`. */
  lemma InfoReportExample(errorOutput: string)
    requires errorOutput == "INFO: " + NoMatchingDistribution + "foo"
    ensures MissingDependencies(errorOutput) == {"foo"}
  {
    var line := "INFO: " + NoMatchingDistribution + "foo" + "";
    assert errorOutput == line;
    forall j | 0 <= j < |"INFO: "|
      ensures !MatchesAt(line, NoMatchingDistribution, j)
    {
      assert line[j] == "INFO: N"[j] && line[j + 1] == "INFO: N"[j + 1];
      if j + |NoMatchingDistribution| < |line| {
        var piece := line[j..j + |NoMatchingDistribution|];
        assert piece[0] == line[j] && piece[1] == line[j + 1];
      }
    }
    SingleReport("INFO: ", "foo", "");
  }

  /**
   * A typical pip report, `ERROR: No matching distribution found for foo
   * (from versions: none)` followed by a line feed, yields exactly `foo`.
   */
  lemma TypicalReportExample(errorOutput: string)
    requires errorOutput == "ERROR: " + NoMatchingDistribution + "foo" + " (from versions: none)" + "\n"
    ensures MissingDependencies(errorOutput) == {"foo"}
  {
    assert AllNameChars("foo") && EndsName(" (from versions: none)");
    assert NoBreak(SplitLines, " (from versions: none)") && NoBreak(SplitLines, "ERROR: ");
    PrefixWithoutN("ERROR: ", "foo", " (from versions: none)");
    SingleReportTerminated("ERROR: ", "foo", " (from versions: none)");
  }

  /**
   * `parse_pip_error_for_missing_deps`: for each line, the name after the first
   * phrase if it matches, otherwise the name after the second phrase if that matches.
   */
  method ParseMissingDeps(errorOutput: string) returns (missingDeps: set<string>)
    ensures missingDeps == MissingDependencies(errorOutput)
  {
    missingDeps := {};
    var lines := Lines(SplitLines, errorOutput);
    for k := 0 to |lines|
      invariant missingDeps == MissingIn(lines[..k])
    {
      var line := lines[k];
      MissingInStep(lines, k);
      LineMissingOrder(line);
      var match1 := Search(line, NoMatchingDistribution);
      if match1.Some? {
        missingDeps := missingDeps + {match1.value};
        continue;
      }
      var match2 := Search(line, NoSatisfyingVersion);
      if match2.Some? {
        missingDeps := missingDeps + {match2.value};
        continue;
      }
    }
    assert lines[..|lines|] == lines;
  }
}
