/**
 * The wheel-metadata dependency extractor: the names a wheel declares in the
 * `Requires-Dist:` lines of its `.dist-info/METADATA` member.
 */
module Metadata {
  import opened Wrappers
  import opened Text

  /** One member of a wheel (a zip archive): its path inside the archive and its decoded text. */
  datatype Entry = Entry(name: string, text: string)

  const MetadataSuffix: string := ".dist-info/METADATA"
  const RequiresDist: string := "Requires-Dist:"

  predicate IsMetadataName(name: string) {
    EndsWith(name, MetadataSuffix)
  }

  /** The position of the first member whose path ends in `.dist-info/METADATA`. */
  function FirstMetadata(entries: seq<Entry>): (r: Option<nat>)
    ensures r.Some? ==> r.value < |entries| && IsMetadataName(entries[r.value].name)
    ensures r.Some? ==> forall j :: 0 <= j < r.value ==> !IsMetadataName(entries[j].name)
    ensures r.None? ==> forall j :: 0 <= j < |entries| ==> !IsMetadataName(entries[j].name)
  {
    if entries == [] then None
    else if IsMetadataName(entries[0].name) then Some(0)
    else match FirstMetadata(entries[1..])
      case None => None
      case Some(i) => Some(i + 1)
  }

  /**
   * Looking a member up by its path, as the zip library does when asked to
   * extract it: when several members share a path, the last of them is found.
   */
  function LastNamed(entries: seq<Entry>, name: string): (r: Option<nat>)
    ensures r.Some? ==> r.value < |entries| && entries[r.value].name == name
    ensures r.Some? ==> forall j :: r.value < j < |entries| ==> entries[j].name != name
    ensures r.None? ==> forall j :: 0 <= j < |entries| ==> entries[j].name != name
  {
    if entries == [] then None
    else if entries[|entries| - 1].name == name then Some(|entries| - 1)
    else LastNamed(entries[..|entries| - 1], name)
  }

  /** The text read back for the METADATA member, if the wheel has one. */
  function MetadataText(entries: seq<Entry>): (text: Option<string>)
  {
    match FirstMetadata(entries)
    case None => None
    case Some(i) =>
      var found := LastNamed(entries, entries[i].name);
      if found.Some? then Some(entries[found.value].text) else None
  }

  /**
   * The anchored match `Requires-Dist:\s*([a-zA-Z0-9._-]+)` on one line: the
   * dependency name it captures, if the line matches.
   */
  function MatchRequiresDist(line: string): (r: Option<string>)
    ensures r.Some? ==> StartsWith(line, RequiresDist)
    ensures r.Some? ==> r.value != [] && AllNameChars(r.value)
  {
    if !StartsWith(line, RequiresDist) then None
    else
      var rest := line[|RequiresDist|..];
      var name := NameRun(rest[SpaceRun(rest)..]);
      if name == [] then None else Some(name)
  }

  /**
   * A line made of the field, white space, a name and anything that cannot
   * continue the name (such as a version qualifier) yields exactly that name.
   */
  lemma MatchOfDeclaration(space: string, name: string, rest: string)
    requires AllSpace(space) && name != [] && AllNameChars(name) && EndsName(rest)
    ensures MatchRequiresDist(RequiresDist + space + name + rest) == Some(name)
  {
    var line := RequiresDist + space + name + rest;
    assert line[..|RequiresDist|] == RequiresDist;
    assert line[|RequiresDist|..] == space + (name + rest);
    NameCharIsNotSpace(name[0]);
    SpaceRunOfSpace(space, name + rest);
    assert (space + (name + rest))[|space|..] == name + rest;
    NameRunOfName(name, rest);
  }

  /** `Requires-Dist: foo (>=1.0,<2)` declares `foo`; the version qualifier is not part of the name. */
  lemma QualifierIsDropped(line: string)
    requires line == "Requires-Dist: foo (>=1.0,<2)"
    ensures MatchRequiresDist(line) == Some("foo")
  {
    assert AllNameChars("foo");
    assert EndsName(" (>=1.0,<2)") && AllSpace(" ");
    assert RequiresDist + " " + "foo" + " (>=1.0,<2)" == line;
    MatchOfDeclaration(" ", "foo", " (>=1.0,<2)");
  }

  /** Conversely, every line that matches has that shape. */
  lemma MatchIsDeclaration(line: string) returns (space: string, rest: string)
    requires MatchRequiresDist(line).Some?
    ensures AllSpace(space) && EndsName(rest)
    ensures line == RequiresDist + space + MatchRequiresDist(line).value + rest
  {
    var after := line[|RequiresDist|..];
    var n := SpaceRun(after);
    var name := MatchRequiresDist(line).value;
    space := after[..n];
    rest := after[n..][|name|..];
    SplitAt(after[n..], |name|);
    SplitAt(after, n);
    SplitAt(line, |RequiresDist|);
    assert line == RequiresDist + (space + (name + rest));
    Associate(space, name, rest);
    Associate(RequiresDist, space + name, rest);
    Associate(RequiresDist, space, name);
  }

  lemma TerminatorKeepsMatch(line: string)
    requires MatchRequiresDist(line).Some?
    ensures MatchRequiresDist(line + "\n") == MatchRequiresDist(line)
  {
    var space, rest := MatchIsDeclaration(line);
    var name := MatchRequiresDist(line).value;
    var head := RequiresDist + space + name;
    assert line + "\n" == head + (rest + "\n");
    MatchOfDeclaration(space, name, rest + "\n");
  }

  lemma TerminatorMakesNoMatch(line: string)
    requires MatchRequiresDist(line + "\n").Some?
    ensures MatchRequiresDist(line) == MatchRequiresDist(line + "\n")
  {
    var line' := line + "\n";
    var space, rest := MatchIsDeclaration(line');
    var name := MatchRequiresDist(line').value;
    var head := RequiresDist + space + name;
    EndsInName(RequiresDist + space, name);
    assert line'[|line'| - 1] == '\n';
    assert rest != [];
    var rest' := rest[..|rest| - 1];
    PrefixOfAppend(head, rest, |rest| - 1);
    assert line == line'[..|line|] == head + rest';
    MatchOfDeclaration(space, name, rest');
  }

  /** A line terminator kept at the end of the line does not change the match. */
  lemma MatchIgnoresTerminator(line: string)
    ensures MatchRequiresDist(line + "\n") == MatchRequiresDist(line)
  {
    if MatchRequiresDist(line).Some? {
      TerminatorKeepsMatch(line);
    } else if MatchRequiresDist(line + "\n").Some? {
      TerminatorMakesNoMatch(line);
    }
  }

  /** The dependency names captured from a sequence of lines. */
  function DeclaredIn(lines: seq<string>): (names: set<string>)
  {
    if lines == [] then {}
    else
      var last := MatchRequiresDist(lines[|lines| - 1]);
      DeclaredIn(lines[..|lines| - 1]) + (if last.Some? then {last.value} else {})
  }

  /** Scanning one more line adds at most its captured name. */
  lemma DeclaredInStep(lines: seq<string>, k: nat)
    requires k < |lines|
    ensures DeclaredIn(lines[..k + 1]) ==
              DeclaredIn(lines[..k]) + (if MatchRequiresDist(lines[k]).Some? then {MatchRequiresDist(lines[k]).value} else {})
  {
    assert lines[..k + 1][..k] == lines[..k];
  }

  lemma {:induction false} DeclaredInMembers(lines: seq<string>, d: string)
    ensures d in DeclaredIn(lines) <==> exists k :: 0 <= k < |lines| && MatchRequiresDist(lines[k]) == Some(d)
  {
    if lines != [] {
      var init := lines[..|lines| - 1];
      DeclaredInMembers(init, d);
      assert forall k :: 0 <= k < |init| ==> init[k] == lines[k];
    }
  }

  /**
   * The dependency names of a wheel; `None` stands for a wheel that cannot be
   * opened or read, which yields no names.
   */
  function DeclaredDependencies(archive: Option<seq<Entry>>): (names: set<string>)
  {
    match archive
    case None => {}
    case Some(entries) =>
      match MetadataText(entries)
      case None => {}
      case Some(text) => DeclaredIn(Lines(FileLines, text))
  }

  /** With at most one member per path, the text read is that of the first METADATA member. */
  lemma MetadataOfDistinctNames(entries: seq<Entry>)
    requires forall i, j :: 0 <= i < j < |entries| ==> entries[i].name != entries[j].name
    requires FirstMetadata(entries).Some?
    ensures MetadataText(entries) == Some(entries[FirstMetadata(entries).value].text)
  {
    var i := FirstMetadata(entries).value;
    var found := LastNamed(entries, entries[i].name);
    assert found.Some?;
  }

  /** Without a METADATA member, or when the wheel cannot be read, no dependency is reported. */
  lemma NoMetadataNoDependencies(archive: Option<seq<Entry>>)
    requires archive.None? || FirstMetadata(archive.value).None?
    ensures DeclaredDependencies(archive) == {}
  {
  }

  /**
   * What the extractor reports: a name `d` is reported exactly when some line
   * of the METADATA text matches `Requires-Dist:` with `d` as its name.
   */
  lemma DeclaredDependenciesMembers(entries: seq<Entry>, text: string, d: string)
    requires MetadataText(entries) == Some(text)
    ensures d in DeclaredDependencies(Some(entries)) <==>
      exists k :: 0 <= k < |Lines(FileLines, text)| && MatchRequiresDist(Lines(FileLines, text)[k]) == Some(d)
  {
    DeclaredInMembers(Lines(FileLines, text), d);
  }

  /** Every reported name is a non-empty run of name characters. */
  lemma DependenciesAreNames(archive: Option<seq<Entry>>, d: string)
    requires d in DeclaredDependencies(archive)
    ensures d != [] && AllNameChars(d)
  {
    var text := MetadataText(archive.value).value;
    DeclaredInMembers(Lines(FileLines, text), d);
  }

  /**
   * `extract_dependencies_from_whl`: find the first METADATA member, then
   * collect the name of every `Requires-Dist:` line of its text.
   */
  method ExtractDependencies(archive: Option<seq<Entry>>) returns (dependencies: set<string>)
    ensures dependencies == DeclaredDependencies(archive)
  {
    dependencies := {};
    if archive.None? {
      // opening or reading the wheel failed; the handler keeps the empty set
      return;
    }
    var entries := archive.value;
    var metadataName: Option<string> := None;
    var i := 0;
    while i < |entries|
      invariant i <= |entries|
      invariant forall j :: 0 <= j < i ==> !IsMetadataName(entries[j].name)
      invariant metadataName.None?
    {
      if IsMetadataName(entries[i].name) {
        metadataName := Some(entries[i].name);
        break;
      }
      i := i + 1;
    }
    if metadataName.None? {
      // no METADATA member: a warning, and no dependencies
      return;
    }
    assert FirstMetadata(entries) == Some(i);
    var member := LastNamed(entries, metadataName.value);
    var text := entries[member.value].text;
    var lines := Lines(FileLines, text);
    var k := 0;
    while k < |lines|
      invariant k <= |lines|
      invariant dependencies == DeclaredIn(lines[..k])
    {
      var line := lines[k];
      DeclaredInStep(lines, k);
      if StartsWith(line, RequiresDist) {
        var match_ := MatchRequiresDist(line);
        if match_.Some? {
          dependencies := dependencies + {match_.value};
        }
      }
      k := k + 1;
    }
    assert lines[..k] == lines;
  }
}
