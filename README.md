# Offline installer loop of pipass, modelled in Dafny

This project models `local_installer.py`, the part of pipass that installs a
package using pip with no index. It works from a local directory of wheels
and fetches the packages pip reports missing. The three functions of that
file are modelled as imperative Dafny methods, each proved against a
specification:

- `extract_dependencies_from_whl` becomes `Metadata.ExtractDependencies`
  (module `Metadata`, file `metadata.dfy`).
  - A wheel is a sequence of `Entry(name, text)` members. `None` stands for
    a wheel that cannot be opened or read.
  - The first loop finds the first member whose path ends in
    `.dist-info/METADATA`.
  - The zip library extracts a path by looking it up. When several members
    share that path, the lookup finds the LAST of them (`LastNamed`). The
    model keeps this. `MetadataOfDistinctNames` shows that with distinct
    paths it is simply the first METADATA member.
  - The second loop scans the lines of that member and collects the names
    captured by `Requires-Dist:\s*([a-zA-Z0-9._-]+)`. The scan works on
    characters, not with a regular-expression engine. `\s` is exactly the
    set of characters `str.isspace` accepts.
  - The specification function is `DeclaredDependencies`.
- `parse_pip_error_for_missing_deps` becomes `PipErrors.ParseMissingDeps`
  (file `piperrors.dfy`).
  - Each line is searched for the leftmost match of "No matching
    distribution found for" followed by a name character.
  - Only when that search fails is the line searched for "Could not find a
    version that satisfies the requirement". This is the `continue` of the
    source.
  - The specification function is `MissingDependencies`.
- `install_packages_locally` becomes `Installer.InstallPackagesLocally`
  (file `installer.dfy`). Its parts are split into helper methods:
  - `FetchInitialDependencies`: the seed loop;
  - `RetryInstall`: the retry loop;
  - `InstallAttempt`: one attempt;
  - `AfterFailedAttempt`: the handling of a failed pip run;
  - `FetchNewlyIdentified`: the fetch loop inside it.

The collaborators are parameters, because they are network and process
calls outside this file:

- `Fetcher`, `fetch(phase, name)`, stands for `fetch_func`. Phase 0 is before
  the first attempt, and phase `a` follows attempt `a`. A run asks for a
  name at most once per phase, so a network whose answers change over time
  is covered.
- `Pip`, `pip(a)`, is the outcome of the `a`-th pip run: an exit status with
  its output, or `Raised` for an exception.
- `Disk` maps a downloaded path to the wheel found there.

The method also returns a `Run`, the record of every fetch and attempt. Its
contract says:

- the run satisfies the relational specification `IsRunOf`;
- the stop reason is `Classify(run)`;
- the boolean result is true exactly when that reason is `Installed`.

The lemmas in `installer_properties.dfy` (module `InstallerProperties`)
derive the installer's properties from `IsRunOf`. They hold for every run,
whatever the collaborators answer.

A path counts as a download only when it is a non-empty string, as the
Python test `if dep_path:` decides.

Two line splitters are modelled (module `Text`, file `text.dfy`):

- Reading a file in text mode splits on `\n`, `\r` and `\r\n`.
- `str.splitlines` also splits on `\v`, `\f`, `\x1c`-`\x1e`, `\x85`,
  U+2028 and U+2029.

Lines are modelled without their terminators. Text mode turns every line
break into `\n`, and `Metadata.MatchIgnoresTerminator` shows that a
trailing `\n` never changes the `Requires-Dist` match.
`Text.LinesCover` shows that the lines lose nothing but the breaks. Written
out each followed by a line feed, they give back the text with every break
turned into a line feed.

Two behaviours of the code are worth spelling out:

- The `continue` at local_installer.py:96 means the second phrase is never
  tried on a line where the first phrase matched, so such a line adds only
  the first phrase's name.
- Only names whose fetch returned a path enter `downloaded_packages`
  (local_installer.py:154 and 217), although the comment at
  local_installer.py:132 describes the set as the packages already tried.
  A failed fetch is not recorded, so the same name can be fetched again
  after a later attempt.

## Model

| member | source | states |
|---|---|---|
| Metadata.FirstMetadata | local_installer.py:39-43 | the position found is that of a member whose path ends in `.dist-info/METADATA` and no earlier member's path does; `None` only when no member's path does |
| Metadata.LastNamed | local_installer.py:46 | the member extracted for a path is the last member with that path; `None` only when no member has it |
| Metadata.MatchRequiresDist | local_installer.py:51-56 | a captured name comes only from a line starting with `Requires-Dist:` and is a non-empty run of `[a-zA-Z0-9._-]` |
| Metadata.MatchOfDeclaration | local_installer.py:51-57 | `Requires-Dist:`, any white space, a name, then anything that cannot continue the name, yields exactly that name |
| Metadata.MatchIsDeclaration | local_installer.py:51-57 | conversely, every matching line is `Requires-Dist:`, white space, the captured name, and a rest that cannot continue it, so the name is the maximal token |
| Metadata.QualifierIsDropped | local_installer.py:52-56 | a version qualifier such as `(>=1.0,<2)` is not part of the captured name |
| Metadata.MatchIgnoresTerminator | local_installer.py:50-54 | a line terminator kept at the line's end does not change the match, so lines can be taken without terminators |
| Metadata.DeclaredInStep | local_installer.py:50-57 | scanning one more line adds exactly that line's captured name, if it has one |
| Metadata.DeclaredInMembers | local_installer.py:50-57 | a name is collected from some lines if and only if one of them captures it |
| Metadata.MetadataOfDistinctNames | local_installer.py:40-47 | when no two members share a path, the text read is that of the first METADATA member |
| Metadata.NoMetadataNoDependencies | local_installer.py:45-62 | the result is empty when the wheel has no METADATA member or cannot be read |
| Metadata.DeclaredDependenciesMembers | local_installer.py:40-57 | a name is reported if and only if a line matches with that name, in the text `extract` reads: that of the last member sharing the first METADATA member's path |
| Metadata.DependenciesAreNames | local_installer.py:54-57 | every reported name is a non-empty run of name characters |
| Metadata.ExtractDependencies | local_installer.py:18-66 | the method's result is exactly the wheel's declared dependencies, including the empty set for a missing METADATA member or an unreadable wheel |
| PipErrors.LeftmostMatch | local_installer.py:93 | the position found is a match, at or after the start position, with no match before it; `None` only when there is no match at all |
| PipErrors.Search | local_installer.py:93-100 | `re.search` succeeds if and only if the phrase followed by a name character occurs; the name captured is non-empty and made of name characters |
| PipErrors.SearchFindsLeftmost | local_installer.py:93-95 | the name captured is the whole name run at the leftmost match |
| PipErrors.RecognizedByPhrase | local_installer.py:92-101 | a name recognized on a line comes from one of the phrases matching that line |
| PipErrors.LineMissingOrder | local_installer.py:93-101 | a line matching the first phrase gives the first phrase's name; otherwise it gives the second phrase's match, if any |
| PipErrors.MissingInStep | local_installer.py:92-101 | scanning one more line adds exactly the name that line yields, if any |
| PipErrors.MissingInMembers | local_installer.py:92-107 | a name is reported if and only if some line yields it |
| PipErrors.AtMostOnePerLine | local_installer.py:92-101 | no more names are reported than there are lines: each line contributes at most one |
| PipErrors.MissingAreNames | local_installer.py:86-100 | every reported name is a non-empty run of name characters |
| PipErrors.NoPhraseNoMissing | local_installer.py:86-107 | text in which neither phrase occurs yields the empty set |
| PipErrors.FirstPhraseWins | local_installer.py:93-96 | a line with "No matching distribution found for", a name, then anything that cannot continue the name (a version list, or the second phrase with another name) yields that name, when no match of the phrase starts inside the text before it |
| PipErrors.VersionListIsDropped | local_installer.py:93-95 | `ERROR: No matching distribution found for foo (from versions: none)` yields `foo` |
| PipErrors.PrefixWithoutN | local_installer.py:93 | a prefix without the letter `N`, the phrase's first letter, holds no match of the phrase, as `ERROR: ` does |
| PipErrors.ReportLine | local_installer.py:93-96 | a line made of a prefix, "No matching distribution found for", a name and a rest that cannot continue it yields that name when no match of the phrase starts inside the prefix; it has no break when neither the prefix nor the rest has one |
| PipErrors.SingleReport | local_installer.py:92-107 | a one-line output reporting one name, followed on the line by anything that cannot continue it (such as a version list), yields exactly that name, for any prefix with no break and no match of the phrase inside it (so `INFO: ` too) |
| PipErrors.SingleReportTerminated | local_installer.py:92-107 | the same output, under the same conditions on the prefix and the rest, ended by a line feed as pip writes it, yields exactly that name |
| PipErrors.TypicalReportExample | local_installer.py:92-107 | `ERROR: No matching distribution found for foo (from versions: none)` followed by a line feed yields exactly `{foo}` |
| PipErrors.InfoReportExample | local_installer.py:92-95 | `INFO: No matching distribution found for foo`, whose prefix holds an `N`, yields exactly `{foo}` |
| PipErrors.ReportedNameExample | local_installer.py:81-95 | `ERROR: No matching distribution found for bar` yields exactly `{bar}` |
| PipErrors.ParseMissingDeps | local_installer.py:69-107 | the method's result is exactly the names the lines of the error output report |
| Text.NameRun | local_installer.py:54 | the greedy group is a prefix of the text made of name characters, followed by a character that cannot continue it |
| Text.NameRunOfName | local_installer.py:54-56 | a name followed by anything that cannot continue it is read back whole |
| Text.SpaceRun | local_installer.py:54 | the greedy `\s*` covers a prefix of white space, followed by a character that is not white space |
| Text.LineEnd | local_installer.py:50 | a line ends at the first line break at or after its start, or at the end of the text |
| Text.LinesHaveNoBreak | local_installer.py:92 | no line produced by splitting contains a line break |
| Text.OccursInLine | local_installer.py:92-99 | what occurs in one line of a text occurs in the text |
| Text.OneLine | local_installer.py:92 | a non-empty text without line breaks is split into itself alone |
| Text.LineEndAt | local_installer.py:92 | a line ends at the first break after its start |
| Text.TerminatedLine | local_installer.py:92 | a non-empty text without line breaks followed by a line feed is split into that text alone: the final break starts no empty line |
| Text.LinesFromCover | local_installer.py:50 | the lines from a position on, each followed by a line feed, spell out the rest of the text with every break read as one line feed, plus a line feed where the text does not end in a break |
| Text.LinesCover | local_installer.py:92 | the lines cover the whole text: written out each followed by a line feed they give the text with its breaks (`\r\n` counted as one) turned into line feeds, and a final break starts no further line |
| Text.LinesOfLineFeeds | local_installer.py:50 | for a text whose only breaks are line feeds, the lines each followed by a line feed give back the text itself, plus a line feed if it did not end in one |
| Text.NormalizeLine | local_installer.py:50 | the line starting at a position is copied unchanged into the normalized text, up to its break |
| Installer.AppendAttempt | local_installer.py:158-231 | recording an attempt that follows from what was downloaded keeps every earlier attempt valid and grows the downloaded set by exactly that attempt's downloads |
| Installer.ExtendRun | local_installer.py:158-231 | a run extended by one valid attempt is still under way, and it is a complete run whose stop reason is that attempt's verdict when the attempt stops the loop |
| Installer.ExhaustedRun | local_installer.py:158 | a run that used every allowed attempt, each letting the loop go on, is a complete run stopped by the bound |
| Installer.FetchInitialDependencies | local_installer.py:148-156 | every initial dependency other than the main package is fetched once, in phase 0, and the downloaded set is the main package plus those whose fetch returned a path |
| Installer.FetchNewlyIdentified | local_installer.py:211-221 | every newly identified name is fetched once; the ones whose fetch returned a path are added to the downloaded set and counted |
| Installer.AfterFailedAttempt | local_installer.py:195-224 | after a failed pip run, exactly the reported names not yet downloaded are fetched; the loop stops, with the right verdict, when nothing is reported, nothing is new, or nothing is downloaded |
| Installer.InstallAttempt | local_installer.py:158-231 | one attempt runs pip once; success or an exception ends the loop, a failure leads to the fetches above; the run record grows by that attempt |
| Installer.RetryInstall | local_installer.py:158-233 | from a seeded run, the loop returns a complete run of the installer (at most `max_retries` attempts, each following from the previous ones), its stop reason, and true exactly when that reason is `Installed` |
| Installer.InstallPackagesLocally | local_installer.py:109-233 | the run made is a run of the installer, and the boolean result is true if and only if its stop reason is `Installed`; `max_retries` defaults to 5 |
| InstallerProperties.MainUnavailableRun | local_installer.py:136-139 | if the main fetch gives no path, nothing else is fetched, pip is never run and the result is false |
| InstallerProperties.SeedFetchedOnce | local_installer.py:145-156 | each declared dependency other than the main package is fetched exactly once before the first attempt, whatever the other seed fetches return |
| InstallerProperties.AtMostMaxRetries | local_installer.py:158-159 | there are at most `max_retries` pip runs, and none when it is zero or negative |
| InstallerProperties.InstalledIffSucceeded | local_installer.py:186-189 | the result is true if and only if some pip run exited with status 0, and no attempt follows a successful one |
| InstallerProperties.DownloadedGrows | local_installer.py:142-217 | `downloaded_packages` holds the main package from the start and only grows |
| InstallerProperties.SeedDownloadedKept | local_installer.py:152-154 | a seed fetch that returned a path leaves its name in `downloaded_packages` for the whole run |
| InstallerProperties.FetchDownloadedKept | local_installer.py:215-217 | a fetch after attempt `j` that returned a path leaves its name in `downloaded_packages` once that attempt is over, for the rest of the run |
| InstallerProperties.DownloadedWereFetched | local_installer.py:142-217 | a name is in `downloaded_packages` only if it is the main package or one of its fetches returned a path |
| InstallerProperties.FetchedOnlyNew | local_installer.py:195-215 | a name fetched after an attempt was reported missing by that failed pip run and was not downloaded then or at any earlier point |
| InstallerProperties.FetchedExactlyNew | local_installer.py:203-215 | every reported name not yet downloaded is fetched exactly once after that attempt |
| InstallerProperties.FailedFetchNotRecorded | local_installer.py:215-220 | a name whose fetch failed is not in `downloaded_packages` afterwards |
| InstallerProperties.StopConditions | local_installer.py:195-224 | after a failed pip run, the loop stops if and only if nothing was reported, nothing reported is new, or no new name was downloaded |
| InstallerProperties.StopIsLast | local_installer.py:195-231 | an attempt that stops the loop is the last one and decides the stop reason |
| InstallerProperties.ExhaustedOnlyAtBound | local_installer.py:158 | a run stops with its retries exhausted only after exactly `max_retries` attempts |
| InstallerProperties.CleanSuccess | local_installer.py:136-189 | when the main fetch succeeds and the first pip run exits 0, there is exactly one attempt and the result is true |
| InstallerProperties.FirstReportFetched | local_installer.py:195-221 | when the first pip run reports only one undeclared name, that name alone is fetched after it |
| InstallerProperties.OneMissingDependency | local_installer.py:158-233 | one missing dependency that can be fetched, then a successful pip run: exactly two attempts, the result true, both names downloaded |
| InstallerProperties.UnfetchableDependency | local_installer.py:211-224 | one missing dependency that cannot be fetched: one attempt, stopped for lack of download progress |
| InstallerProperties.RepeatedReportStops | local_installer.py:203-224 | if every pip run reports the same single name, there are at most two attempts; when the main package was fetched and `max_retries` is at least 2, the loop stops at the second attempt at the latest, because nothing new was reported or nothing could be fetched |

## Left out

- `pypi_fetcher.py` is not part of this model. The browser automation that downloads a wheel is the `Fetcher` parameter.
- `pipass.py` is not part of this model. The command line, `--clean` and the environment set-up only call the installer.
- The pip command line and `subprocess.run` (local_installer.py:169-184) are the `Pip` parameter. `FileNotFoundError` and any other exception are both `Raised`, as both stop the loop with a false result.
- `download_dir` is not modelled. The directory pip searches is whatever the fetches left there, and that is inside the `Pip` and `Disk` parameters.
- The extractor's temporary directory, the extraction, the file open and the clean-up (local_installer.py:33-34, 46-49, 63-65) are not modelled. They are file-system effects, and the archive is given as its members' decoded texts. Zip path sanitising on extraction is not modelled either.
- Metadata.ExtractDependencies: a decoding error half way through the METADATA file leaves the names read so far in the source. The model decodes the whole member up front, so an unreadable wheel yields the empty set and a partial set is never produced.
- An exception raised by `fetch_func` itself is not modelled; the fetcher always answers with a path or none. In the source, the effect depends on where the fetch is made. A fetch after a failed attempt (local_installer.py:215) is inside the `try` of line 178, so an exception there stops the loop with a false result, like `Raised`. An exception from the fetch of the main package (line 136) or from a seed fetch (line 152) reaches the caller.
- All `print` logging and the `__main__` block (local_installer.py:235 on) are not modelled. One consequence is not captured: a `print` of pip's output that raises at local_installer.py:187-188, after exit status 0, is caught at line 228 before line 189 sets success, and makes the result false, while the model gives `Installed`.
- The `.strip()` on captured names is not modelled. A captured name is made of name characters only, so it has no white space to strip.
