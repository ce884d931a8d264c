/**
 * The installation orchestrator: fetch the main package, seed its declared
 * dependencies, then alternate offline pip attempts with fetching the names
 * pip reports missing, for a bounded number of attempts.
 *
 * The collaborators are parameters. The network fetch is a `Fetcher`, pip is
 * a `Pip`, and the files the fetches leave behind are a `Disk`. The method
 * also returns a `Run`, the record of every call it made to them, so that its
 * contract and the lemmas can speak about what happened.
 */
module Installer {
  import opened Wrappers
  import Metadata
  import PipErrors

  type Path = string

  /**
   * The fetch capability. `fetch(phase, name)` is the path returned when
   * `name` is fetched in `phase`: phase 0 is before the first installation
   * attempt, phase `a` follows attempt `a`. A run fetches a name at most once
   * per phase, so this covers a network whose answers change over time.
   */
  type Fetcher = (nat, string) -> Option<Path>

  /** What one offline pip attempt gives back: its exit status and output, or an exception anywhere in the attempt. */
  datatype InstallOutcome = Exited(code: int, stdout: string, stderr: string) | Raised

  /** The offline pip capability: the outcome of attempt `a`, counting from 1. */
  type Pip = nat -> InstallOutcome

  /** What the extractor finds at a path: the wheel's members, or `None` if it cannot be opened. */
  type Disk = Path -> Option<seq<Metadata.Entry>>

  /** One call of the fetch capability: the name asked for and the answer. */
  datatype FetchCall = FetchCall(name: string, got: Option<Path>)

  /** One installation attempt: what pip returned and the fetches made because of it. */
  datatype Attempt = Attempt(outcome: InstallOutcome, fetched: seq<FetchCall>)

  /** Everything a run did: the fetch of the main package, the seed fetches and the attempts. */
  datatype Run = Run(main: FetchCall, seeds: seq<FetchCall>, attempts: seq<Attempt>)

  /** Why a run stopped; only `Installed` is reported as success. */
  datatype StopReason =
    | Installed           // pip exited with status 0
    | MainUnavailable     // the main package could not be fetched
    | Unparseable         // pip failed and no missing name was recognized
    | Stalled             // every reported name had already been downloaded
    | NoDownloadProgress  // none of the newly reported names could be fetched
    | InstallRaised       // running pip raised an exception
    | RetriesExhausted    // the attempt bound was reached

  /** A fetch result counts as a download only if it is a non-empty path, as Python's `if path:` decides. */
  predicate Downloaded(got: Option<Path>) {
    got.Some? && got.value != ""
  }

  predicate Succeeded(outcome: InstallOutcome) {
    outcome.Exited? && outcome.code == 0
  }

  predicate FailedWithStatus(outcome: InstallOutcome) {
    outcome.Exited? && outcome.code != 0
  }

  /** The number of attempts `max_retries` allows (none when it is zero or negative). */
  function Bound(maxRetries: int): (n: nat) {
    if maxRetries < 0 then 0 else maxRetries
  }

  /** The names asked for in a sequence of fetch calls. */
  function Names(calls: seq<FetchCall>): (names: set<string>) {
    if calls == [] then {}
    else Names(calls[..|calls| - 1]) + {calls[|calls| - 1].name}
  }

  /** The names whose fetch returned a path. */
  function Gained(calls: seq<FetchCall>): (gained: set<string>) {
    if calls == [] then {}
    else
      var last := calls[|calls| - 1];
      Gained(calls[..|calls| - 1]) + (if Downloaded(last.got) then {last.name} else {})
  }

  predicate Distinct(calls: seq<FetchCall>) {
    forall i, j :: 0 <= i < j < |calls| ==> calls[i].name != calls[j].name
  }

  /** Every call got the answer the fetch capability gives in that phase. */
  predicate Answered(calls: seq<FetchCall>, fetch: Fetcher, phase: nat) {
    forall i :: 0 <= i < |calls| ==> calls[i].got == fetch(phase, calls[i].name)
  }

  /** The names downloaded during a sequence of attempts. */
  function GainedIn(attempts: seq<Attempt>): (gained: set<string>) {
    if attempts == [] then {}
    else GainedIn(attempts[..|attempts| - 1]) + Gained(attempts[|attempts| - 1].fetched)
  }

  /**
   * `downloaded_packages` once the first `i` attempts are over. It describes
   * the set from the insertion of the main package on, so it is consulted
   * only for runs whose main fetch returned a path; any other run has no
   * attempts and never reaches that insertion.
   */
  function DownloadedAfter(run: Run, i: nat): (downloaded: set<string>)
    requires i <= |run.attempts|
  {
    {run.main.name} + Gained(run.seeds) + GainedIn(run.attempts[..i])
  }

  /**
   * The names an attempt leads to fetch: when pip failed with a status, the
   * names it reported missing that are not downloaded yet.
   */
  function ToFetch(outcome: InstallOutcome, downloaded: set<string>): (names: set<string>) {
    if FailedWithStatus(outcome) then PipErrors.MissingDependencies(outcome.stderr) - downloaded else {}
  }

  /** An attempt after which the loop goes on: pip failed and at least one new name was downloaded. */
  predicate Continues(a: Attempt) {
    FailedWithStatus(a.outcome) && Gained(a.fetched) != {}
  }

  /** Attempt `i` of the run asked pip, then fetched exactly the new missing names, each once. */
  predicate AttemptFollows(run: Run, i: nat, fetch: Fetcher, pip: Pip)
    requires i < |run.attempts|
  {
    var a := run.attempts[i];
    && a.outcome == pip(i + 1)
    && Names(a.fetched) == ToFetch(a.outcome, DownloadedAfter(run, i))
    && Distinct(a.fetched)
    && Answered(a.fetched, fetch, i + 1)
  }

  /** The seed phase fetched every declared dependency other than the main package, each once. */
  predicate SeedsFollow(run: Run, fetch: Fetcher, disk: Disk)
    requires Downloaded(run.main.got)
  {
    && Names(run.seeds) == Metadata.DeclaredDependencies(disk(run.main.got.value)) - {run.main.name}
    && Distinct(run.seeds)
    && Answered(run.seeds, fetch, 0)
  }

  /** The attempts follow one another, and the loop stops exactly when it must. */
  predicate AttemptsFollow(run: Run, maxRetries: int, fetch: Fetcher, pip: Pip) {
    && |run.attempts| <= Bound(maxRetries)
    && (forall i :: 0 <= i < |run.attempts| ==> AttemptFollows(run, i, fetch, pip))
    && (forall i :: 0 <= i < |run.attempts| - 1 ==> Continues(run.attempts[i]))
    && (|run.attempts| < Bound(maxRetries) ==>
          run.attempts != [] && !Continues(run.attempts[|run.attempts| - 1]))
  }

  /** `run` is a run of the installer for `mainName` against these collaborators. */
  predicate IsRunOf(mainName: string, maxRetries: int, fetch: Fetcher, pip: Pip, disk: Disk, run: Run) {
    && run.main == FetchCall(mainName, fetch(0, mainName))
    && if Downloaded(run.main.got) then
         SeedsFollow(run, fetch, disk) && AttemptsFollow(run, maxRetries, fetch, pip)
       else
         run.seeds == [] && run.attempts == []
  }

  /** Why a run stops, read off its record. */
  function Classify(run: Run): (reason: StopReason) {
    if !Downloaded(run.main.got) then MainUnavailable
    else if run.attempts == [] then RetriesExhausted
    else Verdict(run.attempts[|run.attempts| - 1], DownloadedAfter(run, |run.attempts| - 1))
  }

  /** Why the loop stops after attempt `a`, given what was downloaded before it. */
  function Verdict(a: Attempt, before: set<string>): (reason: StopReason) {
    match a.outcome
    case Raised => InstallRaised
    case Exited(code, _, stderr) =>
      if code == 0 then Installed
      else if PipErrors.MissingDependencies(stderr) == {} then Unparseable
      else if PipErrors.MissingDependencies(stderr) - before == {} then Stalled
      else if Gained(a.fetched) == {} then NoDownloadProgress
      else RetriesExhausted
  }

  lemma {:induction false} GainedWithinNames(calls: seq<FetchCall>)
    ensures Gained(calls) <= Names(calls)
  {
    if calls != [] {
      GainedWithinNames(calls[..|calls| - 1]);
    }
  }

  lemma AppendCall(calls: seq<FetchCall>, c: FetchCall)
    ensures Names(calls + [c]) == Names(calls) + {c.name}
    ensures Gained(calls + [c]) == Gained(calls) + (if Downloaded(c.got) then {c.name} else {})
  {
    assert (calls + [c])[..|calls|] == calls;
  }

  /** Adding a call for a new name keeps the calls distinct and answered. */
  lemma AppendNewCall(calls: seq<FetchCall>, c: FetchCall, fetch: Fetcher, phase: nat)
    requires Distinct(calls) && Answered(calls, fetch, phase)
    requires c.name !in Names(calls) && c.got == fetch(phase, c.name)
    ensures Distinct(calls + [c]) && Answered(calls + [c], fetch, phase)
  {
    forall i | 0 <= i < |calls|
      ensures calls[i].name in Names(calls)
    {
      NameOfCall(calls, i);
    }
  }

  lemma {:induction false} NameOfCall(calls: seq<FetchCall>, i: nat)
    requires i < |calls|
    ensures calls[i].name in Names(calls)
  {
    if i < |calls| - 1 {
      NameOfCall(calls[..|calls| - 1], i);
    }
  }

  /**
   * Recording one more attempt that follows from what was downloaded so far:
   * every attempt of the longer run still follows, and the downloaded set
   * grows by what that attempt downloaded.
   */
  lemma AppendAttempt(run: Run, a: Attempt, fetch: Fetcher, pip: Pip)
    requires forall i :: 0 <= i < |run.attempts| ==> AttemptFollows(run, i, fetch, pip)
    requires a.outcome == pip(|run.attempts| + 1)
    requires Names(a.fetched) == ToFetch(a.outcome, DownloadedAfter(run, |run.attempts|))
    requires Distinct(a.fetched) && Answered(a.fetched, fetch, |run.attempts| + 1)
    ensures var run' := run.(attempts := run.attempts + [a]);
      && (forall i :: 0 <= i < |run'.attempts| ==> AttemptFollows(run', i, fetch, pip))
      && DownloadedAfter(run', |run.attempts|) == DownloadedAfter(run, |run.attempts|)
      && DownloadedAfter(run', |run'.attempts|) == DownloadedAfter(run, |run.attempts|) + Gained(a.fetched)
  {
    var run' := run.(attempts := run.attempts + [a]);
    var n := |run.attempts|;
    forall i | 0 <= i <= n
      ensures DownloadedAfter(run', i) == DownloadedAfter(run, i)
    {
      assert run'.attempts[..i] == run.attempts[..i];
    }
    assert run'.attempts[..n + 1][..n] == run.attempts[..n];
    assert run'.attempts[..n + 1] == run'.attempts[..n] + [a];
    forall i | 0 <= i < n + 1
      ensures AttemptFollows(run', i, fetch, pip)
    {
      if i < n {
        assert run'.attempts[i] == run.attempts[i];
        assert AttemptFollows(run, i, fetch, pip);
      }
    }
  }

  /** One turn of the seed loop: a pending name is new unless it is the main package. */
  lemma SeedStep(mainName: string, initialDeps: set<string>, pending: set<string>, dep: string, seeds: seq<FetchCall>)
    requires dep in pending && pending <= initialDeps
    requires Names(seeds) == initialDeps - pending - {mainName}
    ensures dep in {mainName} + Gained(seeds) <==> dep == mainName
    ensures dep == mainName ==> Names(seeds) == initialDeps - (pending - {dep}) - {mainName}
  {
    GainedWithinNames(seeds);
  }

  /** Moving one element from the pending part of a set to the done part. */
  lemma TakeOne(all: set<string>, pending: set<string>, x: string, done: set<string>)
    requires x in pending && pending <= all && done == all - pending
    ensures x !in done && done + {x} == all - (pending - {x})
  {
  }

  /** Fetching a name not fetched before in this phase. */
  lemma AppendFetch(calls: seq<FetchCall>, dep: string, fetch: Fetcher, phase: nat)
    requires Distinct(calls) && Answered(calls, fetch, phase) && dep !in Names(calls)
    ensures var calls' := calls + [FetchCall(dep, fetch(phase, dep))];
      && Names(calls') == Names(calls) + {dep}
      && Distinct(calls') && Answered(calls', fetch, phase)
      && Gained(calls') == Gained(calls) + (if Downloaded(fetch(phase, dep)) then {dep} else {})
      && (Downloaded(fetch(phase, dep)) ==> |Gained(calls')| == |Gained(calls)| + 1)
      && (!Downloaded(fetch(phase, dep)) ==> |Gained(calls')| == |Gained(calls)|)
  {
    var call := FetchCall(dep, fetch(phase, dep));
    AppendNewCall(calls, call, fetch, phase);
    AppendCall(calls, call);
    GainedWithinNames(calls);
  }

  /** A turn of the seed loop that fetches `dep` keeps the loop's invariants. */
  lemma SeedFetched(mainName: string, initialDeps: set<string>, pending: set<string>, dep: string,
                    seeds: seq<FetchCall>, fetch: Fetcher)
    requires dep in pending && pending <= initialDeps && dep != mainName
    requires Names(seeds) == initialDeps - pending - {mainName}
    requires Distinct(seeds) && Answered(seeds, fetch, 0)
    ensures var seeds' := seeds + [FetchCall(dep, fetch(0, dep))];
      && Names(seeds') == initialDeps - (pending - {dep}) - {mainName}
      && Distinct(seeds') && Answered(seeds', fetch, 0)
      && {mainName} + Gained(seeds') == {mainName} + Gained(seeds) + (if Downloaded(fetch(0, dep)) then {dep} else {})
  {
    var call := FetchCall(dep, fetch(0, dep));
    AppendNewCall(seeds, call, fetch, 0);
    AppendCall(seeds, call);
  }

  /**
   * The seed loop: every initial dependency not yet downloaded is fetched
   * once; a failed fetch is reported and the loop goes on.
   */
  method FetchInitialDependencies(mainName: string, initialDeps: set<string>, fetch: Fetcher)
    returns (seeds: seq<FetchCall>, downloaded: set<string>)
    ensures Names(seeds) == initialDeps - {mainName}
    ensures Distinct(seeds) && Answered(seeds, fetch, 0)
    ensures downloaded == {mainName} + Gained(seeds)
  {
    downloaded := {mainName};
    var pending := initialDeps;
    seeds := [];
    while pending != {}
      invariant pending <= initialDeps
      invariant Names(seeds) == initialDeps - pending - {mainName}
      invariant Distinct(seeds) && Answered(seeds, fetch, 0)
      invariant downloaded == {mainName} + Gained(seeds)
      decreases |pending|
    {
      var dep :| dep in pending;
      SeedStep(mainName, initialDeps, pending, dep, seeds);
      if dep !in downloaded {
        SeedFetched(mainName, initialDeps, pending, dep, seeds, fetch);
        var depPath := fetch(0, dep);
        seeds := seeds + [FetchCall(dep, depPath)];
        if Downloaded(depPath) {
          downloaded := downloaded + {dep};
        }
      }
      pending := pending - {dep};
    }
  }

  /**
   * The fetch loop of a failed attempt: every newly identified name is
   * fetched once, and the successful downloads are recorded and counted.
   */
  method FetchNewlyIdentified(newlyIdentified: set<string>, downloaded: set<string>, fetch: Fetcher, phase: nat)
    returns (fetched: seq<FetchCall>, downloaded': set<string>, downloadSuccessCount: nat)
    ensures Names(fetched) == newlyIdentified
    ensures Distinct(fetched) && Answered(fetched, fetch, phase)
    ensures downloaded' == downloaded + Gained(fetched)
    ensures downloadSuccessCount == |Gained(fetched)|
  {
    downloaded' := downloaded;
    downloadSuccessCount := 0;
    fetched := [];
    var wanted := newlyIdentified;
    while wanted != {}
      invariant wanted <= newlyIdentified
      invariant Names(fetched) == newlyIdentified - wanted
      invariant Distinct(fetched) && Answered(fetched, fetch, phase)
      invariant downloaded' == downloaded + Gained(fetched)
      invariant downloadSuccessCount == |Gained(fetched)|
      decreases |wanted|
    {
      var dep :| dep in wanted;
      TakeOne(newlyIdentified, wanted, dep, Names(fetched));
      AppendFetch(fetched, dep, fetch, phase);
      var depPath := fetch(phase, dep);
      fetched := fetched + [FetchCall(dep, depPath)];
      if Downloaded(depPath) {
        downloaded' := downloaded' + {dep};
        downloadSuccessCount := downloadSuccessCount + 1;
      }
      wanted := wanted - {dep};
    }
  }

  /**
   * What follows a failed attempt: the missing names are read from pip's
   * error output, the new ones are fetched, and the loop stops unless at
   * least one of them was downloaded.
   */
  method AfterFailedAttempt(outcome: InstallOutcome, downloaded: set<string>, fetch: Fetcher, attempt: nat)
    returns (fetched: seq<FetchCall>, downloaded': set<string>, stop: Option<StopReason>)
    requires FailedWithStatus(outcome)
    ensures Names(fetched) == ToFetch(outcome, downloaded)
    ensures Distinct(fetched) && Answered(fetched, fetch, attempt)
    ensures downloaded' == downloaded + Gained(fetched)
    ensures stop == if Continues(Attempt(outcome, fetched)) then None
                    else Some(Verdict(Attempt(outcome, fetched), downloaded))
  {
    fetched, downloaded' := [], downloaded;
    var missingDeps := PipErrors.ParseMissingDeps(outcome.stderr);
    if missingDeps == {} {
      stop := Some(Unparseable);
      return;
    }
    var newlyIdentified := missingDeps - downloaded;
    if newlyIdentified == {} {
      stop := Some(Stalled);
      return;
    }
    var downloadSuccessCount;
    fetched, downloaded', downloadSuccessCount := FetchNewlyIdentified(newlyIdentified, downloaded, fetch, attempt);
    if downloadSuccessCount == 0 && |newlyIdentified| > 0 {
      stop := Some(NoDownloadProgress);
      return;
    }
    stop := None;
  }

  /** What holds of a run between two installation attempts. */
  predicate Ongoing(run: Run, mainName: string, maxRetries: int, fetch: Fetcher, pip: Pip, disk: Disk) {
    && run.main == FetchCall(mainName, fetch(0, mainName))
    && Downloaded(run.main.got)
    && SeedsFollow(run, fetch, disk)
    && |run.attempts| <= Bound(maxRetries)
    && (forall i :: 0 <= i < |run.attempts| ==> AttemptFollows(run, i, fetch, pip))
    && (forall i :: 0 <= i < |run.attempts| - 1 ==> Continues(run.attempts[i]))
  }

  /** Every attempt so far, the last one included, let the loop go on. */
  predicate AllContinue(run: Run) {
    run.attempts == [] || Continues(run.attempts[|run.attempts| - 1])
  }

  /**
   * One more attempt that follows from the run so far: the longer run is
   * still ongoing, and it is a complete run if that attempt stops the loop.
   */
  lemma ExtendRun(run: Run, a: Attempt, mainName: string, maxRetries: int, fetch: Fetcher, pip: Pip, disk: Disk)
    requires Ongoing(run, mainName, maxRetries, fetch, pip, disk) && AllContinue(run)
    requires |run.attempts| < Bound(maxRetries)
    requires a.outcome == pip(|run.attempts| + 1)
    requires Names(a.fetched) == ToFetch(a.outcome, DownloadedAfter(run, |run.attempts|))
    requires Distinct(a.fetched) && Answered(a.fetched, fetch, |run.attempts| + 1)
    ensures var run' := run.(attempts := run.attempts + [a]);
      && Ongoing(run', mainName, maxRetries, fetch, pip, disk)
      && DownloadedAfter(run', |run.attempts|) == DownloadedAfter(run, |run.attempts|)
      && DownloadedAfter(run', |run'.attempts|) == DownloadedAfter(run, |run.attempts|) + Gained(a.fetched)
      && Classify(run') == Verdict(a, DownloadedAfter(run, |run.attempts|))
      && (!Continues(a) ==> IsRunOf(mainName, maxRetries, fetch, pip, disk, run'))
  {
    var run' := run.(attempts := run.attempts + [a]);
    AppendAttempt(run, a, fetch, pip);
    assert run'.attempts[..|run.attempts|] == run.attempts;
    assert SeedsFollow(run', fetch, disk);
    forall i | 0 <= i < |run'.attempts| - 1
      ensures Continues(run'.attempts[i])
    {
      assert run'.attempts[i] == run.attempts[i];
    }
  }

  /** A run that used up every allowed attempt, each of which let the loop go on. */
  lemma ExhaustedRun(run: Run, mainName: string, maxRetries: int, fetch: Fetcher, pip: Pip, disk: Disk)
    requires Ongoing(run, mainName, maxRetries, fetch, pip, disk) && AllContinue(run)
    requires |run.attempts| == Bound(maxRetries)
    ensures IsRunOf(mainName, maxRetries, fetch, pip, disk, run)
    ensures Classify(run) == RetriesExhausted
  {
    if run.attempts != [] {
      var n := |run.attempts|;
      var last := run.attempts[n - 1];
      assert AttemptFollows(run, n - 1, fetch, pip);
      GainedWithinNames(last.fetched);
    }
  }

  /**
   * One installation attempt and what follows it: pip is run; on success or
   * on an exception the loop ends, and on failure the newly reported names
   * are fetched. `stop` is the reason the loop ends after this attempt, if
   * it does.
   */
  method InstallAttempt(run: Run, downloaded: set<string>, attempt: nat,
                        mainName: string, maxRetries: int, fetch: Fetcher, pip: Pip, disk: Disk)
    returns (run': Run, downloaded': set<string>, stop: Option<StopReason>)
    requires Ongoing(run, mainName, maxRetries, fetch, pip, disk) && AllContinue(run)
    requires attempt == |run.attempts| + 1 <= Bound(maxRetries)
    requires downloaded == DownloadedAfter(run, |run.attempts|)
    ensures run'.main == run.main && run'.seeds == run.seeds
    ensures |run'.attempts| == attempt && run'.attempts[..attempt - 1] == run.attempts
    ensures Ongoing(run', mainName, maxRetries, fetch, pip, disk)
    ensures downloaded' == DownloadedAfter(run', attempt)
    ensures stop.None? <==> AllContinue(run')
    ensures stop.Some? ==> IsRunOf(mainName, maxRetries, fetch, pip, disk, run') && stop.value == Classify(run')
  {
    var outcome := pip(attempt);
    var fetched: seq<FetchCall> := [];
    downloaded' := downloaded;
    match outcome {
      case Raised =>
        stop := Some(InstallRaised);
      case Exited(code, stdout, stderr) =>
        if code == 0 {
          stop := Some(Installed);
        } else {
          fetched, downloaded', stop := AfterFailedAttempt(outcome, downloaded, fetch, attempt);
        }
    }
    ExtendRun(run, Attempt(outcome, fetched), mainName, maxRetries, fetch, pip, disk);
    run' := run.(attempts := run.attempts + [Attempt(outcome, fetched)]);
    assert run'.attempts[..attempt - 1] == run.attempts;
  }

  /**
   * The retry loop: attempts follow one another while the previous one let
   * the loop go on and the bound allows.
   */
  method RetryInstall(run0: Run, downloaded0: set<string>,
                      mainName: string, maxRetries: int, fetch: Fetcher, pip: Pip, disk: Disk)
    returns (installed: bool, reason: StopReason, run: Run)
    requires Ongoing(run0, mainName, maxRetries, fetch, pip, disk) && run0.attempts == []
    requires downloaded0 == DownloadedAfter(run0, 0)
    ensures run.main == run0.main && run.seeds == run0.seeds
    ensures IsRunOf(mainName, maxRetries, fetch, pip, disk, run)
    ensures reason == Classify(run)
    ensures installed <==> reason == Installed
  {
    installed, run := false, run0;
    var attempt := 0;
    var downloaded := downloaded0;
    reason := RetriesExhausted;
    while !installed && attempt < maxRetries
      invariant attempt == |run.attempts|
      invariant run.main == run0.main && run.seeds == run0.seeds
      invariant Ongoing(run, mainName, maxRetries, fetch, pip, disk)
      invariant downloaded == DownloadedAfter(run, |run.attempts|)
      invariant !installed ==> reason == RetriesExhausted && AllContinue(run)
      invariant installed ==> reason == Installed && IsRunOf(mainName, maxRetries, fetch, pip, disk, run) && Classify(run) == Installed
      decreases Bound(maxRetries) - attempt
    {
      attempt := attempt + 1;
      var stop;
      run, downloaded, stop := InstallAttempt(run, downloaded, attempt, mainName, maxRetries, fetch, pip, disk);
      if stop == Some(Installed) {
        installed := true;
        reason := Installed;
      } else if stop.Some? {
        reason := stop.value;
        break;
      }
    }
    if !installed && reason == RetriesExhausted {
      ExhaustedRun(run, mainName, maxRetries, fetch, pip, disk);
    }
  }

  /**
   * `install_packages_locally`: returns whether pip eventually exited with
   * status 0, together with the stop reason and the record of the run.
   */
  method InstallPackagesLocally(mainName: string, fetch: Fetcher, pip: Pip, disk: Disk, maxRetries: int := 5)
    returns (installed: bool, reason: StopReason, run: Run)
    ensures IsRunOf(mainName, maxRetries, fetch, pip, disk, run)
    ensures reason == Classify(run)
    ensures installed <==> reason == Installed
  {
    var mainPath := fetch(0, mainName);
    if !Downloaded(mainPath) {
      installed, reason, run := false, MainUnavailable, Run(FetchCall(mainName, mainPath), [], []);
      return;
    }
    var initialDeps := Metadata.ExtractDependencies(disk(mainPath.value));
    var seeds, downloaded := FetchInitialDependencies(mainName, initialDeps, fetch);
    installed, reason, run := RetryInstall(Run(FetchCall(mainName, mainPath), seeds, []), downloaded,
                                           mainName, maxRetries, fetch, pip, disk);
  }
}
