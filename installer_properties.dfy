/**
 * Properties of every run of the installer: what `IsRunOf` implies about
 * the fetches made, the set of downloaded packages and the result.
 */
module InstallerProperties {
  import opened Wrappers
  import Metadata
  import PipErrors
  import opened Installer

  /** A name in `Names(calls)` is the name of one of the calls. */
  lemma {:induction false} NameIndex(calls: seq<FetchCall>, d: string) returns (k: nat)
    requires d in Names(calls)
    ensures k < |calls| && calls[k].name == d
  {
    var init := calls[..|calls| - 1];
    if d in Names(init) {
      k := NameIndex(init, d);
    } else {
      k := |calls| - 1;
    }
  }

  /** A name in `Gained(calls)` is the name of a call that returned a path. */
  lemma {:induction false} GainedIndex(calls: seq<FetchCall>, d: string) returns (k: nat)
    requires d in Gained(calls)
    ensures k < |calls| && calls[k].name == d && Downloaded(calls[k].got)
  {
    var init := calls[..|calls| - 1];
    if d in Gained(init) {
      k := GainedIndex(init, d);
    } else {
      k := |calls| - 1;
    }
  }

  /** A call that returned a path puts its name in `Gained`. */
  lemma {:induction false} GainedOfIndex(calls: seq<FetchCall>, k: nat)
    requires k < |calls| && Downloaded(calls[k].got)
    ensures calls[k].name in Gained(calls)
  {
    if k < |calls| - 1 {
      GainedOfIndex(calls[..|calls| - 1], k);
    }
  }

  /** A name no call asked for is not in `Names`. */
  lemma {:induction false} NotNamed(calls: seq<FetchCall>, d: string)
    requires forall j :: 0 <= j < |calls| ==> calls[j].name != d
    ensures d !in Names(calls)
  {
    if calls != [] {
      NotNamed(calls[..|calls| - 1], d);
    }
  }

  /** Among calls for distinct names, one whose fetch failed leaves its name out of `Gained`. */
  lemma {:induction false} NotGained(calls: seq<FetchCall>, k: nat)
    requires Distinct(calls) && k < |calls| && !Downloaded(calls[k].got)
    ensures calls[k].name !in Gained(calls)
  {
    var n := |calls| - 1;
    var init := calls[..n];
    GainedWithinNames(init);
    if k < n {
      NotGained(init, k);
    } else {
      NotNamed(init, calls[n].name);
    }
  }

  /** A name downloaded during some attempts was downloaded during one of them. */
  lemma {:induction false} GainedInIndex(attempts: seq<Attempt>, d: string) returns (j: nat)
    requires d in GainedIn(attempts)
    ensures j < |attempts| && d in Gained(attempts[j].fetched)
  {
    var init := attempts[..|attempts| - 1];
    if d in GainedIn(init) {
      j := GainedInIndex(init, d);
    } else {
      j := |attempts| - 1;
    }
  }

  /** The downloaded set after attempt `i` adds what that attempt downloaded. */
  lemma DownloadedStep(run: Run, i: nat)
    requires i < |run.attempts|
    ensures DownloadedAfter(run, i + 1) == DownloadedAfter(run, i) + Gained(run.attempts[i].fetched)
  {
    assert run.attempts[..i + 1][..i] == run.attempts[..i];
  }

  /**
   * `downloaded_packages` only grows from one attempt to the next, and it
   * holds the main package name from the start.
   */
  lemma {:induction false} DownloadedGrows(run: Run, i: nat, j: nat)
    requires i <= j <= |run.attempts|
    ensures run.main.name in DownloadedAfter(run, i)
    ensures DownloadedAfter(run, i) <= DownloadedAfter(run, j)
    decreases j - i
  {
    if i < j {
      DownloadedGrows(run, i, j - 1);
      DownloadedStep(run, j - 1);
    }
  }

  /**
   * A name is in `downloaded_packages` only if it is the main package or
   * the fetch of that name returned a path, in the seed phase or after an
   * earlier attempt.
   */
  lemma DownloadedWereFetched(run: Run, i: nat, d: string)
    requires i <= |run.attempts| && d in DownloadedAfter(run, i)
    ensures || d == run.main.name
            || (exists k :: 0 <= k < |run.seeds| && run.seeds[k].name == d && Downloaded(run.seeds[k].got))
            || (exists j, k :: 0 <= j < i && 0 <= k < |run.attempts[j].fetched| &&
                  run.attempts[j].fetched[k].name == d && Downloaded(run.attempts[j].fetched[k].got))
  {
    if d != run.main.name {
      if d in Gained(run.seeds) {
        var k := GainedIndex(run.seeds, d);
      } else {
        var j := GainedInIndex(run.attempts[..i], d);
        assert run.attempts[..i][j] == run.attempts[j];
        var k := GainedIndex(run.attempts[j].fetched, d);
      }
    }
  }

  /**
   * Conversely, a fetch that returned a path puts its name in
   * `downloaded_packages` for the rest of the run: a seed fetch from the
   * start, a fetch after attempt `j` once that attempt is over.
   */
  lemma SeedDownloadedKept(run: Run, k: nat, i: nat)
    requires k < |run.seeds| && Downloaded(run.seeds[k].got) && i <= |run.attempts|
    ensures run.seeds[k].name in DownloadedAfter(run, i)
  {
    GainedOfIndex(run.seeds, k);
  }

  lemma FetchDownloadedKept(run: Run, j: nat, k: nat, i: nat)
    requires j < i <= |run.attempts|
    requires k < |run.attempts[j].fetched| && Downloaded(run.attempts[j].fetched[k].got)
    ensures run.attempts[j].fetched[k].name in DownloadedAfter(run, i)
  {
    GainedOfIndex(run.attempts[j].fetched, k);
    DownloadedStep(run, j);
    DownloadedGrows(run, j + 1, i);
  }

  /** If the main package cannot be fetched, nothing else is fetched, pip is never run, and the result is false. */
  lemma MainUnavailableRun(mainName: string, maxRetries: int, fetch: Fetcher, pip: Pip, disk: Disk, run: Run)
    requires IsRunOf(mainName, maxRetries, fetch, pip, disk, run)
    requires !Downloaded(fetch(0, mainName))
    ensures run.seeds == [] && run.attempts == []
    ensures Classify(run) == MainUnavailable
  {
  }

  /**
   * Seeding: each declared dependency of the main package other than the
   * main package itself is fetched exactly once before the first attempt,
   * whatever the outcome of the other seed fetches.
   */
  lemma SeedFetchedOnce(mainName: string, maxRetries: int, fetch: Fetcher, pip: Pip, disk: Disk, run: Run, d: string)
    returns (k: nat)
    requires IsRunOf(mainName, maxRetries, fetch, pip, disk, run) && Downloaded(fetch(0, mainName))
    requires d in Metadata.DeclaredDependencies(disk(fetch(0, mainName).value)) && d != mainName
    ensures k < |run.seeds| && run.seeds[k] == FetchCall(d, fetch(0, d))
    ensures forall k' :: 0 <= k' < |run.seeds| && run.seeds[k'].name == d ==> k' == k
  {
    assert SeedsFollow(run, fetch, disk);
    k := NameIndex(run.seeds, d);
  }

  /** There are at most `max_retries` attempts, and none at all when it is zero or negative. */
  lemma AtMostMaxRetries(mainName: string, maxRetries: int, fetch: Fetcher, pip: Pip, disk: Disk, run: Run)
    requires IsRunOf(mainName, maxRetries, fetch, pip, disk, run)
    ensures |run.attempts| <= Bound(maxRetries)
    ensures maxRetries <= 0 ==> run.attempts == []
  {
  }

  /**
   * The result is true exactly when some pip run exited with status 0, and
   * no attempt follows a successful one.
   */
  lemma InstalledIffSucceeded(mainName: string, maxRetries: int, fetch: Fetcher, pip: Pip, disk: Disk, run: Run)
    requires IsRunOf(mainName, maxRetries, fetch, pip, disk, run)
    ensures Classify(run) == Installed <==>
              exists i :: 0 <= i < |run.attempts| && Succeeded(run.attempts[i].outcome)
    ensures forall i :: 0 <= i < |run.attempts| && Succeeded(run.attempts[i].outcome) ==> i == |run.attempts| - 1
  {
    if Classify(run) == Installed {
      assert Succeeded(run.attempts[|run.attempts| - 1].outcome);
    }
  }

  /**
   * In attempt `i` the names fetched are new: pip failed with a status,
   * reported each of them missing, and none of them was downloaded by then,
   * nor at any earlier point of the run.
   */
  lemma FetchedOnlyNew(mainName: string, maxRetries: int, fetch: Fetcher, pip: Pip, disk: Disk, run: Run,
                       i: nat, k: nat, j: nat)
    requires IsRunOf(mainName, maxRetries, fetch, pip, disk, run)
    requires i < |run.attempts| && k < |run.attempts[i].fetched| && j <= i
    ensures FailedWithStatus(run.attempts[i].outcome)
    ensures run.attempts[i].fetched[k].name in PipErrors.MissingDependencies(run.attempts[i].outcome.stderr)
    ensures run.attempts[i].fetched[k].name !in DownloadedAfter(run, j)
  {
    assert AttemptFollows(run, i, fetch, pip);
    NameOfCall(run.attempts[i].fetched, k);
    DownloadedGrows(run, j, i);
  }

  /**
   * The names fetched after attempt `i` are exactly the names pip reported
   * missing that were not downloaded yet, each fetched once.
   */
  lemma FetchedExactlyNew(mainName: string, maxRetries: int, fetch: Fetcher, pip: Pip, disk: Disk, run: Run,
                          i: nat, d: string)
    returns (k: nat)
    requires IsRunOf(mainName, maxRetries, fetch, pip, disk, run) && i < |run.attempts|
    requires FailedWithStatus(run.attempts[i].outcome)
    requires d in PipErrors.MissingDependencies(run.attempts[i].outcome.stderr) && d !in DownloadedAfter(run, i)
    ensures k < |run.attempts[i].fetched| && run.attempts[i].fetched[k] == FetchCall(d, fetch(i + 1, d))
    ensures forall k' :: 0 <= k' < |run.attempts[i].fetched| && run.attempts[i].fetched[k'].name == d ==> k' == k
  {
    assert AttemptFollows(run, i, fetch, pip);
    k := NameIndex(run.attempts[i].fetched, d);
  }

  /**
   * A name whose fetch failed is not recorded as downloaded, so pip may
   * report it again and it is then fetched again.
   */
  lemma FailedFetchNotRecorded(mainName: string, maxRetries: int, fetch: Fetcher, pip: Pip, disk: Disk, run: Run,
                               i: nat, k: nat)
    requires IsRunOf(mainName, maxRetries, fetch, pip, disk, run)
    requires i < |run.attempts| && k < |run.attempts[i].fetched|
    requires !Downloaded(run.attempts[i].fetched[k].got)
    ensures run.attempts[i].fetched[k].name !in DownloadedAfter(run, i + 1)
  {
    var calls := run.attempts[i].fetched;
    FetchedOnlyNew(mainName, maxRetries, fetch, pip, disk, run, i, k, i);
    DownloadedStep(run, i);
    assert AttemptFollows(run, i, fetch, pip);
    NotGained(calls, k);
  }

  /**
   * After a failed attempt the loop stops exactly when pip's output named
   * no missing package, when every name it named was downloaded already,
   * or when none of the new names could be fetched.
   */
  lemma StopConditions(mainName: string, maxRetries: int, fetch: Fetcher, pip: Pip, disk: Disk, run: Run, i: nat)
    requires IsRunOf(mainName, maxRetries, fetch, pip, disk, run) && i < |run.attempts|
    requires FailedWithStatus(run.attempts[i].outcome)
    ensures var a := run.attempts[i];
            var missing := PipErrors.MissingDependencies(a.outcome.stderr);
            !Continues(a) <==> missing == {} || missing - DownloadedAfter(run, i) == {} || Gained(a.fetched) == {}
  {
    assert AttemptFollows(run, i, fetch, pip);
    GainedWithinNames(run.attempts[i].fetched);
  }

  /**
   * An attempt that stops the loop is the last one, and it decides the
   * stop reason; any reason other than `Installed` means the result is
   * false.
   */
  lemma StopIsLast(mainName: string, maxRetries: int, fetch: Fetcher, pip: Pip, disk: Disk, run: Run, i: nat)
    requires IsRunOf(mainName, maxRetries, fetch, pip, disk, run) && i < |run.attempts|
    requires !Continues(run.attempts[i])
    ensures i == |run.attempts| - 1
    ensures Classify(run) == Verdict(run.attempts[i], DownloadedAfter(run, i))
  {
  }

  /** The attempt bound is the only reason the loop stops after an attempt that let it go on. */
  lemma ExhaustedOnlyAtBound(mainName: string, maxRetries: int, fetch: Fetcher, pip: Pip, disk: Disk, run: Run)
    requires IsRunOf(mainName, maxRetries, fetch, pip, disk, run)
    requires Classify(run) == RetriesExhausted
    ensures |run.attempts| == Bound(maxRetries)
  {
    if |run.attempts| < Bound(maxRetries) {
      var n := |run.attempts|;
      var last := run.attempts[n - 1];
      assert AttemptFollows(run, n - 1, fetch, pip);
      GainedWithinNames(last.fetched);
      assert Continues(last);
    }
  }

  /** Calls for distinct names that together ask for one name are a single call. */
  lemma SingleCall(calls: seq<FetchCall>, d: string)
    requires Names(calls) == {d} && Distinct(calls)
    ensures |calls| == 1 && calls[0].name == d
    ensures Gained(calls) == if Downloaded(calls[0].got) then {d} else {}
  {
    assert calls != [];
    NameOfCall(calls, 0);
    assert calls == [] + [calls[0]];
    AppendCall([], calls[0]);
  }

  /**
   * Scenario "clean success": the main package is fetched and the first
   * pip run succeeds; the run makes exactly one installation attempt and
   * succeeds.
   */
  lemma CleanSuccess(mainName: string, maxRetries: int, fetch: Fetcher, pip: Pip, disk: Disk, run: Run)
    requires IsRunOf(mainName, maxRetries, fetch, pip, disk, run)
    requires Downloaded(fetch(0, mainName)) && Succeeded(pip(1)) && Bound(maxRetries) >= 1
    ensures |run.attempts| == 1 && Classify(run) == Installed
  {
    assert AttemptFollows(run, 0, fetch, pip);
  }

  /**
   * When the first pip run fails reporting only `dep`, a name neither the
   * main package nor declared by it, the first attempt fetches `dep` alone.
   */
  lemma FirstReportFetched(mainName: string, maxRetries: int, fetch: Fetcher, pip: Pip, disk: Disk, run: Run,
                           dep: string)
    requires IsRunOf(mainName, maxRetries, fetch, pip, disk, run) && Downloaded(fetch(0, mainName))
    requires dep != mainName && dep !in Metadata.DeclaredDependencies(disk(fetch(0, mainName).value))
    requires FailedWithStatus(pip(1)) && PipErrors.MissingDependencies(pip(1).stderr) == {dep}
    requires Bound(maxRetries) >= 1
    ensures 1 <= |run.attempts| && run.attempts[0].fetched == [FetchCall(dep, fetch(1, dep))]
    ensures Continues(run.attempts[0]) <==> Downloaded(fetch(1, dep))
    ensures DownloadedAfter(run, 0) + {dep} <= DownloadedAfter(run, 1) || !Downloaded(fetch(1, dep))
  {
    assert SeedsFollow(run, fetch, disk);
    GainedWithinNames(run.seeds);
    assert dep !in DownloadedAfter(run, 0);
    assert AttemptFollows(run, 0, fetch, pip);
    SingleCall(run.attempts[0].fetched, dep);
    DownloadedStep(run, 0);
  }

  /**
   * Scenario "one missing dependency": the first pip run fails reporting
   * only `dep`, which is neither the main package nor declared by it; `dep`
   * can be fetched, and the second pip run succeeds. The run makes exactly
   * two attempts, fetches `dep` once in between, and succeeds with both
   * names downloaded.
   */
  lemma OneMissingDependency(mainName: string, maxRetries: int, fetch: Fetcher, pip: Pip, disk: Disk, run: Run,
                             dep: string)
    requires IsRunOf(mainName, maxRetries, fetch, pip, disk, run) && Downloaded(fetch(0, mainName))
    requires dep != mainName && dep !in Metadata.DeclaredDependencies(disk(fetch(0, mainName).value))
    requires FailedWithStatus(pip(1)) && PipErrors.MissingDependencies(pip(1).stderr) == {dep}
    requires Downloaded(fetch(1, dep)) && Succeeded(pip(2)) && Bound(maxRetries) >= 2
    ensures |run.attempts| == 2 && Classify(run) == Installed
    ensures run.attempts[0].fetched == [FetchCall(dep, fetch(1, dep))]
    ensures {mainName, dep} <= DownloadedAfter(run, 2)
  {
    FirstReportFetched(mainName, maxRetries, fetch, pip, disk, run, dep);
    assert AttemptFollows(run, 1, fetch, pip);
    assert !Continues(run.attempts[1]);
    DownloadedGrows(run, 0, 1);
    DownloadedGrows(run, 1, 2);
  }

  /**
   * Scenario "unfetchable dependency": the first pip run fails reporting
   * only `dep`, which is neither the main package nor declared by it, and
   * `dep` cannot be fetched. The run stops after one attempt for lack of
   * download progress.
   */
  lemma UnfetchableDependency(mainName: string, maxRetries: int, fetch: Fetcher, pip: Pip, disk: Disk, run: Run,
                              dep: string)
    requires IsRunOf(mainName, maxRetries, fetch, pip, disk, run) && Downloaded(fetch(0, mainName))
    requires dep != mainName && dep !in Metadata.DeclaredDependencies(disk(fetch(0, mainName).value))
    requires FailedWithStatus(pip(1)) && PipErrors.MissingDependencies(pip(1).stderr) == {dep}
    requires !Downloaded(fetch(1, dep)) && Bound(maxRetries) >= 1
    ensures |run.attempts| == 1 && Classify(run) == NoDownloadProgress
  {
    FirstReportFetched(mainName, maxRetries, fetch, pip, disk, run, dep);
    assert AttemptFollows(run, 0, fetch, pip);
    assert dep !in DownloadedAfter(run, 0);
  }

  /**
   * Termination on a repeated report: if every pip run fails reporting only
   * the same name `d`, the run stops by the second attempt, and, the bound
   * permitting, it stops because nothing new was reported or nothing could
   * be fetched.
   */
  lemma RepeatedReportStops(mainName: string, maxRetries: int, fetch: Fetcher, pip: Pip, disk: Disk, run: Run,
                            report: InstallOutcome, d: string)
    requires IsRunOf(mainName, maxRetries, fetch, pip, disk, run)
    requires FailedWithStatus(report) && PipErrors.MissingDependencies(report.stderr) == {d}
    requires forall a :: pip(a) == report
    ensures |run.attempts| <= 2
    ensures Downloaded(fetch(0, mainName)) && Bound(maxRetries) >= 2 ==>
              Classify(run) == Stalled || Classify(run) == NoDownloadProgress
  {
    if Downloaded(fetch(0, mainName)) && |run.attempts| >= 2 {
      var a0, a1 := run.attempts[0], run.attempts[1];
      assert AttemptFollows(run, 0, fetch, pip);
      assert AttemptFollows(run, 1, fetch, pip);
      if Continues(a0) {
        GainedWithinNames(a0.fetched);
        assert d in Gained(a0.fetched);
        DownloadedStep(run, 0);
        assert Names(a1.fetched) == {};
        GainedWithinNames(a1.fetched);
        assert !Continues(a1);
      }
    }
    if Downloaded(fetch(0, mainName)) && Bound(maxRetries) >= 2 {
      var n := |run.attempts|;
      assert n >= 1;
      var last := run.attempts[n - 1];
      assert AttemptFollows(run, n - 1, fetch, pip);
      GainedWithinNames(last.fetched);
      assert !Continues(last);
    }
  }
}
