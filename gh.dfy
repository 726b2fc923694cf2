/** The fetch engine: the paginated starred-repository listing, the per-repository
    release retry loop, the aggregation of release outcomes and the "since"
    filter. Every remote call is replaced by an input that says what the call
    returned; the goroutine fan-out is modelled as a loop over the tasks in
    page order for the listing and in listing order for the releases. */
module Gh {
  import opened Wrappers
  import opened GitHub

  // ---------------------------------------------------------------------------
  // Starred-repository listing
  // ---------------------------------------------------------------------------

  const FirstPage: int := 1
  const ReposPerPage: int := 50

  /** The page request sent to the "list starred repositories" endpoint. */
  datatype ListOptions = ListOptions(page: int, perPage: int)

  /** What one call of the endpoint returns: a page of repositories and the
      last-page number from the response's pagination metadata, or an error. */
  datatype PageOutcome = Page(repos: seq<Repository>, lastPage: int) | PageErr(error: string)

  /** The requests for pages 1..n, in order, all of the fixed page size. */
  function Requests(n: nat): seq<ListOptions>
  {
    seq(n, k => ListOptions(FirstPage + k, ReposPerPage))
  }

  lemma RequestsAppend(n: nat)
    ensures Requests(n + 1) == Requests(n) + [ListOptions(FirstPage + n, ReposPerPage)]
  {
  }

  lemma ReportsAppend(fetch: ListOptions -> PageOutcome, requested: seq<ListOptions>, options: ListOptions)
    ensures Reports(fetch, requested + [options]) == Reports(fetch, requested) + [Report(fetch(options))]
  {
  }

  /** What a page's fetch reports to the collector: its repositories or its error. */
  function Report(outcome: PageOutcome): Result<seq<Repository>>
  {
    match outcome
    case Page(repos, _) => Ok(repos)
    case PageErr(e) => Err(e)
  }

  /** The reports of the requested pages, in request order. */
  function Reports(fetch: ListOptions -> PageOutcome, requested: seq<ListOptions>): seq<Result<seq<Repository>>>
  {
    seq(|requested|, k requires 0 <= k < |requested| => Report(fetch(requested[k])))
  }

  /** The repositories of all successful reports, concatenated in report order. */
  function Merged<T>(reports: seq<Result<seq<T>>>): seq<T>
  {
    if reports == [] then []
    else
      var last := reports[|reports| - 1];
      Merged(reports[..|reports| - 1]) + (if last.Ok? then last.value else [])
  }

  lemma MergedAppend<T>(reports: seq<Result<seq<T>>>, o: Result<seq<T>>)
    ensures Merged(reports + [o]) == Merged(reports) + (if o.Ok? then o.value else [])
  {
    assert (reports + [o])[..|reports|] == reports;
  }

  lemma {:induction false} MergedConcat<T>(a: seq<Result<seq<T>>>, b: seq<Result<seq<T>>>)
    ensures Merged(a + b) == Merged(a) + Merged(b)
    decreases |b|
  {
    if b == [] {
      assert a + b == a;
    } else {
      var b' := b[..|b| - 1];
      var o := b[|b| - 1];
      assert a + b == (a + b') + [o];
      assert b == b' + [o];
      MergedConcat(a, b');
      MergedAppend(a + b', o);
      MergedAppend(b', o);
    }
  }

  /** Nothing is dropped or added by the merge: a repository is in the merged
      listing exactly when some successful report holds it. */
  lemma {:induction false} MergedMembership<T>(reports: seq<Result<seq<T>>>, x: T)
    ensures x in Merged(reports) <==>
      exists k :: 0 <= k < |reports| && reports[k].Ok? && x in reports[k].value
    decreases |reports|
  {
    if reports != [] {
      var init := reports[..|reports| - 1];
      var last := reports[|reports| - 1];
      MergedMembership(init, x);
      if x in Merged(reports) && x !in Merged(init) {
        assert last.Ok? && x in last.value;
      }
      if k :| 0 <= k < |reports| && reports[k].Ok? && x in reports[k].value {
        if k < |reports| - 1 {
          assert init[k] == reports[k];
        }
      }
    }
  }

  /** The order in which page reports reach the collector does not change the
      merged listing as a multiset. */
  lemma {:induction false} MergedOrderIrrelevant<T>(reports: seq<Result<seq<T>>>, arrived: seq<Result<seq<T>>>)
    requires multiset(reports) == multiset(arrived)
    ensures multiset(Merged(reports)) == multiset(Merged(arrived))
    decreases |reports|
  {
    if reports == [] {
      assert |arrived| == |multiset(arrived)| == 0;
    } else {
      var init := reports[..|reports| - 1];
      var last := reports[|reports| - 1];
      assert reports == init + [last];
      assert last in multiset(arrived);
      var j :| 0 <= j < |arrived| && arrived[j] == last;
      var before, after := arrived[..j], arrived[j + 1..];
      assert arrived == before + [last] + after;
      assert multiset(reports) == multiset(init) + multiset{last};
      assert multiset(arrived) == multiset(before) + multiset{last} + multiset(after);
      assert multiset(before + after) == multiset(before) + multiset(after);
      assert multiset(init) == multiset(reports) - multiset{last};
      assert multiset(init) == multiset(before + after);
      MergedOrderIrrelevant(init, before + after);
      MergedAppend(init, last);
      MergedConcat(before, after);
      MergedConcat(before + [last], after);
      MergedAppend(before, last);
    }
  }

  /** The recorded errors decide the verdict: none exactly when every requested
      page succeeded, and the first is that of the first failed page. */
  lemma ReportsVerdict(fetch: ListOptions -> PageOutcome, requested: seq<ListOptions>)
    ensures Errors(Reports(fetch, requested)) == [] <==>
      forall k :: 0 <= k < |requested| ==> fetch(requested[k]).Page?
    ensures Errors(Reports(fetch, requested)) != [] ==>
      exists k :: 0 <= k < |requested| && fetch(requested[k]) == PageErr(Errors(Reports(fetch, requested))[0]) &&
        (forall j :: 0 <= j < k ==> fetch(requested[j]).Page?)
  {
    var reports := Reports(fetch, requested);
    ErrorsFirst(reports);
    assert forall k :: 0 <= k < |requested| ==> reports[k] == Report(fetch(requested[k]));
    if Errors(reports) != [] {
      var k :| 0 <= k < |reports| && reports[k] == Err(Errors(reports)[0]) &&
        (forall j :: 0 <= j < k ==> reports[j].Ok?);
      assert fetch(requested[k]) == PageErr(Errors(reports)[0]);
    }
  }

  /** A repository is in the merged reports exactly when a requested page that
      succeeded holds it. */
  lemma ReportsMembership(fetch: ListOptions -> PageOutcome, requested: seq<ListOptions>)
    ensures forall x :: x in Merged(Reports(fetch, requested)) <==>
      exists k :: 0 <= k < |requested| && fetch(requested[k]).Page? && x in fetch(requested[k]).repos
  {
    var reports := Reports(fetch, requested);
    assert forall k :: 0 <= k < |requested| ==> reports[k] == Report(fetch(requested[k]));
    forall x
      ensures x in Merged(reports) <==>
        exists k :: 0 <= k < |requested| && fetch(requested[k]).Page? && x in fetch(requested[k]).repos
    {
      MergedMembership(reports, x);
    }
  }

  /** One later page: the call the program runs in its own goroutine. It
      reports the page's repositories, copied in order, or the call's error. */
  method GetStarredReposByPage(fetch: ListOptions -> PageOutcome, options: ListOptions)
    returns (report: Result<seq<Repository>>)
    ensures report.Ok? <==> fetch(options).Page?
    ensures report.Ok? ==> report.value == fetch(options).repos
    ensures report.Err? ==> report.error == fetch(options).error
  {
    var outcome := fetch(options);
    if outcome.PageErr? {
      return Err(outcome.error);
    }
    var current: seq<Repository> := [];
    for k := 0 to |outcome.repos|
      invariant current == outcome.repos[..k]
    {
      current := current + [outcome.repos[k]];
    }
    assert current == outcome.repos;
    return Ok(current);
  }

  /** Pages 2..lastPage, fetched in order after page 1: every page's report is
      consumed, its repositories appended to `starred` and its error recorded. */
  method FetchLaterPages(fetch: ListOptions -> PageOutcome, lastPage: int, starred0: seq<Repository>)
    returns (requested: seq<ListOptions>, starred: seq<Repository>, errors: seq<string>)
    requires fetch(ListOptions(FirstPage, ReposPerPage)).Page?
    requires starred0 == Merged(Reports(fetch, Requests(1)))
    ensures requested == Requests(if lastPage <= FirstPage then 1 else lastPage)
    ensures starred == Merged(Reports(fetch, requested))
    ensures errors == Errors(Reports(fetch, requested))
  {
    requested, starred, errors := Requests(1), starred0, [];
    ReportsAppend(fetch, [], ListOptions(FirstPage, ReposPerPage));
    ErrorsAppend<seq<Repository>>([], Report(fetch(ListOptions(FirstPage, ReposPerPage))));
    assert [] + [ListOptions(FirstPage, ReposPerPage)] == requested;
    var page := FirstPage + 1;
    while page <= lastPage
      invariant FirstPage + 1 <= page
      invariant page <= lastPage + 1 || page == FirstPage + 1
      invariant requested == Requests(page - 1)
      invariant starred == Merged(Reports(fetch, requested))
      invariant errors == Errors(Reports(fetch, requested))
      decreases lastPage + 1 - page
    {
      var options := ListOptions(page, ReposPerPage);
      var report := GetStarredReposByPage(fetch, options);
      ghost var before := Reports(fetch, requested);
      RequestsAppend(page - 1);
      ReportsAppend(fetch, requested, options);
      assert report == Report(fetch(options));
      MergedAppend(before, report);
      ErrorsAppend(before, report);
      requested := requested + [options];
      match report {
        case Ok(repos) =>
          starred := starred + repos;
        case Err(e) =>
          errors := errors + [e];
      }
      page := page + 1;
    }
  }

  /** All starred repositories. Page 1 is fetched first; unless it fails or is
      the last page, pages 2..LastPage are fetched, each once, and merged in.
      The first error recorded fails the whole call. */
  method ListStarredRepos(fetch: ListOptions -> PageOutcome)
    returns (r: Result<seq<Repository>>, requested: seq<ListOptions>)
    // page 1 is requested first, then pages 2..LastPage in order, all of the same size
    ensures fetch(ListOptions(FirstPage, ReposPerPage)).PageErr? ==> requested == Requests(1)
    ensures var first := fetch(ListOptions(FirstPage, ReposPerPage));
      first.Page? ==> requested == Requests(if first.lastPage <= FirstPage then 1 else first.lastPage)
    // a single page is returned as it came, and nothing else is requested
    ensures var first := fetch(ListOptions(FirstPage, ReposPerPage));
      first.Page? && first.lastPage == FirstPage ==> requested == Requests(1) && r == Ok(first.repos)
    // failure exactly when a requested page failed, with the first such page's error
    ensures r.Ok? <==> forall k :: 0 <= k < |requested| ==> fetch(requested[k]).Page?
    ensures r.Err? ==>
      exists k :: 0 <= k < |requested| && fetch(requested[k]) == PageErr(r.error) &&
        (forall j :: 0 <= j < k ==> fetch(requested[j]).Page?)
    // success returns every requested page's repositories, page 1's first
    ensures r.Ok? ==> r.value == Merged(Reports(fetch, requested))
    ensures r.Ok? ==> forall x :: x in r.value <==>
      exists k :: 0 <= k < |requested| && fetch(requested[k]).Page? && x in fetch(requested[k]).repos
  {
    var firstOptions := ListOptions(FirstPage, ReposPerPage);
    requested := [firstOptions];
    assert requested == Requests(1);
    var first := fetch(firstOptions);
    if first.PageErr? {
      assert fetch(requested[0]).PageErr?;
      return Err(first.error), requested;
    }

    var starred: seq<Repository> := [];
    for k := 0 to |first.repos|
      invariant starred == first.repos[..k]
    {
      starred := starred + [first.repos[k]];
    }
    assert starred == first.repos;
    assert Reports(fetch, requested) == [] + [Ok(first.repos)];
    MergedAppend<Repository>([], Ok(first.repos));
    if first.lastPage == FirstPage {
      return Ok(starred), requested;
    }

    var errors;
    requested, starred, errors := FetchLaterPages(fetch, first.lastPage, starred);
    ReportsVerdict(fetch, requested);
    ReportsMembership(fetch, requested);
    if |errors| > 0 {
      return Err(errors[0]), requested;
    }
    return Ok(starred), requested;
  }

  // ---------------------------------------------------------------------------
  // Latest release of one repository: bounded retry
  // ---------------------------------------------------------------------------

  const MaxAttempts: nat := 5

  /** How one attempt's wait ends: the 5-second timer fires first, the
      "list releases" call fails, or it returns the releases, most recent first. */
  datatype Attempt = Timeout | ApiErr(error: string) | Releases(releases: seq<Release>)

  /** The single-entry map a release task sends: the repository and its
      latest release, or None when it has no release. */
  datatype LatestRelease = LatestRelease(repo: Repository, release: Option<Release>)

  function TooManyAttemptsError(repo: Repository): string
  {
    "Too many failed attempts for " + repo.FullName()
  }

  /** The latest release of `repo`; `attempt(i)` is how attempt i ends. Only a
      timeout leads to another attempt, and at most five are made. Returns the
      outcome the task reports and the number of attempts it made. */
  method GetLatestReleaseForRepo(repo: Repository, attempt: nat -> Attempt)
    returns (outcome: Result<LatestRelease>, made: nat)
    ensures 1 <= made <= MaxAttempts
    // every attempt but the last timed out
    ensures forall i :: 0 <= i < made - 1 ==> attempt(i).Timeout?
    // five timeouts in a row give up
    ensures attempt(made - 1).Timeout? ==> made == MaxAttempts && outcome == Err(TooManyAttemptsError(repo))
    // an API error is reported at once
    ensures attempt(made - 1).ApiErr? ==> outcome == Err(attempt(made - 1).error)
    // a release list yields its first entry, or an explicit None when empty
    ensures attempt(made - 1).Releases? ==>
      var releases := attempt(made - 1).releases;
      outcome == Ok(LatestRelease(repo, if |releases| > 0 then Some(releases[0]) else None))
    ensures outcome.Ok? ==> outcome.value.repo == repo
  {
    var i := 0;
    while i < MaxAttempts
      invariant 0 <= i <= MaxAttempts
      invariant forall j :: 0 <= j < i ==> attempt(j).Timeout?
    {
      match attempt(i) {
        case Releases(releases) =>
          if |releases| > 0 {
            return Ok(LatestRelease(repo, Some(releases[0]))), i + 1;
          } else {
            return Ok(LatestRelease(repo, None)), i + 1;
          }
        case ApiErr(e) =>
          return Err(e), i + 1;
        case Timeout =>
      }
      i := i + 1;
    }
    return Err(TooManyAttemptsError(repo)), MaxAttempts;
  }

  // ---------------------------------------------------------------------------
  // Aggregation of the release outcomes
  // ---------------------------------------------------------------------------

  predicate Distinct<T(==)>(s: seq<T>)
  {
    forall i, j :: 0 <= i < j < |s| ==> s[i] != s[j]
  }

  /** Entry `j` is the last of the first `n` entries of `s` to hold its value. */
  predicate ListedLastAt<T(==)>(s: seq<T>, j: int, n: int)
    requires 0 <= j < n <= |s|
  {
    forall l :: j < l < n ==> s[l] != s[j]
  }

  /** A listing without duplicates has as many distinct repositories as entries. */
  lemma {:induction false} DistinctCardinality<T>(s: seq<T>)
    requires Distinct(s)
    ensures |set x | x in s| == |s|
    decreases |s|
  {
    if s != [] {
      var init := s[..|s| - 1];
      var last := s[|s| - 1];
      assert Distinct(init);
      DistinctCardinality(init);
      assert (set x | x in s) == (set x | x in init) + {last};
      assert last !in init;
    }
  }

  /** The collecting side: consumes every outcome, in order, assigning each
      reported release into the map and appending each error to the list. */
  method CollectOutcomes(repos: seq<Repository>, outcomes: seq<Result<LatestRelease>>)
    returns (all: map<Repository, Option<Release>>, errs: seq<string>)
    requires |outcomes| == |repos|
    requires forall i :: 0 <= i < |outcomes| && outcomes[i].Ok? ==> outcomes[i].value.repo == repos[i]
    ensures errs == Errors(outcomes)
    // every key is the repository of a successful outcome, and every such repository is a key
    ensures forall x :: x in all ==> x in repos
    ensures forall x :: x in all ==> exists j :: 0 <= j < |outcomes| && outcomes[j].Ok? && repos[j] == x
    ensures forall j :: 0 <= j < |outcomes| && outcomes[j].Ok? ==> repos[j] in all
    ensures forall j :: 0 <= j < |outcomes| && outcomes[j].Ok? && ListedLastAt(repos, j, |repos|) ==>
      all[repos[j]] == outcomes[j].value.release
  {
    all, errs := map[], [];
    var consumed := 0;
    while consumed < |outcomes|
      invariant 0 <= consumed <= |outcomes|
      invariant errs == Errors(outcomes[..consumed])
      invariant forall x :: x in all ==> exists j :: 0 <= j < consumed && outcomes[j].Ok? && repos[j] == x
      invariant forall j :: 0 <= j < consumed && outcomes[j].Ok? ==> repos[j] in all
      invariant forall j :: 0 <= j < consumed && outcomes[j].Ok? && ListedLastAt(repos, j, consumed) ==>
        all[repos[j]] == outcomes[j].value.release
    {
      var outcome := outcomes[consumed];
      assert outcomes[..consumed + 1] == outcomes[..consumed] + [outcome];
      ErrorsAppend(outcomes[..consumed], outcome);
      match outcome {
        case Ok(latest) =>
          all := all[latest.repo := latest.release];
        case Err(e) =>
          errs := errs + [e];
      }
      consumed := consumed + 1;
    }
    assert outcomes[..consumed] == outcomes;
    assert repos[..consumed] == repos;
  }

  /** The latest release of every starred repository. `listing` is the result
      of ListStarredRepos and `outcomes[i]` the outcome reported by the task
      dispatched for its i-th repository, taken in listing order. All
      outcomes are consumed before the result is decided; an error fails the
      call with the first error consumed. */
  method ListStarredReposLatestReleases(listing: Result<seq<Repository>>, outcomes: seq<Result<LatestRelease>>)
    returns (r: Result<map<Repository, Option<Release>>>)
    // one outcome per dispatched task, each naming the repository it was dispatched for
    requires listing.Ok? ==> |outcomes| == |listing.value|
    requires listing.Ok? ==> forall i :: 0 <= i < |outcomes| && outcomes[i].Ok? ==>
      outcomes[i].value.repo == listing.value[i]
    // a listing error propagates unchanged
    ensures listing.Err? ==> r == Err(listing.error)
    // failure exactly when some task failed, with the first failed task's error
    ensures listing.Ok? ==> (r.Ok? <==> forall i :: 0 <= i < |outcomes| ==> outcomes[i].Ok?)
    ensures listing.Ok? && r.Err? ==>
      exists i :: 0 <= i < |outcomes| && outcomes[i] == Err(r.error) &&
        (forall j :: 0 <= j < i ==> outcomes[j].Ok?)
    // on success, the keys are exactly the listed repositories ...
    ensures listing.Ok? && r.Ok? ==> forall x :: x in r.value <==> x in listing.value
    // ... each mapped to its task's release (the last task's, were a repository listed twice) ...
    ensures listing.Ok? && r.Ok? ==>
      forall i :: 0 <= i < |outcomes| && ListedLastAt(listing.value, i, |outcomes|) ==>
        r.value[listing.value[i]] == outcomes[i].value.release
    // ... with one entry per repository when the listing has no duplicates
    ensures listing.Ok? && r.Ok? && Distinct(listing.value) ==> |r.value| == |listing.value|
  {
    if listing.Err? {
      return Err(listing.error);
    }
    var repos := listing.value;
    var all, errs := CollectOutcomes(repos, outcomes);
    ErrorsFirst(outcomes);
    if |errs| > 0 {
      return Err(errs[0]);
    }
    assert all.Keys == set x | x in repos;
    if Distinct(repos) {
      DistinctCardinality(repos);
    }
    return Ok(all);
  }

  // ---------------------------------------------------------------------------
  // Releases published after a cutoff
  // ---------------------------------------------------------------------------

  /** The entries of `upstream` whose release was published strictly after the
      cutoff. `upstream` is the result of ListStarredReposLatestReleases and
      `cutoff` that of adjusting the current instant by the "since" expression.
      An absent release reads as published at the zero instant. */
  method ListStarredReposLatestReleasesSince(upstream: Result<map<Repository, Option<Release>>>, cutoff: Result<Instant>)
    returns (r: Result<map<Repository, Option<Release>>>)
    // errors propagate unchanged, the upstream's first
    ensures upstream.Err? ==> r == Err(upstream.error)
    ensures upstream.Ok? && cutoff.Err? ==> r == Err(cutoff.error)
    ensures upstream.Ok? && cutoff.Ok? ==> r.Ok?
    // the result is the sub-map of entries published strictly after the cutoff
    ensures upstream.Ok? && cutoff.Ok? ==>
      forall x :: x in r.value <==> x in upstream.value && PublishedAt(upstream.value[x]) > cutoff.value
    ensures upstream.Ok? && cutoff.Ok? ==>
      forall x :: x in r.value ==> r.value[x] == upstream.value[x]
    // an absent release survives only a cutoff before the zero instant
    ensures upstream.Ok? && cutoff.Ok? && cutoff.value >= ZeroInstant ==>
      forall x :: x in r.value ==> r.value[x].Some?
  {
    if upstream.Err? {
      return Err(upstream.error);
    }
    if cutoff.Err? {
      return Err(cutoff.error);
    }
    var releases := upstream.value;
    var since: map<Repository, Option<Release>> := map[];
    var pending := releases.Keys;
    while pending != {}
      invariant pending <= releases.Keys
      invariant forall x :: x in since <==>
        x in releases && x !in pending && PublishedAt(releases[x]) > cutoff.value
      invariant forall x :: x in since ==> since[x] == releases[x]
      decreases pending
    {
      var repo :| repo in pending;
      var release := releases[repo];
      if PublishedAt(release) > cutoff.value {
        since := since[repo := release];
      }
      pending := pending - {repo};
    }
    return Ok(since);
  }
}
