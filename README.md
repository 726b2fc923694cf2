# gimme: fetch engine (Dafny model)

gimme lists the repositories a user has starred on GitHub and, for each one,
its latest release. It can keep only the releases published after a "since"
instant. This project models the decision rules under that engine. Every
GitHub call is replaced by an input that says what the call returned.

- **Starred listing** (`Gh.ListStarredRepos`). Page 1 is fetched first. If it
  fails, its error is returned. If its `LastPage` is 1, its repositories are
  returned. Otherwise pages 2..`LastPage` are fetched, each once, with page
  size 50 and each through `Gh.GetStarredReposByPage`. Every page's
  repositories are merged in, and the first error recorded fails the call.
  The endpoint is the input `fetch: ListOptions -> PageOutcome`.
- **Release retry** (`Gh.GetLatestReleaseForRepo`). At most 5 attempts. A
  timeout leads to another attempt. An API error ends the run with that
  error. A release list ends it with the first release, or with an explicit
  `None` when the list is empty. Five timeouts give the error
  `Too many failed attempts for <owner/name>`. The input `attempt(i)` says how
  the wait of attempt `i` ended.
- **Release aggregation** (`Gh.ListStarredReposLatestReleases`, with the
  collecting loop `Gh.CollectOutcomes`). A listing error propagates. Otherwise
  it takes one outcome per listed repository, in listing order. All of them
  are consumed before the result is decided. Any error fails the call with the first one. Otherwise the result maps each
  repository to its release or to `None`.
- **Since filter** (`Gh.ListStarredReposLatestReleasesSince`). It keeps exactly
  the entries published strictly after the cutoff. The cutoff is an input
  (`Result<Instant>`): the current instant adjusted by the "since" expression,
  or that adjustment's error.
- **Token lookup** (`Cmd.GetToken`). A non-empty `--token` flag wins. Otherwise
  the `GIMME_GITHUB_TOKEN` variable is used. Both empty is an error. A failed
  flag read is returned as is.

Errors are modelled as their messages (`Result<T> = Ok | Err(string)`, Go's
`(value, error)`). Instants are integers counted from Go's zero time. A nil
release reads as published at that zero instant (`GitHub.PublishedAt`).
`scenario.dfy` holds scripted platforms, with the results the engine is proved
to give:
- a single page;
- a release fetch that times out once and then succeeds;
- a release fetch that always times out;
- three repositories filtered to the last two days.

What the code does in three edge cases:
- An API error during a release attempt is not retried. It ends the run at once
  (pkg/gh/gh.go:226-228).
- An entry whose release is absent is dropped for every cutoff at or after the
  zero instant, not for every cutoff. The code compares the zero timestamp of
  a nil release against the cutoff (pkg/gh/gh.go:192).
- A `LastPage` of 0 or less (no pagination metadata) requests no further page.
  It gives the same result as `LastPage` 1 (pkg/gh/gh.go:53).

## Model

| member | source | states |
|---|---|---|
| `Wrappers.ErrorsFirst` | pkg/gh/gh.go:83-89 | no error is recorded exactly when every outcome succeeded; otherwise the first recorded error belongs to the first failed outcome |
| `Gh.MergedMembership` | pkg/gh/gh.go:65-70 | the merge drops and adds nothing: a repository is in the merged listing exactly when some successful page holds it |
| `Gh.MergedOrderIrrelevant` | pkg/gh/gh.go:65-70 | the order in which page reports arrive does not change the merged listing as a multiset |
| `Gh.GetStarredReposByPage` | pkg/gh/gh.go:94-119 | a page reports success exactly when its fetch succeeded, with that page's repositories in order; otherwise it reports the fetch's error |
| `Gh.FetchLaterPages` | pkg/gh/gh.go:50-81 | requests pages 2..LastPage in order and nothing else; every report is consumed, its repositories are appended and its error recorded |
| `Gh.ListStarredRepos` | pkg/gh/gh.go:15-92 | page 1 then exactly pages 2..LastPage are requested, each once with page size 50; a page-1 failure returns its error; a single page is returned as is; the call fails exactly when a requested page failed, with the first failure's error; on success the listing holds exactly the repositories of all pages, page 1's first |
| `Gh.GetLatestReleaseForRepo` | pkg/gh/gh.go:200-234 | makes 1 to 5 attempts, all but the last timed out; five timeouts give "Too many failed attempts for owner/name"; an API error is reported at once; a release list gives its first entry or an explicit None, never an error; a success names the repository |
| `Gh.CollectOutcomes` | pkg/gh/gh.go:148-164 | consuming all outcomes records exactly their errors in order; the map keys are exactly the repositories of the successful outcomes, mapped to its last task's release |
| `Gh.ListStarredReposLatestReleases` | pkg/gh/gh.go:122-175 | a listing error propagates; the call fails exactly when some task failed, with the first failed task's error; on success the keys are exactly the listed repositories with their tasks' releases, one entry per repository when the listing has no duplicates |
| `Gh.ListStarredReposLatestReleasesSince` | pkg/gh/gh.go:178-198 | the upstream error, then the cutoff error, propagate; otherwise the result is the sub-map of exactly the entries published strictly after the cutoff; an absent release survives only a cutoff before the zero instant |
| `Cmd.GetToken` | cmd/common.go:11-27 | a flag-read error gives an empty token and that error; a non-empty flag wins over the environment; an empty flag falls back to the environment; both empty give the no-token error; success exactly when the token is non-empty, and it comes from the flag or the environment |

## Left out

- Client construction and the HTTP calls (go-github, oauth2) are left out. They are foreign library calls, so each call's result is an input.
- Goroutines, the WaitGroup and the channels are left out. Collection is modelled as one loop that consumes exactly one report per dispatched task.
- Gh.ListStarredRepos: later pages are merged in page order. The program merges them in arrival order; `Gh.MergedOrderIrrelevant` shows the multiset does not depend on that order. "First error" here means the first in page order.
- Gh.ListStarredRepos: the program reads its merged list and error list after `wg.Wait()`. The goroutines that append to them may still be running then, so a page or an error can be missed. The model consumes every report before deciding. The race is concurrency and is not modelled.
- Gh.ListStarredReposLatestReleases: the release outcomes are taken in listing order, the i-th outcome from the i-th repository's task. The program consumes them in arrival order, so which error comes "first" depends on scheduling. The model does not cover that.
- Gh.GetLatestReleaseForRepo: a timed-out attempt's call is not cancelled. Its late answer can be the one a later attempt receives. The model only sees how each attempt's wait ended, and the 5-second timer is only the `Timeout` outcome.
- `time.Now` and `systemdtime.AdjustTime` are left out. They are a clock and a foreign parser, so the resulting cutoff (or its error) is an input.
- The result map is keyed by the repository value (owner and name), not by the `*github.Repository` pointer. A repository listed twice therefore gets one entry, holding its last task's release.
- Cobra command wiring, flag registration and printing (cmd/get_updates.go, cmd/get_repos.go) are left out. They have no logic beyond calling the engine.
- Reading the `--token` flag and the environment variable is left out. Both values are inputs of `Cmd.GetToken`.
