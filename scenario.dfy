/** Scripted platforms, with the results the fetch engine is proved to give:
    three starred repositories on one page, each with one release, and release
    fetches that time out once or every time. */
module Scenario {
  import opened Wrappers
  import opened GitHub
  import opened Gh

  const Day: int := 86400
  const Now: Instant := 1000 * Day

  const Older := Repository("alice", "older")
  const Middle := Repository("bob", "middle")
  const Newest := Repository("carol", "newest")

  method SinglePageListing()
  {
    var fetch := (o: ListOptions) =>
      if o.page == FirstPage then Page([Older, Middle, Newest], 1) else PageErr("no such page");
    var listing, requested := ListStarredRepos(fetch);
    assert requested == [ListOptions(1, 50)];
    assert listing == Ok([Older, Middle, Newest]);
  }

  method TimeoutThenRelease()
  {
    var release := Release("v2", "two", Now - 5 * Day);
    var flaky := (i: nat) => if i == 0 then Timeout else Releases([release]);
    var outcome, made := GetLatestReleaseForRepo(Middle, flaky);
    assert flaky(0) == Timeout && flaky(1) == Releases([release]);
    assert made != 1 && !(made > 2);
    assert made == 2 && outcome == Ok(LatestRelease(Middle, Some(release)));
  }

  method AlwaysTimeout()
  {
    var outcome, made := GetLatestReleaseForRepo(Middle, i => Timeout);
    assert made == 5 && outcome == Err("Too many failed attempts for bob/middle");
  }

  method LatestReleasesSinceTwoDaysAgo()
  {
    var r1 := Release("v1", "one", Now - 10 * Day);
    var r2 := Release("v2", "two", Now - 5 * Day);
    var r3 := Release("v3", "three", Now - Day);
    var repos := [Older, Middle, Newest];
    var outcomes := [Ok(LatestRelease(Older, Some(r1))), Ok(LatestRelease(Middle, Some(r2))),
                     Ok(LatestRelease(Newest, Some(r3)))];

    var all := ListStarredReposLatestReleases(Ok(repos), outcomes);
    assert all.Ok?;
    assert Distinct(repos) && |all.value| == 3;
    assert ListedLastAt(repos, 0, 3) && ListedLastAt(repos, 1, 3);
    assert all.value[Older] == Some(r1);
    assert all.value[Middle] == Some(r2);
    assert all.value[Newest] == Some(r3);

    var since := ListStarredReposLatestReleasesSince(all, Ok(Now - 2 * Day));
    assert since.Ok? && since.value.Keys == {Newest};
  }
}
