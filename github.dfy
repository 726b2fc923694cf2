/** The values the hosting platform hands back: repositories and releases. */
module GitHub {
  import opened Wrappers

  /** A repository, identified by its owner login and its name. The model
      keys maps by this value, where the program keys them by pointer. */
  datatype Repository = Repository(owner: string, name: string) {
    /** The `owner/name` form the platform reports as the full name. */
    function FullName(): string { owner + "/" + name }
  }

  /** An instant, counted from Go's zero time (January 1, year 1, UTC). */
  type Instant = int

  /** The instant a nil or unset timestamp reads as. */
  const ZeroInstant: Instant := 0

  datatype Release = Release(tagName: string, name: string, publishedAt: Instant)

  /** `GetPublishedAt` on a release pointer: a nil release reads as the zero time. */
  function PublishedAt(release: Option<Release>): Instant
  {
    match release
    case Some(r) => r.publishedAt
    case None => ZeroInstant
  }
}
