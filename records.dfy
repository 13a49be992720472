/**
 The record model of the bookmark store: one bookmark per alias, the
 versioned container that is persisted as a whole, the transient ranked
 match, and the error conditions the store reports.
 Timestamps are modelled as integers (larger means later).
 */
module Records {

  /** A bookmarked directory together with its usage statistics. */
  datatype Bookmark = Bookmark(path: string, created: int, usedCount: int, lastUsed: int)

  /** The persisted container: a format version and the alias -> bookmark mapping. */
  datatype BookmarkData = BookmarkData(version: string, bookmarks: map<string, Bookmark>)

  /** A ranked candidate produced by the match engine; never persisted. */
  datatype FuzzyMatch = FuzzyMatch(alias: string, bookmark: Bookmark, score: int)

  /** The error conditions the store reports to its callers. */
  datatype StoreError = IOError | ParseError | NotFound(alias: string)

  datatype Option<+T> = None | Some(value: T)

  /** The value-or-error result of an operation that produces a value. */
  datatype Result<+T> = Success(value: T) | Failure(error: StoreError)

  /** The outcome of an operation that produces no value. */
  datatype Outcome = Pass | Fail(error: StoreError)
}
