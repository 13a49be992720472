# fast-nav bookmark store, modelled in Dafny

fast-nav (`fn`) is a command-line directory bookmarker. It keeps one JSON file
that maps each alias to a bookmark record (path, creation time, use count,
last-used time). This project models the core of it:

- the store: the in-memory container and its operations, namely
  saving (an upsert), lookup, listing, deletion and usage counting, with a
  rewrite of the whole file after each change;
- the match engine:
  - the tiered fuzzy scorer (exact, prefix, substring, subsequence scan);
  - the three ranking queries (fuzzy matches, recently used, typo
    suggestions) and the order they sort by;
  - the dynamic-programming Levenshtein distance;
- the alias rule of the `save` command, and the command itself.

Files and modules:

| file | module | contents |
|---|---|---|
| `records.dfy` | `Records` | `Bookmark`, `BookmarkData`, `FuzzyMatch`, the error kinds, `Option`/`Result` |
| `strings.dfy` | `Strings` | ASCII lower-casing, prefix and substring tests |
| `levenshtein.dfy` | `Levenshtein` | `Min`, the recursive edit distance, and the table-filling method proved equal to it |
| `fuzzy_score.dfy` | `Scoring` | the scorer as a specification function, and the looping method proved equal to it |
| `ranking.dfy` | `Ranking` | the sort comparison, sortedness, and the sort itself |
| `storage.dfy` | `Storage` | the `Store` class and the ranking queries |
| `cmd_save.dfy` | `Commands` | `IsValidAlias` and the `save` command |

How the model is built:

- `Store` is a class whose `bookmarks` map field the mutating methods
  reassign.
- Writing the file is not modelled as I/O. Whether the write succeeds is the
  `writeOk` parameter. The ghost field `persisted` is the container as last
  written.
- The clock is the `now` parameter. Timestamps are integers, so `Equal` and
  `After` become `==` and `>`.
- The query methods loop over the map the way Go ranges over it. The next
  alias is any one not yet visited, so no iteration order is assumed. Each
  result is specified as a permutation of a candidate set, defined by
  `Storage.Candidates`, ordered by the comparison the code passes to the
  sort.
- Ties are left in an unspecified order, as the library sort leaves them.

Scoring behaviour proved as lemmas:

- An exact match scores 1000, and the comment in the code calls that the
  highest score. For patterns of up to six characters the exact match
  always wins (`Scoring.ExactMatchWinsForShortPatterns`).
- A 21-character pattern that is a proper prefix of an alias scores 1010
  (`Scoring.LongPrefixOutscoresExactMatch`).
- An eight-character pattern matched as a subsequence can score 1150
  (`Scoring.SubsequenceOutscoresExactMatch`).

Behaviour of the code worth knowing:

- Deleting an absent alias is a silent no-op that still rewrites the file
  (`internal/storage/storage.go:139-142`).
- A mutation changes the map in memory first and writes the file second
  (`internal/storage/storage.go:113-127` and `144-148`). When the write
  fails, the error is returned but the change stays in memory. The model
  states this: `bookmarks` holds the new map whatever `writeOk` is.

## Model

| member | source | states |
|---|---|---|
| Strings.LowerChar | internal/storage/storage.go:163-166 | ASCII capitals map to the letter 32 code points later; every other character is unchanged |
| Strings.ToLower | internal/storage/storage.go:163-166 | same length, and each character is the folded character at the same position |
| Strings.ToLowerIdempotent | internal/storage/storage.go:163-166 | folding twice is folding once |
| Strings.ContainsIff | internal/storage/storage.go:195 | the left-to-right substring test holds exactly when some window of the string equals the pattern |
| Strings.HasPrefix | internal/storage/storage.go:197 | the prefix test holds exactly when the pattern is no longer than the string and agrees with it position by position |
| Strings.Contains | internal/storage/storage.go:195 | a prefix always counts as contained, so the prefix tier lies inside the substring tier; a pattern longer than the string is never contained |
| Strings.EveryStringContainsEmpty | internal/storage/storage.go:195-198 | the empty pattern is a prefix and a substring of every string |
| Levenshtein.Min | internal/storage/storage.go:329-340 | the result is at most each argument and equal to one of them |
| Levenshtein.LevenshteinDistance | internal/storage/storage.go:288-327 | the table-filling method, with its early returns for empty strings, returns the recursive insert/delete/substitute edit distance |
| Levenshtein.EditDistanceToEmpty | internal/storage/storage.go:289-294 | the distance to or from the empty string is the other string's length |
| Levenshtein.EditDistanceZeroIff | internal/storage/storage.go:288-327 | the distance is 0 exactly when the strings are equal |
| Levenshtein.EditDistanceBounds | internal/storage/storage.go:288-327 | the length difference is at most the distance, and the distance is at most the longer length |
| Levenshtein.EditDistanceSymmetric | internal/storage/storage.go:288-327 | the distance does not depend on argument order |
| Levenshtein.ExtensionDistance | internal/storage/storage.go:288-327 | when one string extends the other, the distance is exactly the number of added characters |
| Scoring.Scan | internal/storage/storage.go:203-215 | after i alias characters, the matched count is at most i and at most the pattern length, and the score is between 100 and 150 per matched character |
| Scoring.FuzzyScore | internal/storage/storage.go:190-223 | the score is never negative |
| Scoring.CalculateFuzzyScore | internal/storage/storage.go:190-223 | the looping scorer returns exactly the tiered specification score |
| Scoring.ExactMatchScore | internal/storage/storage.go:191-193 | a pattern equal to the alias scores 1000 |
| Scoring.PrefixMatchScore | internal/storage/storage.go:195-198 | a proper prefix scores 800 + 10 per pattern character |
| Scoring.SubstringMatchScore | internal/storage/storage.go:195-200 | an occurrence that is not at the start scores 500 + 5 per pattern character |
| Scoring.EmptyPatternScore | internal/storage/storage.go:195-198 | the empty pattern scores 800 against any non-empty alias |
| Scoring.ScanIsSound | internal/storage/storage.go:207-215 | the pattern prefix the scan counts as matched does occur in the alias as a subsequence |
| Scoring.ScanIsGreedyOptimal | internal/storage/storage.go:207-215 | no subsequence embedding matches a longer pattern prefix than the greedy scan |
| Scoring.SubsequenceTierPositiveIff | internal/storage/storage.go:203-222 | below the substring tier, the score is positive exactly when a non-empty pattern prefix of at least half the pattern length (rounded down) is a subsequence of the alias |
| Scoring.ExactMatchWinsForShortPatterns | internal/storage/storage.go:191-201 | for patterns of at most six characters, every other alias scores strictly below the exact match |
| Scoring.LongPrefixOutscoresExactMatch | internal/storage/storage.go:191-198 | a 21-character pattern scores 1010 against a one-character extension and 1000 against itself |
| Scoring.SubsequenceOutscoresExactMatch | internal/storage/storage.go:203-222 | "abcdefgh" scores 1150 against "abcdefgxh", above the exact-match 1000 |
| Scoring.ScanOfCommonPrefix | internal/storage/storage.go:207-215 | while alias and pattern agree position by position, every character earns 150 |
| Scoring.StrayCharacterScan | internal/storage/storage.go:207-215 | one stray character before the last pattern character costs only that character's 50-point bonus |
| Ranking.Less | internal/storage/storage.go:179-184 | the larger primary key (score, or last-used time for the recency ranking at 238-243) goes first; on equal primary keys the larger use count goes first |
| Ranking.LessIsStrictWeakOrder | internal/storage/storage.go:179-184 | the comparison is irreflexive and transitive, and incomparability is transitive, which is what the sort requires |
| Ranking.Insert | internal/storage/storage.go:179-184 | inserting into an ordered sequence keeps it ordered and adds exactly the one element |
| Ranking.SortMatches | internal/storage/storage.go:179-184 | the sorted result is ordered by the comparison and is a permutation of the input |
| Ranking.PrefixOfSorted | internal/storage/storage.go:245-247 | a prefix of an ordered sequence is ordered, and no element cut off should precede a kept one |
| Ranking.TopOfRanking | internal/storage/storage.go:238-247 | sorting an arrangement of a set and keeping the first k gives k top-ranked members of the set, or all of it when k covers it |
| Storage.Contribution | internal/storage/storage.go:165-175 | a contributed match carries the alias and the bookmark it came from |
| Storage.CandidatesStep | internal/storage/storage.go:165-175 | visiting one more alias adds at most its own match, and that match is new |
| Storage.CandidatesMembership | internal/storage/storage.go:165-175 | a match is a candidate exactly when its alias is stored and contributes that match |
| Storage.CandidateAliasesDistinct | internal/storage/storage.go:165-175 | no alias appears twice in any arrangement of the candidates |
| Storage.FuzzyCandidatesExactly | internal/storage/storage.go:163-176 | a fuzzy candidate is exactly a stored alias whose lower-cased score against the lower-cased pattern is positive, with that score |
| Storage.RecentCandidatesExactly | internal/storage/storage.go:229-235 | every stored alias is a recency candidate, and its score is its use count |
| Storage.QueriesIgnoreCase | internal/storage/storage.go:163 | because the pattern (line 163) and the input (line 255) are lower-cased before use, a fuzzy or suggestion query already in lower case has exactly the same candidates |
| Storage.SuggestionCandidatesExactly | internal/storage/storage.go:255-273 | a suggestion is exactly a stored alias whose lower-cased edit distance from the lower-cased input is between 1 and maxDistance, with score 1000 - 100 per edit, + 200 for a prefix |
| Storage.SuggestionScore | internal/storage/storage.go:262-266 | an alias that extends the input (lower-cased) scores 1200 - 100 per added character, any other scores 1000 - 100 per edit, and no suggestion at distance 1 or more scores above 1100 |
| Storage.MultisetCardinality | internal/storage/storage.go:165-176 | an arrangement of the candidates has exactly as many entries as there are candidates |
| Storage.CollectStep | internal/storage/storage.go:165-176 | one loop iteration appends exactly the visited alias's contribution |
| Storage.CollectDone | internal/storage/storage.go:165-176 | once every alias is visited, the collected matches are exactly the candidates |
| Storage.RecentSelection | internal/storage/storage.go:238-249 | the result length is min(limit, n) for positive limit and n otherwise, and the result is a top-ranked selection by recency |
| Storage.NewStore | internal/storage/storage.go:33-94 | a missing file gives an empty version-"1.0" store written at once; an unreadable file gives IOError, a malformed one ParseError; a stored nil map becomes an empty map |
| Storage.Store.Loaded | internal/storage/storage.go:67-94 | the loaded container equals what the file held, and the file is in sync |
| Storage.Store.Save | internal/storage/storage.go:96-108 | a successful write makes the file hold the container; a failed write reports IOError |
| Storage.Store.GetBookmark | internal/storage/storage.go:130-133 | found exactly when the alias is stored, with the stored record |
| Storage.Store.GetAllBookmarks | internal/storage/storage.go:135-137 | the whole alias-to-record map |
| Storage.Store.SaveBookmark | internal/storage/storage.go:110-128 | a new alias gets {path, created now, used 0, last used now}; an existing one gets only a new path and last-used time; other aliases and the version are unchanged; the lookup then returns the new path; the file is rewritten |
| Storage.Store.DeleteBookmark | internal/storage/storage.go:139-142 | the alias is removed and nothing else changes; the lookup then reports not found; deleting an absent alias changes nothing; the file is rewritten |
| Storage.Store.UpdateUsage | internal/storage/storage.go:144-151 | a stored alias gets one more use and last-used now, and the file is rewritten; an unknown alias gives NotFound with nothing changed and nothing written |
| Storage.Store.FindFuzzyMatches | internal/storage/storage.go:161-187 | the result is a permutation of the fuzzy candidates, sorted by score then use count, both descending; it has one entry per candidate and never lists an alias twice |
| Storage.Store.GetRecentlyUsed | internal/storage/storage.go:226-250 | the length is min(limit, n) for positive limit and n otherwise; the result is sorted by last use then use count, descending; nothing left out precedes anything kept; with no truncation it is a permutation of all bookmarks |
| Storage.Store.GetSuggestions | internal/storage/storage.go:253-285 | the result is a permutation of the suggestion candidates, sorted by score then use count, both descending; it has one entry per candidate and never lists an alias twice |
| Commands.MatchesAliasPattern | cmd/save.go:60 | the anchored pattern ^[a-zA-Z0-9_-]+$ matches exactly non-empty strings made of those characters |
| Commands.IsValidAlias | cmd/save.go:46-62 | an alias is accepted exactly when it is not reserved, has 1 to 50 characters, and every character is a letter, digit, dash or underscore |
| Commands.ReservedWordsRejected | cmd/save.go:48-53 | each of the seven reserved words is rejected although it is well-formed |
| Commands.LongAliasRejected | cmd/save.go:56-58 | any alias longer than 50 is rejected |
| Commands.AcceptedAliasExamples | cmd/cmd_integration_test.go:261-263 | valid-alias, valid_alias and ValidAlias123 are accepted |
| Commands.RejectedAliasExamples | cmd/cmd_integration_test.go:264-269 | save, list, the empty alias, an alias with spaces, one with '@' and 51 characters are rejected |
| Commands.UnreservedWordsAccepted | cmd/save.go:48 | only the listed words are reserved: cleanup and recent are accepted |
| Commands.ValidAliasIsAscii | cmd/save.go:56-60 | accepted aliases are ASCII, so their character length is their byte length |
| Commands.SaveCommand | cmd/save.go:16-43 | an invalid alias, an unknown working directory and a store that cannot be opened or written are each reported; the write of a new empty container and the write after saving succeed or fail independently, so a missing file whose first write succeeds and whose second fails reports the save failure; on success, the working directory is saved under the alias, every other loaded bookmark is kept, the file holds the result, and a store whose aliases were all valid still has only valid aliases |

## Left out

- Home-directory lookup, config-directory creation, and JSON encoding and decoding are left out. What reading the file produced is a `StoredFile` value. Whether a write succeeds is a parameter. That the written file reads back as the same container is not modelled.
- `time.Now()` becomes the `now` parameter, and time values are integers.
- Bookmarks are values, not shared `*Bookmark` pointers. A `FuzzyMatch` therefore holds a copy of the record, and later changes through the map are not reflected in earlier query results.
- Strings are sequences of characters, and lower-casing folds only A-Z. Go's Unicode case mapping is not modelled. For non-ASCII text, the byte-indexed pattern, the rune-by-rune scan of the alias, and byte-indexed `levenshteinDistance` are not modelled either. For ASCII text, bytes and characters coincide.
- Commands.IsValidAlias: the length cap counts characters where the code counts bytes. The verdict is the same: an alias with a non-ASCII character fails the pattern anyway (`Commands.ValidAliasIsAscii`).
- The sort algorithm: the model keeps only the contract of the sort used (ordered, a permutation). The order of equal-key matches and Go's map iteration order are left unspecified.
- The other cobra commands (navigate, recent, search, edit, cleanup, delete, list, path, root, completion), `main.go`, printing, and confirmation prompts are left out. They call the store and format output.
- Concurrent access (the concurrent benchmarks) is left out. The store has no synchronisation and the model is sequential.
- Storage.Store.Save: after a failed write nothing is promised about the file's contents. `os.WriteFile` truncates the file before writing and can leave it empty or partly written, and the model does not describe that partial state.
- Storage.Store.GetAllBookmarks: the code returns the store's own live map, so a caller that changes it changes the store. The model returns the map as a value and does not capture that sharing.
- Storage.Store.UpdateUsage: Go's `int` is 64 bits wide, so `UsedCount++` and the score arithmetic in the scorer and the suggestion ranking would wrap around at 2^63. The model's integers are unbounded, so wrap-around is not modelled.
