/**
 The bookmark store: the in-memory container loaded from the bookmarks file,
 the operations that change it (each followed by a rewrite of the whole
 file), the lookups, and the three ranking queries of the match engine.

 The file itself is not modelled. What was read from it is a `StoredFile`
 value; whether a rewrite succeeds is the `writeOk` parameter; the ghost
 field `persisted` is the container as last written. The current time is
 the `now` parameter.
 */
module Storage {
  import opened Records
  import opened Strings
  import opened Levenshtein
  import opened Scoring
  import opened Ranking

  /** What reading the bookmarks file produced. */
  datatype StoredFile =
    | Missing
    | Unreadable
    | Malformed
    | Stored(version: string, bookmarks: Option<map<string, Bookmark>>)

  /** The three ranking queries of the match engine. */
  datatype Query = Fuzzy(pattern: string) | Recent | Suggest(input: string, maxDistance: int)

  /**
   The score a typo suggestion gets: 1000 less 100 per edit, plus 200 when the
   alias extends the input. An extension's edits are exactly its added
   characters, so no suggestion at distance 1 or more scores above 1100.
   */
  function SuggestionScore(input: string, alias: string): (r: int)
    ensures HasPrefix(ToLower(alias), ToLower(input)) ==> r == 1200 - 100 * (|alias| - |input|)
    ensures !HasPrefix(ToLower(alias), ToLower(input)) ==> r == 1000 - 100 * EditDistance(ToLower(input), ToLower(alias))
    ensures EditDistance(ToLower(input), ToLower(alias)) > 0 ==> r <= 1100
  {
    var inputLower, aliasLower := ToLower(input), ToLower(alias);
    if HasPrefix(aliasLower, inputLower) then
      ExtensionDistance(inputLower, aliasLower);
      1000 - EditDistance(inputLower, aliasLower) * 100 + 200
    else
      1000 - EditDistance(inputLower, aliasLower) * 100
  }

  /** The match, if any, that the entry `alias` -> `b` contributes to the result of query `q`. */
  function Contribution(q: Query, alias: string, b: Bookmark): (r: Option<FuzzyMatch>)
    ensures r.Some? ==> r.value.alias == alias && r.value.bookmark == b
  {
    match q
    case Fuzzy(pattern) =>
      var score := FuzzyScore(ToLower(pattern), ToLower(alias));
      if score > 0 then Some(FuzzyMatch(alias, b, score)) else None
    case Recent =>
      Some(FuzzyMatch(alias, b, b.usedCount))
    case Suggest(input, maxDistance) =>
      var distance := EditDistance(ToLower(input), ToLower(alias));
      if distance <= maxDistance && distance > 0 then Some(FuzzyMatch(alias, b, SuggestionScore(input, alias)))
      else None
  }

  /** The matches that the entries of `m` whose aliases lie in `keys` contribute to query `q`. */
  ghost function Candidates(m: map<string, Bookmark>, keys: set<string>, q: Query): set<FuzzyMatch>
  {
    set a | a in keys && a in m && Contribution(q, a, m[a]).Some? :: Contribution(q, a, m[a]).value
  }

  /** Adding one more alias to `keys` adds at most its own, new, contribution. */
  lemma CandidatesStep(m: map<string, Bookmark>, keys: set<string>, a: string, q: Query)
    requires a in m && a !in keys
    ensures var c := Contribution(q, a, m[a]);
            multiset(Candidates(m, keys + {a}, q)) ==
              multiset(Candidates(m, keys, q)) + (if c.Some? then multiset{c.value} else multiset{})
  {
    var c := Contribution(q, a, m[a]);
    if c.Some? {
      assert c.value !in Candidates(m, keys, q);
      assert Candidates(m, keys + {a}, q) == Candidates(m, keys, q) + {c.value};
    } else {
      assert Candidates(m, keys + {a}, q) == Candidates(m, keys, q);
    }
  }

  lemma CandidatesMembership(m: map<string, Bookmark>, q: Query, x: FuzzyMatch)
    ensures x in Candidates(m, m.Keys, q) <==> x.alias in m && Contribution(q, x.alias, m[x.alias]) == Some(x)
  {
  }

  /** Each alias contributes at most one match, so an arrangement of the candidates never repeats an alias. */
  lemma {:induction false} CandidateAliasesDistinct(ms: seq<FuzzyMatch>, m: map<string, Bookmark>, q: Query)
    requires multiset(ms) == multiset(Candidates(m, m.Keys, q))
    ensures forall i, j :: 0 <= i < j < |ms| ==> ms[i].alias != ms[j].alias
  {
    forall i, j | 0 <= i < j < |ms|
      ensures ms[i].alias != ms[j].alias
    {
      assert ms[i] in multiset(ms) && ms[j] in multiset(ms);
      RepeatCountsTwice(ms, i, j);
    }
  }

  lemma RepeatCountsTwice<T>(ms: seq<T>, i: nat, j: nat)
    requires i < j < |ms|
    ensures ms[i] == ms[j] ==> multiset(ms)[ms[i]] >= 2
  {
    assert ms == ms[..j] + ms[j..];
    assert ms[i] == ms[..j][i];
    assert ms[j] == ms[j..][0];
  }

  /** A fuzzy match is exactly an alias whose lower-cased score against the lower-cased pattern is positive. */
  lemma FuzzyCandidatesExactly(m: map<string, Bookmark>, pattern: string, x: FuzzyMatch)
    ensures x in Candidates(m, m.Keys, Fuzzy(pattern)) <==>
            && x.alias in m && x.bookmark == m[x.alias]
            && x.score == FuzzyScore(ToLower(pattern), ToLower(x.alias)) && x.score > 0
  {
  }

  /** A suggestion is exactly an alias within edit distance 1 .. maxDistance of the input, both lower-cased. */
  lemma SuggestionCandidatesExactly(m: map<string, Bookmark>, input: string, maxDistance: int, x: FuzzyMatch)
    ensures x in Candidates(m, m.Keys, Suggest(input, maxDistance)) <==>
            && x.alias in m && x.bookmark == m[x.alias]
            && 0 < EditDistance(ToLower(input), ToLower(x.alias)) <= maxDistance
            && x.score == SuggestionScore(input, x.alias)
  {
  }

  /** Every bookmark is a recency candidate, scored by its use count. */
  lemma RecentCandidatesExactly(m: map<string, Bookmark>, x: FuzzyMatch)
    ensures x in Candidates(m, m.Keys, Recent) <==>
            x.alias in m && x.bookmark == m[x.alias] && x.score == m[x.alias].usedCount
  {
  }

  /**
   The fuzzy and suggestion queries lower-case the pattern or input first, so
   a query already in lower case finds the same matches with the same scores.
   */
  lemma QueriesIgnoreCase(m: map<string, Bookmark>, text: string, maxDistance: int)
    ensures Candidates(m, m.Keys, Fuzzy(ToLower(text))) == Candidates(m, m.Keys, Fuzzy(text))
    ensures Candidates(m, m.Keys, Suggest(ToLower(text), maxDistance)) == Candidates(m, m.Keys, Suggest(text, maxDistance))
  {
    var lower := ToLower(text);
    ToLowerIdempotent(text);
    forall a | a in m
      ensures Contribution(Fuzzy(lower), a, m[a]) == Contribution(Fuzzy(text), a, m[a])
      ensures Contribution(Suggest(lower, maxDistance), a, m[a]) == Contribution(Suggest(text, maxDistance), a, m[a])
    {
      assert SuggestionScore(lower, a) == SuggestionScore(text, a);
    }
  }

  lemma {:induction false} MultisetCardinality(ms: seq<FuzzyMatch>, m: map<string, Bookmark>, q: Query)
    requires multiset(ms) == multiset(Candidates(m, m.Keys, q))
    ensures |ms| == |Candidates(m, m.Keys, q)|
  {
    assert |multiset(ms)| == |ms|;
  }

  /** The bookmarks a store starts from after reading `file`: a stored nil map, and any other file, give none. */
  function LoadedBookmarks(file: StoredFile): map<string, Bookmark>
  {
    if file.Stored? && file.bookmarks.Some? then file.bookmarks.value else map[]
  }

  /** Opens the store from what the bookmarks file held; a missing file becomes a new, empty, version "1.0" container that is written at once. */
  method NewStore(file: StoredFile, writeOk: bool) returns (r: Result<Store>)
    ensures file.Missing? && writeOk ==>
              r.Success? && fresh(r.value) && r.value.Data() == BookmarkData("1.0", map[])
              && r.value.persisted == r.value.Data()
    ensures file.Missing? && !writeOk ==> r == Failure(IOError)
    ensures file.Unreadable? ==> r == Failure(IOError)
    ensures file.Malformed? ==> r == Failure(ParseError)
    ensures file.Stored? ==>
              r.Success? && fresh(r.value) && r.value.version == file.version
              && r.value.bookmarks == LoadedBookmarks(file)
              && r.value.persisted == r.value.Data()
  {
    if file.Unreadable? {
      return Failure(IOError);
    } else if file.Malformed? {
      return Failure(ParseError);
    } else if file.Missing? {
      var store := new Store.Loaded("1.0", map[]);
      var outcome := store.Save(writeOk);
      if outcome.Fail? {
        return Failure(outcome.error);
      }
      return Success(store);
    }
    var loaded := LoadedBookmarks(file);
    var store := new Store.Loaded(file.version, loaded);
    return Success(store);
  }

  /**
   Loop state of a query over `m`: the aliases still to visit are `rest`, and
   `found` holds, in some order, what every alias already visited contributes.
   */
  ghost predicate Collected(m: map<string, Bookmark>, rest: set<string>, found: seq<FuzzyMatch>, q: Query)
  {
    rest <= m.Keys && multiset(found) == multiset(Candidates(m, m.Keys - rest, q))
  }

  /** Visiting one more alias appends its contribution, if any. */
  lemma CollectStep(m: map<string, Bookmark>, rest: set<string>, a: string, found: seq<FuzzyMatch>, q: Query)
    requires Collected(m, rest, found, q) && a in rest
    ensures var c := Contribution(q, a, m[a]);
            Collected(m, rest - {a}, found + (if c.Some? then [c.value] else []), q)
  {
    assert m.Keys - (rest - {a}) == (m.Keys - rest) + {a};
    CandidatesStep(m, m.Keys - rest, a, q);
  }

  /** When no alias is left to visit, `found` holds every contribution. */
  lemma CollectDone(m: map<string, Bookmark>, found: seq<FuzzyMatch>, q: Query)
    requires Collected(m, {}, found, q)
    ensures multiset(found) == multiset(Candidates(m, m.Keys, q))
  {
    assert m.Keys - {} == m.Keys;
  }

  /** Sorting the collected matches by recency and keeping the first `limit` (all when `limit` is not positive) selects the top of `s`. */
  lemma RecentSelection(found: seq<FuzzyMatch>, limit: int, s: set<FuzzyMatch>, matches: seq<FuzzyMatch>)
    requires multiset(found) == multiset(s)
    requires var sorted := SortMatches(found, ByRecency);
             matches == if limit > 0 && |sorted| > limit then sorted[..limit] else sorted
    ensures |matches| == if 0 < limit < |found| then limit else |found|
    ensures TopRanked(matches, s, ByRecency)
    ensures !(0 < limit < |found|) ==> multiset(matches) == multiset(s)
  {
    var sorted := SortMatches(found, ByRecency);
    TopOfRanking(found, |matches|, s, ByRecency);
    assert matches == sorted[..|matches|];
  }

  class Store {
    var version: string
    var bookmarks: map<string, Bookmark>
    /** The container as the bookmarks file last received it. */
    ghost var persisted: BookmarkData

    /** The container currently held in memory. */
    function Data(): BookmarkData
      reads this
    {
      BookmarkData(version, bookmarks)
    }

    /** A store holding the container just read from (and so equal to) the file. */
    constructor Loaded(version: string, bookmarks: map<string, Bookmark>)
      ensures Data() == BookmarkData(version, bookmarks)
      ensures persisted == Data()
    {
      this.version := version;
      this.bookmarks := bookmarks;
      persisted := BookmarkData(version, bookmarks);
    }

    /** Rewrites the whole file with the container in memory. */
    method Save(writeOk: bool) returns (outcome: Outcome)
      modifies this`persisted
      ensures outcome == if writeOk then Pass else Fail(IOError)
      ensures writeOk ==> persisted == Data()
    {
      if writeOk {
        persisted := Data();
        outcome := Pass;
      } else {
        outcome := Fail(IOError);
      }
    }

    /** The bookmark stored under `alias`, if any. */
    function GetBookmark(alias: string): (r: Option<Bookmark>)
      reads this
      ensures r.Some? <==> alias in bookmarks
      ensures r.Some? ==> r.value == bookmarks[alias]
    {
      if alias in bookmarks then Some(bookmarks[alias]) else None
    }

    /** The whole alias -> bookmark mapping. */
    function GetAllBookmarks(): (r: map<string, Bookmark>)
      reads this
      ensures r == Data().bookmarks
    {
      bookmarks
    }

    /**
     Saves `path` under `alias`. An existing bookmark gets the new path and a
     fresh last-used time but keeps its creation time and use count; a new one
     starts unused, created and last used `now`. The file is then rewritten,
     even though the change in memory stays when the write fails.
     */
    method SaveBookmark(alias: string, path: string, now: int, writeOk: bool) returns (outcome: Outcome)
      modifies this
      ensures version == old(version)
      ensures alias in old(bookmarks) ==>
                bookmarks == old(bookmarks)[alias := old(bookmarks)[alias].(path := path, lastUsed := now)]
      ensures alias !in old(bookmarks) ==>
                bookmarks == old(bookmarks)[alias := Bookmark(path, now, 0, now)]
      ensures GetBookmark(alias).Some? && GetBookmark(alias).value.path == path
      ensures outcome == if writeOk then Pass else Fail(IOError)
      ensures writeOk ==> persisted == Data()
    {
      if alias in bookmarks {
        var existing := bookmarks[alias];
        bookmarks := bookmarks[alias := existing.(path := path, lastUsed := now)];
      } else {
        bookmarks := bookmarks[alias := Bookmark(path, now, 0, now)];
      }
      outcome := Save(writeOk);
    }

    /** Removes `alias`; removing an absent alias changes nothing and is not an error. The file is then rewritten. */
    method DeleteBookmark(alias: string, writeOk: bool) returns (outcome: Outcome)
      modifies this
      ensures version == old(version)
      ensures bookmarks == old(bookmarks) - {alias}
      ensures GetBookmark(alias) == None
      ensures alias !in old(bookmarks) ==> bookmarks == old(bookmarks)
      ensures outcome == if writeOk then Pass else Fail(IOError)
      ensures writeOk ==> persisted == Data()
    {
      bookmarks := bookmarks - {alias};
      outcome := Save(writeOk);
    }

    /**
     Records one more use of `alias` at time `now` and rewrites the file; an
     unknown alias is reported as not found and nothing is written.
     */
    method UpdateUsage(alias: string, now: int, writeOk: bool) returns (outcome: Outcome)
      modifies this
      ensures version == old(version)
      ensures alias in old(bookmarks) ==>
                && bookmarks == old(bookmarks)[alias := old(bookmarks)[alias].(usedCount := old(bookmarks)[alias].usedCount + 1, lastUsed := now)]
                && outcome == (if writeOk then Pass else Fail(IOError))
                && (writeOk ==> persisted == Data())
      ensures alias !in old(bookmarks) ==>
                && bookmarks == old(bookmarks)
                && outcome == Fail(NotFound(alias))
                && persisted == old(persisted)
    {
      if alias in bookmarks {
        var bookmark := bookmarks[alias];
        bookmarks := bookmarks[alias := bookmark.(usedCount := bookmark.usedCount + 1, lastUsed := now)];
        outcome := Save(writeOk);
        return;
      }
      outcome := Fail(NotFound(alias));
    }

    /**
     The aliases that match `pattern` (compared lower-cased) with a positive
     fuzzy score, best score first, then most used first.
     */
    method FindFuzzyMatches(pattern: string) returns (matches: seq<FuzzyMatch>)
      ensures multiset(matches) == multiset(Candidates(bookmarks, bookmarks.Keys, Fuzzy(pattern)))
      ensures Sorted(matches, ByScore)
      ensures |matches| == |Candidates(bookmarks, bookmarks.Keys, Fuzzy(pattern))|
      ensures forall i, j :: 0 <= i < j < |matches| ==> matches[i].alias != matches[j].alias
    {
      var m := bookmarks;
      var found: seq<FuzzyMatch> := [];
      var patternLower := ToLower(pattern);
      var rest := m.Keys;
      while rest != {}
        invariant Collected(m, rest, found, Fuzzy(pattern))
        decreases rest
      {
        var alias :| alias in rest;
        var bookmark := m[alias];
        var score := CalculateFuzzyScore(patternLower, ToLower(alias));
        CollectStep(m, rest, alias, found, Fuzzy(pattern));
        if score > 0 {
          found := found + [FuzzyMatch(alias, bookmark, score)];
        }
        rest := rest - {alias};
      }
      CollectDone(m, found, Fuzzy(pattern));
      matches := SortMatches(found, ByScore);
      MultisetCardinality(matches, m, Fuzzy(pattern));
      CandidateAliasesDistinct(matches, m, Fuzzy(pattern));
    }

    /**
     Every bookmark, scored by its use count, most recently used first and
     then most used first; only the first `limit` when `limit` is positive.
     */
    method GetRecentlyUsed(limit: int) returns (matches: seq<FuzzyMatch>)
      ensures |matches| == if 0 < limit < |bookmarks| then limit else |bookmarks|
      ensures TopRanked(matches, Candidates(bookmarks, bookmarks.Keys, Recent), ByRecency)
      ensures !(0 < limit < |bookmarks|) ==> multiset(matches) == multiset(Candidates(bookmarks, bookmarks.Keys, Recent))
    {
      var m := bookmarks;
      var found: seq<FuzzyMatch> := [];
      var rest := m.Keys;
      while rest != {}
        invariant Collected(m, rest, found, Recent)
        invariant |found| + |rest| == |m|
        decreases rest
      {
        var alias :| alias in rest;
        var bookmark := m[alias];
        CollectStep(m, rest, alias, found, Recent);
        found := found + [FuzzyMatch(alias, bookmark, bookmark.usedCount)];
        rest := rest - {alias};
      }
      CollectDone(m, found, Recent);
      var sorted := SortMatches(found, ByRecency);
      matches := sorted;
      if limit > 0 && |sorted| > limit {
        matches := sorted[..limit];
      }
      RecentSelection(found, limit, Candidates(m, m.Keys, Recent), matches);
    }

    /**
     Typo suggestions for `input`: the aliases whose lower-cased edit distance
     from the lower-cased input is between 1 and `maxDistance`, best score
     first, then most used first.
     */
    method GetSuggestions(input: string, maxDistance: int) returns (suggestions: seq<FuzzyMatch>)
      ensures multiset(suggestions) == multiset(Candidates(bookmarks, bookmarks.Keys, Suggest(input, maxDistance)))
      ensures Sorted(suggestions, ByScore)
      ensures |suggestions| == |Candidates(bookmarks, bookmarks.Keys, Suggest(input, maxDistance))|
      ensures forall i, j :: 0 <= i < j < |suggestions| ==> suggestions[i].alias != suggestions[j].alias
    {
      var m := bookmarks;
      var found: seq<FuzzyMatch> := [];
      var inputLower := ToLower(input);
      var rest := m.Keys;
      while rest != {}
        invariant Collected(m, rest, found, Suggest(input, maxDistance))
        decreases rest
      {
        var alias :| alias in rest;
        var bookmark := m[alias];
        var aliasLower := ToLower(alias);
        var distance := LevenshteinDistance(inputLower, aliasLower);
        CollectStep(m, rest, alias, found, Suggest(input, maxDistance));
        ghost var contribution := Contribution(Suggest(input, maxDistance), alias, bookmark);
        if distance <= maxDistance && distance > 0 {
          var score := 1000 - distance * 100;
          if HasPrefix(aliasLower, inputLower) {
            score := score + 200;
          }
          assert score == SuggestionScore(input, alias);
          assert contribution == Some(FuzzyMatch(alias, bookmark, score));
          found := found + [FuzzyMatch(alias, bookmark, score)];
        } else {
          assert contribution == None;
        }
        rest := rest - {alias};
      }
      CollectDone(m, found, Suggest(input, maxDistance));
      suggestions := SortMatches(found, ByScore);
      MultisetCardinality(suggestions, m, Suggest(input, maxDistance));
      CandidateAliasesDistinct(suggestions, m, Suggest(input, maxDistance));
    }
  }
}
