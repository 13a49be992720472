/**
 Ordering of ranked matches. `Less` is the comparison the store hands to the
 library sort: by a primary key descending (the score, or the last-used
 time), then by use count descending. The library sort itself is modelled
 by a functional insertion sort whose contract is all that is relied on:
 the result is ordered by `Less` and is a permutation of the input. Order
 among matches with equal keys is left unspecified.
 */
module Ranking {
  import opened Records

  /** Which primary key a ranking sorts by. */
  datatype SortKey = ByScore | ByRecency

  function Primary(m: FuzzyMatch, key: SortKey): int
  {
    match key
    case ByScore => m.score
    case ByRecency => m.bookmark.lastUsed
  }

  /**
   `x` must be placed strictly before `y`: the larger primary key goes first,
   and on equal primary keys the larger use count goes first.
   */
  function Less(x: FuzzyMatch, y: FuzzyMatch, key: SortKey): (r: bool)
    ensures Primary(x, key) > Primary(y, key) ==> r
    ensures Primary(x, key) < Primary(y, key) ==> !r
    ensures Primary(x, key) == Primary(y, key) ==> (r <==> x.bookmark.usedCount > y.bookmark.usedCount)
  {
    if Primary(x, key) != Primary(y, key) then Primary(x, key) > Primary(y, key)
    else x.bookmark.usedCount > y.bookmark.usedCount
  }

  /** No match is placed after one that `Less` says must follow it. */
  predicate Sorted(ms: seq<FuzzyMatch>, key: SortKey)
  {
    forall i, j :: 0 <= i < j < |ms| ==> !Less(ms[j], ms[i], key)
  }

  /**
   `Less` is a strict weak order, the condition the library sort needs to
   produce an ordered result: irreflexive, transitive, and with
   transitive incomparability.
   */
  lemma LessIsStrictWeakOrder(x: FuzzyMatch, y: FuzzyMatch, z: FuzzyMatch, key: SortKey)
    ensures !Less(x, x, key)
    ensures Less(x, y, key) && Less(y, z, key) ==> Less(x, z, key)
    ensures !Less(x, y, key) && !Less(y, z, key) ==> !Less(x, z, key)
  {
  }

  /** Putting `y` in front of an ordered sequence keeps it ordered when nothing in it must precede `y`. */
  lemma SortedCons(y: FuzzyMatch, ms: seq<FuzzyMatch>, key: SortKey)
    requires Sorted(ms, key)
    requires forall k :: 0 <= k < |ms| ==> !Less(ms[k], y, key)
    ensures Sorted([y] + ms, key)
  {
    forall i, j | 0 <= i < j < |[y] + ms|
      ensures !Less(([y] + ms)[j], ([y] + ms)[i], key)
    {
      if i > 0 {
        assert ([y] + ms)[i] == ms[i - 1];
      }
      assert ([y] + ms)[j] == ms[j - 1];
    }
  }

  /** Places `x` in front of the first element of the ordered `ms` that it does not follow. */
  function Insert(x: FuzzyMatch, ms: seq<FuzzyMatch>, key: SortKey): (r: seq<FuzzyMatch>)
    requires Sorted(ms, key)
    ensures Sorted(r, key)
    ensures multiset(r) == multiset(ms) + multiset{x}
  {
    if ms == [] then [x]
    else if !Less(ms[0], x, key) then
      InsertInFront(x, ms, key);
      [x] + ms
    else
      var rest := Insert(x, ms[1..], key);
      InsertBehind(x, ms, rest, key);
      [ms[0]] + rest
  }

  lemma InsertInFront(x: FuzzyMatch, ms: seq<FuzzyMatch>, key: SortKey)
    requires Sorted(ms, key) && ms != [] && !Less(ms[0], x, key)
    ensures Sorted([x] + ms, key)
  {
    forall k | 0 <= k < |ms|
      ensures !Less(ms[k], x, key)
    {
      LessIsStrictWeakOrder(ms[k], ms[0], x, key);
    }
    SortedCons(x, ms, key);
  }

  lemma InsertBehind(x: FuzzyMatch, ms: seq<FuzzyMatch>, rest: seq<FuzzyMatch>, key: SortKey)
    requires Sorted(ms, key) && ms != [] && Less(ms[0], x, key)
    requires Sorted(rest, key) && multiset(rest) == multiset(ms[1..]) + multiset{x}
    ensures Sorted([ms[0]] + rest, key)
    ensures multiset([ms[0]] + rest) == multiset(ms) + multiset{x}
  {
    assert ms == [ms[0]] + ms[1..];
    forall k | 0 <= k < |rest|
      ensures !Less(rest[k], ms[0], key)
    {
      assert rest[k] in multiset(rest);
      if rest[k] != x {
        assert rest[k] in ms[1..];
      }
    }
    SortedCons(ms[0], rest, key);
  }

  /** Orders `ms` by `Less`, keeping every element with its multiplicity. */
  function SortMatches(ms: seq<FuzzyMatch>, key: SortKey): (r: seq<FuzzyMatch>)
    ensures Sorted(r, key)
    ensures multiset(r) == multiset(ms)
  {
    if ms == [] then []
    else
      assert ms == [ms[0]] + ms[1..];
      Insert(ms[0], SortMatches(ms[1..], key), key)
  }

  /** A prefix of an ordered sequence is ordered, and every element left out does not go before any kept one. */
  lemma {:induction false} PrefixOfSorted(ms: seq<FuzzyMatch>, k: nat, key: SortKey)
    requires Sorted(ms, key) && k <= |ms|
    ensures Sorted(ms[..k], key)
    ensures multiset(ms[..k]) <= multiset(ms)
    ensures forall i, x :: 0 <= i < k && x in ms && x !in ms[..k] ==> !Less(x, ms[i], key)
  {
    assert ms == ms[..k] + ms[k..];
    forall i, x | 0 <= i < k && x in ms && x !in ms[..k]
      ensures !Less(x, ms[i], key)
    {
      var j :| 0 <= j < |ms| && ms[j] == x;
    }
  }

  /**
   `ms` is an ordered selection from `s` that nothing left out of it should
   precede: each element is a member of `s` (with no repeats), and no member
   of `s` that is missing goes strictly before any element kept.
   */
  ghost predicate TopRanked(ms: seq<FuzzyMatch>, s: set<FuzzyMatch>, key: SortKey)
  {
    && Sorted(ms, key)
    && multiset(ms) <= multiset(s)
    && forall i, x :: 0 <= i < |ms| && x in s && x !in ms ==> !Less(x, ms[i], key)
  }

  /**
   Sorting an arrangement `found` of the set `s` and keeping the first `k`
   gives a top-ranked selection from `s`, all of `s` when `k` covers it.
   */
  lemma TopOfRanking(found: seq<FuzzyMatch>, k: nat, s: set<FuzzyMatch>, key: SortKey)
    requires multiset(found) == multiset(s) && k <= |found|
    ensures |SortMatches(found, key)| == |found|
    ensures TopRanked(SortMatches(found, key)[..k], s, key)
    ensures k == |found| ==> multiset(SortMatches(found, key)[..k]) == multiset(s)
  {
    var ms := SortMatches(found, key);
    assert |multiset(ms)| == |ms| && |multiset(found)| == |found|;
    PrefixOfSorted(ms, k, key);
    assert ms[..|ms|] == ms;
    forall i, x | 0 <= i < k && x in s && x !in ms[..k]
      ensures !Less(x, ms[..k][i], key)
    {
      assert x in multiset(ms);
    }
  }
}
