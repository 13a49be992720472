/**
 The fuzzy scorer: how well a (lower-cased) pattern matches a (lower-cased)
 alias. Tiers, from best to worst: exact match, prefix, substring, and a
 greedy left-to-right subsequence scan.
 */
module Scoring {
  import opened Strings

  /** What the subsequence scan has accumulated: pattern characters matched so far and points. */
  datatype ScanState = ScanState(matched: nat, score: int)

  /**
   The scan state after reading alias[..i]: each alias character equal to the
   next unmatched pattern character earns 100 points, plus 50 when its
   position equals the number of pattern characters matched before it.
   */
  function Scan(pattern: string, alias: string, i: nat): (st: ScanState)
    requires i <= |alias|
    ensures st.matched <= i && st.matched <= |pattern|
    ensures 100 * st.matched <= st.score <= 150 * st.matched
  {
    if i == 0 then ScanState(0, 0)
    else
      var prev := Scan(pattern, alias, i - 1);
      if prev.matched < |pattern| && alias[i - 1] == pattern[prev.matched] then
        ScanState(prev.matched + 1, prev.score + 100 + (if i - 1 == prev.matched then 50 else 0))
      else
        prev
  }

  /** The score of `pattern` against `alias`; zero means no match. */
  function FuzzyScore(pattern: string, alias: string): (r: int)
    ensures r >= 0
  {
    if pattern == alias then 1000
    else if Contains(alias, pattern) then
      if HasPrefix(alias, pattern) then 800 + |pattern| * 10 else 500 + |pattern| * 5
    else
      var st := Scan(pattern, alias, |alias|);
      if st.matched < |pattern| / 2 then 0 else st.score
  }

  /** The scorer as the source runs it: tier tests, then one pass over the alias. */
  method CalculateFuzzyScore(pattern: string, alias: string) returns (score: int)
    ensures score == FuzzyScore(pattern, alias)
  {
    if pattern == alias {
      return 1000;
    }
    if Contains(alias, pattern) {
      if HasPrefix(alias, pattern) {
        return 800 + |pattern| * 10;
      }
      return 500 + |pattern| * 5;
    }

    score := 0;
    var patternIndex := 0;
    var i := 0;
    while i < |alias|
      invariant 0 <= i <= |alias|
      invariant ScanState(patternIndex, score) == Scan(pattern, alias, i)
    {
      if patternIndex < |pattern| && alias[i] == pattern[patternIndex] {
        score := score + 100;
        if i == patternIndex {
          score := score + 50;
        }
        patternIndex := patternIndex + 1;
      }
      i := i + 1;
    }

    if patternIndex < |pattern| / 2 {
      return 0;
    }
  }

  lemma ExactMatchScore(pattern: string)
    ensures FuzzyScore(pattern, pattern) == 1000
  {
  }

  lemma PrefixMatchScore(pattern: string, alias: string)
    requires pattern != alias && HasPrefix(alias, pattern)
    ensures FuzzyScore(pattern, alias) == 800 + 10 * |pattern|
  {
  }

  lemma SubstringMatchScore(pattern: string, alias: string)
    requires exists k :: OccursAt(alias, pattern, k)
    requires !HasPrefix(alias, pattern)
    ensures FuzzyScore(pattern, alias) == 500 + 5 * |pattern|
  {
    ContainsIff(alias, pattern);
  }

  /** The empty pattern is a prefix of everything, so it scores 800 against any non-empty alias. */
  lemma EmptyPatternScore(alias: string)
    requires alias != ""
    ensures FuzzyScore("", alias) == 800
  {
    EveryStringContainsEmpty(alias);
  }

  /** pattern[..k] is a subsequence of alias[..i]. */
  ghost predicate Embeds(pattern: string, k: nat, alias: string, i: nat)
    requires k <= |pattern| && i <= |alias|
    decreases i
  {
    if k == 0 then true
    else if i == 0 then false
    else Embeds(pattern, k, alias, i - 1)
         || (pattern[k - 1] == alias[i - 1] && Embeds(pattern, k - 1, alias, i - 1))
  }

  /** Every pattern character the scan counts really is matched, in order. */
  lemma {:induction false} ScanIsSound(pattern: string, alias: string, i: nat)
    requires i <= |alias|
    ensures Embeds(pattern, Scan(pattern, alias, i).matched, alias, i)
  {
    if i > 0 {
      ScanIsSound(pattern, alias, i - 1);
    }
  }

  /** The greedy scan matches as long a prefix of the pattern as any embedding does. */
  lemma {:induction false} ScanIsGreedyOptimal(pattern: string, alias: string, i: nat, k: nat)
    requires i <= |alias| && k <= |pattern|
    requires Embeds(pattern, k, alias, i)
    ensures k <= Scan(pattern, alias, i).matched
  {
    if k > 0 && i > 0 {
      if Embeds(pattern, k, alias, i - 1) {
        ScanIsGreedyOptimal(pattern, alias, i - 1, k);
      } else {
        ScanIsGreedyOptimal(pattern, alias, i - 1, k - 1);
      }
    }
  }

  /**
   Below the substring tier, a pattern matches exactly when some prefix of it
   with at least one character and at least half of its characters (rounded
   down) occurs in the alias as a subsequence.
   */
  lemma SubsequenceTierPositiveIff(pattern: string, alias: string)
    requires pattern != alias && !Contains(alias, pattern)
    ensures FuzzyScore(pattern, alias) > 0 <==>
            exists k :: 1 <= k <= |pattern| && k >= |pattern| / 2 && Embeds(pattern, k, alias, |alias|)
  {
    var st := Scan(pattern, alias, |alias|);
    if FuzzyScore(pattern, alias) > 0 {
      ScanIsSound(pattern, alias, |alias|);
      assert 1 <= st.matched <= |pattern| && st.matched >= |pattern| / 2 && Embeds(pattern, st.matched, alias, |alias|);
      assert exists k :: 1 <= k <= |pattern| && k >= |pattern| / 2 && Embeds(pattern, k, alias, |alias|);
    }
    if exists k :: 1 <= k <= |pattern| && k >= |pattern| / 2 && Embeds(pattern, k, alias, |alias|) {
      var k :| 1 <= k <= |pattern| && k >= |pattern| / 2 && Embeds(pattern, k, alias, |alias|);
      ScanIsGreedyOptimal(pattern, alias, |alias|, k);
      assert st.matched >= k && st.score >= 100;
      assert FuzzyScore(pattern, alias) == st.score;
    }
  }

  /** For a pattern of at most six characters the exact match outscores every other alias. */
  lemma ExactMatchWinsForShortPatterns(pattern: string, alias: string)
    requires |pattern| <= 6 && alias != pattern
    ensures FuzzyScore(pattern, alias) < FuzzyScore(pattern, pattern)
  {
  }

  /** A 21-character pattern scores more against a one-character extension than against itself. */
  lemma LongPrefixOutscoresExactMatch()
    ensures FuzzyScore("aaaaaaaaaaaaaaaaaaaaa", "aaaaaaaaaaaaaaaaaaaaaa") == 1010
    ensures FuzzyScore("aaaaaaaaaaaaaaaaaaaaa", "aaaaaaaaaaaaaaaaaaaaa") == 1000
  {
    var p, a := "aaaaaaaaaaaaaaaaaaaaa", "aaaaaaaaaaaaaaaaaaaaaa";
    assert |p| == 21 && a[..21] == p;
    PrefixMatchScore(p, a);
  }

  /** An eight-character pattern with one stray character in the alias outscores the exact match. */
  lemma SubsequenceOutscoresExactMatch()
    ensures FuzzyScore("abcdefgh", "abcdefgxh") == 1150
  {
    var p, a := "abcdefgh", "abcdefgxh";
    StrayCharacterBreaksSubstring();
    StrayCharacterScan(p, a);
  }

  /** While the alias agrees with the pattern position by position, every character earns 150. */
  lemma {:induction false} ScanOfCommonPrefix(pattern: string, alias: string, i: nat)
    requires i <= |alias| && i <= |pattern|
    requires forall j :: 0 <= j < i ==> alias[j] == pattern[j]
    ensures Scan(pattern, alias, i) == ScanState(i, 150 * i)
  {
    if i > 0 {
      ScanOfCommonPrefix(pattern, alias, i - 1);
    }
  }

  /**
   An alias that is the pattern with one stray character inserted before its
   last character: every pattern character is matched, the last one without
   the position bonus.
   */
  lemma StrayCharacterScan(pattern: string, alias: string)
    requires |pattern| >= 1 && |alias| == |pattern| + 1
    requires forall j :: 0 <= j < |pattern| - 1 ==> alias[j] == pattern[j]
    requires alias[|pattern| - 1] != pattern[|pattern| - 1] && alias[|pattern|] == pattern[|pattern| - 1]
    ensures Scan(pattern, alias, |alias|) == ScanState(|pattern|, 150 * |pattern| - 50)
  {
    var n := |pattern|;
    ScanOfCommonPrefix(pattern, alias, n - 1);
    assert Scan(pattern, alias, n) == ScanState(n - 1, 150 * (n - 1));
  }

  lemma StrayCharacterBreaksSubstring()
    ensures !Contains("abcdefgxh", "abcdefgh")
  {
    var p, a := "abcdefgh", "abcdefgxh";
    assert a[..8][7] != p[7];
    assert a[1..][..8][0] != p[0];
    assert !Contains(a[1..][1..], p);
  }
}
