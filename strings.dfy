/**
 The string primitives the match engine uses: case folding, prefix and
 substring tests. Strings are sequences of characters and the model folds
 only the ASCII letters A-Z.
 */
module Strings {

  function LowerChar(c: char): (r: char)
    ensures 'A' <= c <= 'Z' ==> r as int == c as int + 32
    ensures !('A' <= c <= 'Z') ==> r == c
  {
    if 'A' <= c <= 'Z' then (c as int + 32) as char else c
  }

  /** Lower-cases every ASCII letter of `s` and keeps every other character. */
  function ToLower(s: string): (r: string)
    ensures |r| == |s|
    ensures forall i :: 0 <= i < |s| ==> r[i] == LowerChar(s[i])
  {
    if s == [] then [] else [LowerChar(s[0])] + ToLower(s[1..])
  }

  lemma {:induction false} ToLowerIdempotent(s: string)
    ensures ToLower(ToLower(s)) == ToLower(s)
  {
    var t := ToLower(s);
    assert forall i :: 0 <= i < |s| ==> ToLower(t)[i] == LowerChar(LowerChar(s[i])) == t[i];
  }

  /** `prefix` is an initial segment of `s`: it is no longer and agrees with `s` position by position. */
  function HasPrefix(s: string, prefix: string): (r: bool)
    ensures r <==> |prefix| <= |s| && forall i :: 0 <= i < |prefix| ==> s[i] == prefix[i]
  {
    |prefix| <= |s| && s[..|prefix|] == prefix
  }

  /**
   `sub` occurs in `s`, found by trying every start position from the left. A
   prefix always occurs, and nothing longer than `s` does.
   */
  function Contains(s: string, sub: string): (r: bool)
    ensures HasPrefix(s, sub) ==> r
    ensures r ==> |sub| <= |s|
    decreases |s|
  {
    HasPrefix(s, sub) || (|s| > 0 && Contains(s[1..], sub))
  }

  /** The position-based reading of `Contains`: some window of `s` equals `sub`. */
  ghost predicate OccursAt(s: string, sub: string, k: int)
  {
    0 <= k && k + |sub| <= |s| && s[k..k + |sub|] == sub
  }

  lemma OccursAtZero(s: string, sub: string)
    ensures OccursAt(s, sub, 0) <==> HasPrefix(s, sub)
  {
  }

  /** An occurrence in the tail of `s` is an occurrence in `s` one position further on. */
  lemma OccursShift(s: string, sub: string, k: nat)
    requires |s| > 0
    ensures OccursAt(s[1..], sub, k) <==> OccursAt(s, sub, k + 1)
  {
    if k + 1 + |sub| <= |s| {
      assert s[1..][k..k + |sub|] == s[k + 1..k + 1 + |sub|];
    }
  }

  lemma {:induction false} ContainsIff(s: string, sub: string)
    ensures Contains(s, sub) <==> exists k :: OccursAt(s, sub, k)
    decreases |s|
  {
    OccursAtZero(s, sub);
    if |s| == 0 {
      forall k | OccursAt(s, sub, k)
        ensures k == 0
      {
      }
    } else {
      ContainsIff(s[1..], sub);
      if Contains(s, sub) && !HasPrefix(s, sub) {
        var k :| OccursAt(s[1..], sub, k);
        OccursShift(s, sub, k);
      }
      if exists k :: OccursAt(s, sub, k) {
        var k :| OccursAt(s, sub, k);
        if k > 0 {
          OccursShift(s, sub, k - 1);
        }
      }
    }
  }

  lemma {:induction false} EveryStringContainsEmpty(s: string)
    ensures HasPrefix(s, "") && Contains(s, "")
  {
    assert s[..0] == "";
  }
}
