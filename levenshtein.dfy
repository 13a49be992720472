/**
 Edit distance between two aliases: the least number of single-character
 insertions, deletions and substitutions that turn one into the other.
 `PrefixDistance` is the recursive definition; `LevenshteinDistance` fills
 the dynamic-programming table and is proved to compute it.
 */
module Levenshtein {

  /** The least of three integers. */
  function Min(a: int, b: int, c: int): (r: int)
    ensures r <= a && r <= b && r <= c
    ensures r == a || r == b || r == c
  {
    if a < b then
      if a < c then a else c
    else
      if b < c then b else c
  }

  /** The edit distance between the prefixes s[..i] and t[..j]. */
  function PrefixDistance(s: string, t: string, i: nat, j: nat): nat
    requires i <= |s| && j <= |t|
    decreases i + j
  {
    if i == 0 then j
    else if j == 0 then i
    else
      Min(PrefixDistance(s, t, i - 1, j) + 1,
          PrefixDistance(s, t, i, j - 1) + 1,
          PrefixDistance(s, t, i - 1, j - 1) + (if s[i - 1] == t[j - 1] then 0 else 1))
  }

  /** The edit distance between `s` and `t`. */
  function EditDistance(s: string, t: string): nat
  {
    PrefixDistance(s, t, |s|, |t|)
  }

  /** Cells 0 .. upTo - 1 of row `row` of the table hold the prefix distances. */
  ghost predicate RowFilled(matrix: array2<int>, s: string, t: string, row: nat, upTo: nat)
    reads matrix
    requires row < matrix.Length0 == |s| + 1 && upTo <= matrix.Length1 == |t| + 1
  {
    forall col :: 0 <= col < upTo ==> matrix[row, col] == PrefixDistance(s, t, row, col)
  }

  /** Computes the edit distance row by row in a (|s1|+1) x (|s2|+1) table. */
  method LevenshteinDistance(s1: string, s2: string) returns (d: int)
    ensures d == EditDistance(s1, s2)
  {
    if |s1| == 0 {
      return |s2|;
    }
    if |s2| == 0 {
      return |s1|;
    }

    var matrix := new int[|s1| + 1, |s2| + 1];

    var i := 0;
    while i <= |s1|
      invariant 0 <= i <= |s1| + 1
      invariant forall ii :: 0 <= ii < i ==> matrix[ii, 0] == ii
    {
      matrix[i, 0] := i;
      i := i + 1;
    }
    var j := 0;
    while j <= |s2|
      invariant 0 <= j <= |s2| + 1
      invariant forall ii :: 0 <= ii <= |s1| ==> matrix[ii, 0] == ii
      invariant forall jj :: 0 <= jj < j ==> matrix[0, jj] == jj
    {
      matrix[0, j] := j;
      j := j + 1;
    }

    i := 1;
    while i <= |s1|
      invariant 1 <= i <= |s1| + 1
      invariant RowFilled(matrix, s1, s2, i - 1, |s2| + 1)
      invariant forall ii :: i <= ii <= |s1| ==> matrix[ii, 0] == ii
    {
      j := 1;
      while j <= |s2|
        invariant 1 <= j <= |s2| + 1
        invariant RowFilled(matrix, s1, s2, i - 1, |s2| + 1)
        invariant RowFilled(matrix, s1, s2, i, j)
        invariant forall ii :: i < ii <= |s1| ==> matrix[ii, 0] == ii
      {
        var cost := 0;
        if s1[i - 1] != s2[j - 1] {
          cost := 1;
        }
        matrix[i, j] := Min(matrix[i - 1, j] + 1, matrix[i, j - 1] + 1, matrix[i - 1, j - 1] + cost);
        j := j + 1;
      }
      i := i + 1;
    }

    d := matrix[|s1|, |s2|];
  }

  lemma EditDistanceToEmpty(s: string, t: string)
    ensures EditDistance(s, "") == |s|
    ensures EditDistance("", t) == |t|
  {
  }

  /** The distance is zero exactly when the two prefixes are equal. */
  lemma {:induction false} PrefixDistanceZeroIff(s: string, t: string, i: nat, j: nat)
    requires i <= |s| && j <= |t|
    ensures PrefixDistance(s, t, i, j) == 0 <==> s[..i] == t[..j]
    decreases i + j
  {
    if i == 0 || j == 0 {
      assert |s[..i]| == i && |t[..j]| == j;
    } else {
      PrefixDistanceZeroIff(s, t, i - 1, j - 1);
      assert s[..i] == s[..i - 1] + [s[i - 1]];
      assert t[..j] == t[..j - 1] + [t[j - 1]];
      if s[..i] == t[..j] {
        assert s[..i - 1] == s[..i][..i - 1];
        assert t[..j - 1] == t[..j][..j - 1];
        assert s[i - 1] == s[..i][i - 1];
        assert t[j - 1] == t[..j][j - 1];
      }
    }
  }

  lemma EditDistanceZeroIff(s: string, t: string)
    ensures EditDistance(s, t) == 0 <==> s == t
  {
    PrefixDistanceZeroIff(s, t, |s|, |t|);
    assert s[..|s|] == s && t[..|t|] == t;
  }

  /** Substituting position by position and inserting or deleting the rest never costs more than the longer length. */
  lemma {:induction false} PrefixDistanceUpperBound(s: string, t: string, i: nat, j: nat)
    requires i <= |s| && j <= |t|
    ensures PrefixDistance(s, t, i, j) <= if i < j then j else i
    decreases i + j
  {
    if i > 0 && j > 0 {
      PrefixDistanceUpperBound(s, t, i - 1, j - 1);
    }
  }

  /** At least the difference in length must be inserted or deleted. */
  lemma {:induction false} PrefixDistanceLowerBound(s: string, t: string, i: nat, j: nat)
    requires i <= |s| && j <= |t|
    ensures PrefixDistance(s, t, i, j) >= if i < j then j - i else i - j
    decreases i + j
  {
    if i > 0 && j > 0 {
      PrefixDistanceLowerBound(s, t, i - 1, j);
      PrefixDistanceLowerBound(s, t, i, j - 1);
      PrefixDistanceLowerBound(s, t, i - 1, j - 1);
    }
  }

  lemma EditDistanceBounds(s: string, t: string)
    ensures EditDistance(s, t) <= if |s| < |t| then |t| else |s|
    ensures EditDistance(s, t) >= if |s| < |t| then |t| - |s| else |s| - |t|
  {
    PrefixDistanceUpperBound(s, t, |s|, |t|);
    PrefixDistanceLowerBound(s, t, |s|, |t|);
  }

  lemma {:induction false} PrefixDistanceSymmetric(s: string, t: string, i: nat, j: nat)
    requires i <= |s| && j <= |t|
    ensures PrefixDistance(s, t, i, j) == PrefixDistance(t, s, j, i)
    decreases i + j
  {
    if i > 0 && j > 0 {
      PrefixDistanceSymmetric(s, t, i - 1, j);
      PrefixDistanceSymmetric(s, t, i, j - 1);
      PrefixDistanceSymmetric(s, t, i - 1, j - 1);
    }
  }

  lemma EditDistanceSymmetric(s: string, t: string)
    ensures EditDistance(s, t) == EditDistance(t, s)
  {
    PrefixDistanceSymmetric(s, t, |s|, |t|);
  }

  /** Reaching t[..j] from all of `s`, when `s` is t[..|s|], takes the j - |s| insertions and no more. */
  lemma {:induction false} ExtensionPrefixDistance(s: string, t: string, j: nat)
    requires |s| <= j <= |t| && s == t[..|s|]
    ensures PrefixDistance(s, t, |s|, j) == j - |s|
    decreases j
  {
    if j == |s| {
      PrefixDistanceZeroIff(s, t, |s|, j);
      assert s[..|s|] == s;
    } else if |s| > 0 {
      ExtensionPrefixDistance(s, t, j - 1);
      PrefixDistanceLowerBound(s, t, |s|, j);
    }
  }

  /** When `t` extends `s`, the distance is exactly the number of characters added. */
  lemma ExtensionDistance(s: string, t: string)
    requires |s| <= |t| && t[..|s|] == s
    ensures EditDistance(s, t) == |t| - |s|
  {
    ExtensionPrefixDistance(s, t, |t|);
  }
}
