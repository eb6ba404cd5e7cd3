/** Levenshtein edit distance (SimilarityService.calculateLevenshteinDistance).
    `Distance` is the recurrence the dynamic program fills in, read on
    prefixes; `LevenshteinDistance` is the program itself, a full
    (|a|+1) x (|b|+1) matrix, proved to compute `Distance`. */
module Levenshtein {

  function Min(x: int, y: int): int { if x <= y then x else y }

  function Max(x: int, y: int): int { if x >= y then x else y }

  /** Edit distance with unit cost for insertion, deletion and substitution.
      When the last characters agree the program copies the diagonal cell
      without taking a minimum, and so does this definition. */
  function Distance(a: string, b: string): (d: nat)
    ensures d <= Max(|a|, |b|)
    ensures d >= |a| - |b| && d >= |b| - |a|
    decreases |a| + |b|
  {
    if |a| == 0 then |b|
    else if |b| == 0 then |a|
    else
      var a', b' := a[..|a| - 1], b[..|b| - 1];
      if a[|a| - 1] == b[|b| - 1] then Distance(a', b')
      else 1 + Min(Min(Distance(a', b), Distance(a, b')), Distance(a', b'))
  }

  lemma DistanceToEmpty(s: string)
    ensures Distance(s, "") == |s|
    ensures Distance("", s) == |s|
  {
  }

  lemma {:induction false} DistanceToSelf(s: string)
    ensures Distance(s, s) == 0
    decreases |s|
  {
    if |s| > 0 {
      DistanceToSelf(s[..|s| - 1]);
    }
  }

  lemma {:induction false} DistanceSymmetric(a: string, b: string)
    ensures Distance(a, b) == Distance(b, a)
    decreases |a| + |b|
  {
    if |a| > 0 && |b| > 0 {
      var a', b' := a[..|a| - 1], b[..|b| - 1];
      DistanceSymmetric(a', b');
      DistanceSymmetric(a', b);
      DistanceSymmetric(a, b');
    }
  }

  /** Distance zero means the strings are equal (the converse is DistanceToSelf). */
  lemma {:induction false} DistanceZeroIffEqual(a: string, b: string)
    ensures Distance(a, b) == 0 <==> a == b
    decreases |a| + |b|
  {
    if a == b {
      DistanceToSelf(a);
    } else if |a| > 0 && |b| > 0 && a[|a| - 1] == b[|b| - 1] {
      var a', b' := a[..|a| - 1], b[..|b| - 1];
      DistanceZeroIffEqual(a', b');
      assert a == a' + [a[|a| - 1]];
      assert b == b' + [b[|b| - 1]];
    }
  }

  /** One cell of the matrix: the recurrence read on the prefixes a[..i], b[..j]. */
  lemma DistanceOfPrefixes(a: string, b: string, i: nat, j: nat)
    requires 1 <= i <= |a| && 1 <= j <= |b|
    ensures Distance(a[..i], b[..j]) ==
      if a[i - 1] == b[j - 1] then Distance(a[..i - 1], b[..j - 1])
      else 1 + Min(Min(Distance(a[..i - 1], b[..j]), Distance(a[..i], b[..j - 1])), Distance(a[..i - 1], b[..j - 1]))
  {
    assert a[..i][..i - 1] == a[..i - 1] && a[..i][i - 1] == a[i - 1];
    assert b[..j][..j - 1] == b[..j - 1] && b[..j][j - 1] == b[j - 1];
  }

  /** Row `i` of the matrix holds the distances from a[..i] to every prefix of b. */
  ghost predicate RowFilled(dp: array2<nat>, a: string, b: string, i: nat)
    reads dp
    requires dp.Length0 == |a| + 1 && dp.Length1 == |b| + 1 && i <= |a|
  {
    forall j' :: 0 <= j' <= |b| ==> dp[i, j'] == Distance(a[..i], b[..j'])
  }

  /** The inner loop of the source: fills row `i` from row `i - 1`. */
  method FillRow(dp: array2<nat>, a: string, b: string, i: nat)
    requires dp.Length0 == |a| + 1 && dp.Length1 == |b| + 1 && 1 <= i <= |a|
    requires RowFilled(dp, a, b, i - 1)
    requires dp[i, 0] == i
    modifies dp
    ensures RowFilled(dp, a, b, i)
    ensures forall i', j' :: 0 <= i' <= |a| && 0 <= j' <= |b| && i' != i ==> dp[i', j'] == old(dp[i', j'])
  {
    assert dp[i, 0] == Distance(a[..i], b[..0]);
    var j := 1;
    while j <= |b|
      invariant 1 <= j <= |b| + 1
      invariant forall j' :: 0 <= j' < j ==> dp[i, j'] == Distance(a[..i], b[..j'])
      invariant forall i', j' :: 0 <= i' <= |a| && 0 <= j' <= |b| && i' != i ==> dp[i', j'] == old(dp[i', j'])
    {
      DistanceOfPrefixes(a, b, i, j);
      if a[i - 1] == b[j - 1] {
        dp[i, j] := dp[i - 1, j - 1];
      } else {
        dp[i, j] := 1 + Min(Min(dp[i - 1, j], dp[i, j - 1]), dp[i - 1, j - 1]);
      }
      j := j + 1;
    }
  }

  /** The dynamic program of the source: a full (|a|+1) x (|b|+1) matrix,
      first column and first row initialised, then filled row by row. */
  method LevenshteinDistance(a: string, b: string) returns (d: nat)
    ensures d == Distance(a, b)
  {
    var len1, len2 := |a|, |b|;
    var dp := new nat[len1 + 1, len2 + 1];
    var i := 0;
    while i <= len1
      invariant 0 <= i <= len1 + 1
      invariant forall i' :: 0 <= i' < i ==> dp[i', 0] == i'
    {
      dp[i, 0] := i;
      i := i + 1;
    }
    var j := 0;
    while j <= len2
      invariant 0 <= j <= len2 + 1
      invariant forall j' :: 0 <= j' < j ==> dp[0, j'] == j'
      invariant forall i' :: 0 <= i' <= len1 ==> dp[i', 0] == i'
    {
      dp[0, j] := j;
      j := j + 1;
    }
    assert RowFilled(dp, a, b, 0);
    i := 1;
    while i <= len1
      invariant 1 <= i <= len1 + 1
      invariant RowFilled(dp, a, b, i - 1)
      invariant forall i' :: i <= i' <= len1 ==> dp[i', 0] == i'
    {
      FillRow(dp, a, b, i);
      i := i + 1;
    }
    d := dp[len1, len2];
    assert a[..len1] == a && b[..len2] == b;
  }
}
