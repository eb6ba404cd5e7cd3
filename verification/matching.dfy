/** ComparisonService.matchElementsOfType: the two-phase greedy matcher run
    on the student and reference elements of one type.

    Elements live in two sequences, `S` (student) and `R` (reference); the
    matcher works on pools of positions into them. Phase 1 walks the student
    pool in order and pairs each element with the first reference element
    still in the pool whose signature and name are both equal. Phase 2 walks
    the student elements phase 1 left over and pairs each with the reference
    element of strictly highest score, provided that score reaches the
    threshold; ties go to the earliest candidate. A paired reference element
    leaves the pool at once. */
module Matching {
  import opened Wrappers
  import opened Similarity
  import opened Differences
  import opened Elements

  /** The default of `diffgrader.analysis.similarity-threshold`. */
  const DefaultThreshold: real := 0.7

  /** A pairing of the student element S[student] with the reference element
      R[reference] (ComparisonMatch). */
  datatype Match = Match(student: nat, reference: nat, similarity: real, differences: seq<string>)

  /** What one pass returns: its matches and the positions it left unmatched. */
  datatype PassResult = PassResult(matches: seq<Match>, student: seq<nat>, reference: seq<nat>)

  predicate InRange(pool: seq<nat>, n: nat) {
    forall j :: 0 <= j < |pool| ==> pool[j] < n
  }

  /** Every match points into `S` and `R`. */
  predicate ValidMatches(ms: seq<Match>, S: seq<CodeElement>, R: seq<CodeElement>) {
    forall i :: 0 <= i < |ms| ==> ms[i].student < |S| && ms[i].reference < |R|
  }

  function StudentsOf(ms: seq<Match>): (r: seq<nat>)
    ensures |r| == |ms| && forall i :: 0 <= i < |ms| ==> r[i] == ms[i].student
  {
    seq(|ms|, i requires 0 <= i < |ms| => ms[i].student)
  }

  function ReferencesOf(ms: seq<Match>): (r: seq<nat>)
    ensures |r| == |ms| && forall i :: 0 <= i < |ms| ==> r[i] == ms[i].reference
  {
    seq(|ms|, i requires 0 <= i < |ms| => ms[i].reference)
  }

  lemma SidesOfCons(m: Match, ms: seq<Match>)
    ensures StudentsOf([m] + ms) == [m.student] + StudentsOf(ms)
    ensures ReferencesOf([m] + ms) == [m.reference] + ReferencesOf(ms)
  {
  }

  lemma SidesOfAppend(ms1: seq<Match>, ms2: seq<Match>)
    ensures StudentsOf(ms1 + ms2) == StudentsOf(ms1) + StudentsOf(ms2)
    ensures ReferencesOf(ms1 + ms2) == ReferencesOf(ms1) + ReferencesOf(ms2)
  {
  }

  /** isExactMatch: equal signatures and equal names. */
  predicate IsExactMatch(s: CodeElement, r: CodeElement) {
    s.signature == r.signature && s.name == r.name
  }

  /** An exact pair would also score at least 0.7 under the weighted element
      score, so phase 2 would take it at any threshold up to 0.7. */
  lemma ExactMatchScoresHigh(s: CodeElement, r: CodeElement)
    requires IsExactMatch(s, r)
    ensures CalculateSimilarity(Some(s.signature), Some(r.signature), Some(s.name), Some(r.name),
                                Some(s.sourceCode), Some(r.sourceCode)) >= 0.7
  {
  }

  /** calculateElementSimilarity: the weighted score of signature, name and
      source text. */
  function ElementSimilarity(s: CodeElement, r: CodeElement): (x: real)
    ensures 0.0 <= x <= 1.0
    ensures IsExactMatch(s, r) && s.sourceCode == r.sourceCode ==> x == 1.0
  {
    CalculateSimilarity(Some(s.signature), Some(r.signature), Some(s.name), Some(r.name),
                        Some(s.sourceCode), Some(r.sourceCode))
  }

  /** The score phase 2 ranks candidates by; the comparison uses
      ElementSimilarity. */
  type Scorer = (CodeElement, CodeElement) -> real

  /** createMatch: records the pair, its score and the explained differences
      of the two signatures under the student element's type name. */
  function CreateMatch(S: seq<CodeElement>, R: seq<CodeElement>, s: nat, r: nat, similarity: real): (m: Match)
    requires s < |S| && r < |R|
    ensures m.student == s && m.reference == r && m.similarity == similarity
    ensures S[s].signature == R[r].signature ==> m.differences == []
    ensures |m.differences| <= 4
  {
    Match(s, r, similarity, FindDifferences(Some(S[s].signature), Some(R[r].signature), TypeName(S[s].kind)))
  }

  /** The pool without its element at position `k` (`List.remove`). */
  function RemoveAt(pool: seq<nat>, k: nat): (r: seq<nat>)
    requires k < |pool|
    ensures |r| == |pool| - 1
    ensures multiset(r) + multiset{pool[k]} == multiset(pool)
  {
    assert pool == pool[..k] + [pool[k]] + pool[k + 1..];
    pool[..k] + pool[k + 1..]
  }

  lemma InRangeOfSubMultiset(small: seq<nat>, big: seq<nat>, n: nat)
    requires multiset(small) <= multiset(big) && InRange(big, n)
    ensures InRange(small, n)
  {
    forall j | 0 <= j < |small|
      ensures small[j] < n
    {
      assert small[j] in multiset(small);
    }
  }

  /** What is left of a pool was in the pool. */
  lemma LeftoverInPool(left: seq<nat>, taken: seq<nat>, pool: seq<nat>)
    requires multiset(taken) + multiset(left) == multiset(pool)
    ensures forall x :: x in left ==> x in pool
  {
    forall x | x in left
      ensures x in pool
    {
      assert x in multiset(left);
      assert x in multiset(pool);
    }
  }

  /** Bookkeeping for one step of a pass: the head of the walked pool goes
      either to the matched side or to the leftovers. */
  lemma HeadStep(taken: seq<nat>, left: seq<nat>, pool: seq<nat>)
    requires |pool| > 0 && multiset(taken) + multiset(left) == multiset(pool[1..])
    ensures multiset(taken) + multiset([pool[0]] + left) == multiset(pool)
    ensures multiset([pool[0]] + taken) + multiset(left) == multiset(pool)
  {
    assert pool == [pool[0]] + pool[1..];
  }

  /** Bookkeeping for the searched pool: the removed element joins the matched side. */
  lemma RemoveStep(taken: seq<nat>, left: seq<nat>, pool: seq<nat>, k: nat)
    requires k < |pool| && multiset(taken) + multiset(left) == multiset(RemoveAt(pool, k))
    ensures multiset([pool[k]] + taken) + multiset(left) == multiset(pool)
  {
  }

  /** The bookkeeping of a pass: what it matched and what it left over make
      up the two pools it was given. */
  predicate Accounts(res: PassResult, students: seq<nat>, refs: seq<nat>) {
    && multiset(StudentsOf(res.matches)) + multiset(res.student) == multiset(students)
    && multiset(ReferencesOf(res.matches)) + multiset(res.reference) == multiset(refs)
  }

  /** A pass that accounts for its pools stays within them. */
  lemma AccountsInRange(S: seq<CodeElement>, R: seq<CodeElement>, res: PassResult, students: seq<nat>, refs: seq<nat>)
    requires InRange(students, |S|) && InRange(refs, |R|) && Accounts(res, students, refs)
    ensures ValidMatches(res.matches, S, R) && InRange(res.student, |S|) && InRange(res.reference, |R|)
  {
    InRangeOfSubMultiset(StudentsOf(res.matches), students, |S|);
    InRangeOfSubMultiset(ReferencesOf(res.matches), refs, |R|);
    InRangeOfSubMultiset(res.student, students, |S|);
    InRangeOfSubMultiset(res.reference, refs, |R|);
  }

  // ---------------------------------------------------------------------------
  // Phase 1: exact matches

  /** The first position at or after `from` in `pool` whose reference element
      is an exact match for S[s], or -1. */
  function FirstExact(S: seq<CodeElement>, R: seq<CodeElement>, s: nat, pool: seq<nat>, from: nat): (k: int)
    requires s < |S| && InRange(pool, |R|) && from <= |pool|
    ensures k == -1 || (from <= k < |pool| && IsExactMatch(S[s], R[pool[k]]))
    ensures forall j :: from <= j < |pool| && (k == -1 || j < k) ==> !IsExactMatch(S[s], R[pool[j]])
    decreases |pool| - from
  {
    if from == |pool| then -1
    else if IsExactMatch(S[s], R[pool[from]]) then from
    else FirstExact(S, R, s, pool, from + 1)
  }

  /** Every match of the list is an exact pair with score 1.0 and no differences. */
  predicate AllExact(ms: seq<Match>, S: seq<CodeElement>, R: seq<CodeElement>)
    requires ValidMatches(ms, S, R)
  {
    forall i :: 0 <= i < |ms| ==>
      IsExactMatch(S[ms[i].student], R[ms[i].reference]) && ms[i].similarity == 1.0 && ms[i].differences == []
  }

  /** The first pass of matchElementsOfType. Every student and every
      reference position of the pools ends up either in exactly one match or
      among the leftovers. */
  function ExactPass(S: seq<CodeElement>, R: seq<CodeElement>, students: seq<nat>, refs: seq<nat>): (res: PassResult)
    requires InRange(students, |S|) && InRange(refs, |R|)
    ensures Accounts(res, students, refs)
    decreases |students|
  {
    if students == [] then PassResult([], [], refs)
    else
      var s := students[0];
      var k := FirstExact(S, R, s, refs, 0);
      if k < 0 then
        var rest := ExactPass(S, R, students[1..], refs);
        HeadStep(StudentsOf(rest.matches), rest.student, students);
        PassResult(rest.matches, [s] + rest.student, rest.reference)
      else
        var m := CreateMatch(S, R, s, refs[k], 1.0);
        var pool := RemoveAt(refs, k);
        InRangeOfSubMultiset(pool, refs, |R|);
        var rest := ExactPass(S, R, students[1..], pool);
        SidesOfCons(m, rest.matches);
        HeadStep(StudentsOf(rest.matches), rest.student, students);
        RemoveStep(ReferencesOf(rest.matches), rest.reference, refs, k);
        PassResult([m] + rest.matches, rest.student, rest.reference)
  }

  /** An exact pair in front of exact matches keeps them all exact. */
  lemma AllExactCons(m: Match, ms: seq<Match>, S: seq<CodeElement>, R: seq<CodeElement>)
    requires m.student < |S| && m.reference < |R|
    requires IsExactMatch(S[m.student], R[m.reference]) && m.similarity == 1.0 && m.differences == []
    requires ValidMatches(ms, S, R) && AllExact(ms, S, R)
    ensures ValidMatches([m] + ms, S, R) && AllExact([m] + ms, S, R)
  {
    var ms' := [m] + ms;
    forall i | 0 <= i < |ms'|
      ensures ms'[i].student < |S| && ms'[i].reference < |R|
      ensures IsExactMatch(S[ms'[i].student], R[ms'[i].reference]) && ms'[i].similarity == 1.0 && ms'[i].differences == []
    {
      if i > 0 {
        assert ms'[i] == ms[i - 1];
      }
    }
  }

  /** Phase-1 matches pair equal signatures and names, score 1.0 and explain
      no differences. */
  lemma {:induction false} ExactPassMatchesAreExact(S: seq<CodeElement>, R: seq<CodeElement>, students: seq<nat>, refs: seq<nat>)
    requires InRange(students, |S|) && InRange(refs, |R|)
    ensures ValidMatches(ExactPass(S, R, students, refs).matches, S, R)
    ensures AllExact(ExactPass(S, R, students, refs).matches, S, R)
    decreases |students|
  {
    if students != [] {
      var s := students[0];
      var k := FirstExact(S, R, s, refs, 0);
      if k < 0 {
        ExactPassMatchesAreExact(S, R, students[1..], refs);
      } else {
        var pool := RemoveAt(refs, k);
        InRangeOfSubMultiset(pool, refs, |R|);
        var rest := ExactPass(S, R, students[1..], pool);
        ExactPassMatchesAreExact(S, R, students[1..], pool);
        var m := CreateMatch(S, R, s, refs[k], 1.0);
        AllExactCons(m, rest.matches, S, R);
      }
    }
  }

  /** No student element phase 1 leaves over has an exact partner among the
      reference elements it leaves over. */
  lemma {:induction false} ExactPassLeftoversDiffer(S: seq<CodeElement>, R: seq<CodeElement>, students: seq<nat>, refs: seq<nat>)
    requires InRange(students, |S|) && InRange(refs, |R|)
    ensures var res := ExactPass(S, R, students, refs);
      InRange(res.student, |S|) && InRange(res.reference, |R|)
    ensures var res := ExactPass(S, R, students, refs);
      forall s, r :: s in res.student && r in res.reference ==> !IsExactMatch(S[s], R[r])
    decreases |students|
  {
    AccountsInRange(S, R, ExactPass(S, R, students, refs), students, refs);
    if students != [] {
      var s := students[0];
      var k := FirstExact(S, R, s, refs, 0);
      if k < 0 {
        var rest := ExactPass(S, R, students[1..], refs);
        ExactPassLeftoversDiffer(S, R, students[1..], refs);
        LeftoverInPool(rest.reference, ReferencesOf(rest.matches), refs);
      } else {
        var pool := RemoveAt(refs, k);
        InRangeOfSubMultiset(pool, refs, |R|);
        ExactPassLeftoversDiffer(S, R, students[1..], pool);
      }
    }
  }

  // ---------------------------------------------------------------------------
  // Phase 2: best match above the threshold

  /** A score phase 2 may accept: at least the threshold and above the
      initial best score 0.0. */
  predicate Qualifies(x: real, threshold: real) {
    x >= threshold && x > 0.0
  }

  /** The inner loop of phase 2 from position `j` on, with the best position
      and score found so far; a later candidate replaces the best only with
      a strictly higher qualifying score. */
  function BestFrom(scores: seq<real>, threshold: real, j: nat, best: int, bestScore: real): (k: int)
    requires j <= |scores| && -1 <= best < j
    requires best == -1 ==> bestScore == 0.0 && forall i :: 0 <= i < j ==> !Qualifies(scores[i], threshold)
    requires best >= 0 ==>
      && bestScore == scores[best] && Qualifies(bestScore, threshold)
      && (forall i :: 0 <= i < j ==> scores[i] <= bestScore)
      && (forall i :: 0 <= i < best ==> scores[i] < bestScore)
    ensures k == -1 ==> forall i :: 0 <= i < |scores| ==> !Qualifies(scores[i], threshold)
    ensures k != -1 ==>
      && 0 <= k < |scores| && Qualifies(scores[k], threshold)
      && (forall i :: 0 <= i < |scores| ==> scores[i] <= scores[k])
      && (forall i :: 0 <= i < k ==> scores[i] < scores[k])
    decreases |scores| - j
  {
    if j == |scores| then best
    else if scores[j] >= threshold && scores[j] > bestScore then
      TakeCandidate(scores, threshold, j, best, bestScore);
      BestFrom(scores, threshold, j + 1, j, scores[j])
    else BestFrom(scores, threshold, j + 1, best, bestScore)
  }

  /** Taking candidate `j` keeps the loop's invariant. */
  lemma TakeCandidate(scores: seq<real>, threshold: real, j: nat, best: int, bestScore: real)
    requires j < |scores| && -1 <= best < j
    requires best == -1 ==> bestScore == 0.0 && forall i :: 0 <= i < j ==> !Qualifies(scores[i], threshold)
    requires best >= 0 ==>
      && bestScore == scores[best] && Qualifies(bestScore, threshold)
      && (forall i :: 0 <= i < j ==> scores[i] <= bestScore)
    requires scores[j] >= threshold && scores[j] > bestScore
    ensures Qualifies(scores[j], threshold)
    ensures forall i :: 0 <= i < j + 1 ==> scores[i] <= scores[j]
    ensures forall i :: 0 <= i < j ==> scores[i] < scores[j]
  {
    if best >= 0 {
      assert bestScore > 0.0;
    }
    forall i | 0 <= i < j
      ensures scores[i] < scores[j]
    {
      if best == -1 {
        assert !Qualifies(scores[i], threshold);
      }
    }
  }

  /** The position phase 2 picks: the earliest of the highest scores, provided
      it qualifies; -1 when no score qualifies. */
  function BestIndex(scores: seq<real>, threshold: real): (k: int)
    ensures k == -1 <==> forall i :: 0 <= i < |scores| ==> !Qualifies(scores[i], threshold)
    ensures k != -1 ==>
      && 0 <= k < |scores| && Qualifies(scores[k], threshold)
      && (forall i :: 0 <= i < |scores| ==> scores[i] <= scores[k])
      && (forall i :: 0 <= i < k ==> scores[i] < scores[k])
  {
    BestFrom(scores, threshold, 0, -1, 0.0)
  }

  /** The scores of S[s] against the reference elements of a pool. */
  function Scores(S: seq<CodeElement>, R: seq<CodeElement>, score: Scorer, s: nat, pool: seq<nat>): (r: seq<real>)
    requires s < |S| && InRange(pool, |R|)
    ensures |r| == |pool| && forall i :: 0 <= i < |pool| ==> r[i] == score(S[s], R[pool[i]])
  {
    seq(|pool|, i requires 0 <= i < |pool| => score(S[s], R[pool[i]]))
  }

  /** The second pass of matchElementsOfType. */
  function ApproxPass(S: seq<CodeElement>, R: seq<CodeElement>, score: Scorer, threshold: real, students: seq<nat>, refs: seq<nat>): (res: PassResult)
    requires InRange(students, |S|) && InRange(refs, |R|)
    ensures Accounts(res, students, refs)
    decreases |students|
  {
    if students == [] then PassResult([], [], refs)
    else
      var s := students[0];
      var scores := Scores(S, R, score, s, refs);
      var k := BestIndex(scores, threshold);
      if k < 0 then
        var rest := ApproxPass(S, R, score, threshold, students[1..], refs);
        HeadStep(StudentsOf(rest.matches), rest.student, students);
        PassResult(rest.matches, [s] + rest.student, rest.reference)
      else
        var m := CreateMatch(S, R, s, refs[k], scores[k]);
        var pool := RemoveAt(refs, k);
        InRangeOfSubMultiset(pool, refs, |R|);
        var rest := ApproxPass(S, R, score, threshold, students[1..], pool);
        SidesOfCons(m, rest.matches);
        HeadStep(StudentsOf(rest.matches), rest.student, students);
        RemoveStep(ReferencesOf(rest.matches), rest.reference, refs, k);
        PassResult([m] + rest.matches, rest.student, rest.reference)
  }

  /** Every match of the list carries its pair's score, which qualifies. */
  predicate AllScored(ms: seq<Match>, S: seq<CodeElement>, R: seq<CodeElement>, score: Scorer, threshold: real)
    requires ValidMatches(ms, S, R)
  {
    forall i :: 0 <= i < |ms| ==>
      ms[i].similarity == score(S[ms[i].student], R[ms[i].reference])
      && Qualifies(ms[i].similarity, threshold)
  }

  /** A qualifying scored pair in front of scored matches keeps them all
      scored. */
  lemma AllScoredCons(m: Match, ms: seq<Match>, S: seq<CodeElement>, R: seq<CodeElement>, score: Scorer, threshold: real)
    requires m.student < |S| && m.reference < |R|
    requires m.similarity == score(S[m.student], R[m.reference]) && Qualifies(m.similarity, threshold)
    requires ValidMatches(ms, S, R) && AllScored(ms, S, R, score, threshold)
    ensures ValidMatches([m] + ms, S, R) && AllScored([m] + ms, S, R, score, threshold)
  {
    assert forall i :: 0 < i < |[m] + ms| ==> ([m] + ms)[i] == ms[i - 1];
  }

  /** One step of the second pass when the head student has no qualifying
      partner: the rest of the pass decides. */
  lemma ApproxPassSkip(S: seq<CodeElement>, R: seq<CodeElement>, score: Scorer, threshold: real, students: seq<nat>, refs: seq<nat>)
    requires InRange(students, |S|) && InRange(refs, |R|) && students != []
    requires BestIndex(Scores(S, R, score, students[0], refs), threshold) < 0
    ensures var res := ApproxPass(S, R, score, threshold, students, refs);
      var rest := ApproxPass(S, R, score, threshold, students[1..], refs);
      res.matches == rest.matches && res.reference == rest.reference
  {
  }

  /** One step of the second pass when the head student has a partner: its
      pair goes in front of the matches of the rest, run on the pool without
      the partner. */
  lemma ApproxPassTake(S: seq<CodeElement>, R: seq<CodeElement>, score: Scorer, threshold: real, students: seq<nat>, refs: seq<nat>, k: nat)
    requires InRange(students, |S|) && InRange(refs, |R|) && students != []
    requires BestIndex(Scores(S, R, score, students[0], refs), threshold) == k
    ensures k < |refs| && InRange(RemoveAt(refs, k), |R|)
    ensures var res := ApproxPass(S, R, score, threshold, students, refs);
      var rest := ApproxPass(S, R, score, threshold, students[1..], RemoveAt(refs, k));
      && res.matches == [CreateMatch(S, R, students[0], refs[k], Scores(S, R, score, students[0], refs)[k])] + rest.matches
      && res.reference == rest.reference
  {
    InRangeOfSubMultiset(RemoveAt(refs, k), refs, |R|);
  }

  /** Phase-2 matches carry their pair's score, which reaches the threshold
      and is positive. */
  lemma {:induction false} ApproxPassMatchesQualify(S: seq<CodeElement>, R: seq<CodeElement>, score: Scorer, threshold: real, students: seq<nat>, refs: seq<nat>)
    requires InRange(students, |S|) && InRange(refs, |R|)
    ensures ValidMatches(ApproxPass(S, R, score, threshold, students, refs).matches, S, R)
    ensures AllScored(ApproxPass(S, R, score, threshold, students, refs).matches, S, R, score, threshold)
    decreases |students|
  {
    if students != [] {
      var s := students[0];
      var scores := Scores(S, R, score, s, refs);
      var k := BestIndex(scores, threshold);
      if k < 0 {
        ApproxPassSkip(S, R, score, threshold, students, refs);
        ApproxPassMatchesQualify(S, R, score, threshold, students[1..], refs);
      } else {
        ApproxPassTake(S, R, score, threshold, students, refs, k);
        var pool := RemoveAt(refs, k);
        ApproxPassMatchesQualify(S, R, score, threshold, students[1..], pool);
        var m := CreateMatch(S, R, s, refs[k], scores[k]);
        AllScoredCons(m, ApproxPass(S, R, score, threshold, students[1..], pool).matches, S, R, score, threshold);
      }
    }
  }

  /** No student element phase 2 leaves over has a qualifying score against
      any reference element it leaves over. */
  lemma {:induction false} ApproxPassLeftovers(S: seq<CodeElement>, R: seq<CodeElement>, score: Scorer, threshold: real, students: seq<nat>, refs: seq<nat>)
    requires InRange(students, |S|) && InRange(refs, |R|)
    ensures var res := ApproxPass(S, R, score, threshold, students, refs);
      InRange(res.student, |S|) && InRange(res.reference, |R|)
    ensures var res := ApproxPass(S, R, score, threshold, students, refs);
      forall s, r :: s in res.student && r in res.reference ==> !Qualifies(score(S[s], R[r]), threshold)
    decreases |students|
  {
    var res := ApproxPass(S, R, score, threshold, students, refs);
    AccountsInRange(S, R, res, students, refs);
    if students != [] {
      var s := students[0];
      var scores := Scores(S, R, score, s, refs);
      var k := BestIndex(scores, threshold);
      if k < 0 {
        var rest := ApproxPass(S, R, score, threshold, students[1..], refs);
        ApproxPassLeftovers(S, R, score, threshold, students[1..], refs);
        LeftoverInPool(rest.reference, ReferencesOf(rest.matches), refs);
        assert res.student == [s] + rest.student && res.reference == rest.reference;
        forall r | r in rest.reference
          ensures !Qualifies(score(S[s], R[r]), threshold)
        {
          var j :| 0 <= j < |refs| && refs[j] == r;
          assert scores[j] == score(S[s], R[r]);
        }
      } else {
        var pool := RemoveAt(refs, k);
        InRangeOfSubMultiset(pool, refs, |R|);
        ApproxPassLeftovers(S, R, score, threshold, students[1..], pool);
      }
    }
  }

  /** No reference element phase 2 leaves over scores higher against a
      matched student element than the partner that element was given. */
  lemma {:induction false} ApproxPassPartnersBest(S: seq<CodeElement>, R: seq<CodeElement>, score: Scorer, threshold: real, students: seq<nat>, refs: seq<nat>)
    requires InRange(students, |S|) && InRange(refs, |R|)
    ensures var res := ApproxPass(S, R, score, threshold, students, refs);
      InRange(res.reference, |R|) && ValidMatches(res.matches, S, R)
    ensures var res := ApproxPass(S, R, score, threshold, students, refs);
      NoBetterLeft(res.matches, res.reference, S, R, score)
    decreases |students|
  {
    var res := ApproxPass(S, R, score, threshold, students, refs);
    AccountsInRange(S, R, res, students, refs);
    if students != [] {
      var s := students[0];
      var scores := Scores(S, R, score, s, refs);
      var k := BestIndex(scores, threshold);
      if k < 0 {
        ApproxPassSkip(S, R, score, threshold, students, refs);
        ApproxPassPartnersBest(S, R, score, threshold, students[1..], refs);
      } else {
        ApproxPassTake(S, R, score, threshold, students, refs, k);
        var pool := RemoveAt(refs, k);
        var rest := ApproxPass(S, R, score, threshold, students[1..], pool);
        ApproxPassPartnersBest(S, R, score, threshold, students[1..], pool);
        AccountsInRange(S, R, rest, students[1..], pool);
        LeftoverInPool(rest.reference, ReferencesOf(rest.matches), pool);
        LeftoverInPool(pool, [refs[k]], refs);
        var m := CreateMatch(S, R, s, refs[k], scores[k]);
        forall r | r in rest.reference
          ensures score(S[s], R[r]) <= m.similarity
        {
          var j :| 0 <= j < |refs| && refs[j] == r;
          assert scores[j] == score(S[s], R[r]);
        }
        NoBetterLeftCons(m, rest.matches, rest.reference, S, R, score);
      }
    }
  }

  /** No leftover reference element scores higher against a matched student
      element than its partner did. */
  predicate NoBetterLeft(ms: seq<Match>, left: seq<nat>, S: seq<CodeElement>, R: seq<CodeElement>, score: Scorer)
    requires ValidMatches(ms, S, R) && InRange(left, |R|)
  {
    forall i, r :: 0 <= i < |ms| && r in left ==>
      score(S[ms[i].student], R[r]) <= ms[i].similarity
  }

  lemma NoBetterLeftCons(m: Match, ms: seq<Match>, left: seq<nat>, S: seq<CodeElement>, R: seq<CodeElement>, score: Scorer)
    requires m.student < |S| && m.reference < |R| && ValidMatches(ms, S, R) && InRange(left, |R|)
    requires NoBetterLeft(ms, left, S, R, score)
    requires forall r :: r in left ==> score(S[m.student], R[r]) <= m.similarity
    ensures ValidMatches([m] + ms, S, R) && NoBetterLeft([m] + ms, left, S, R, score)
  {
    assert forall i :: 0 < i < |[m] + ms| ==> ([m] + ms)[i] == ms[i - 1];
  }

  // ---------------------------------------------------------------------------
  // Both phases

  /** matchElementsOfType: phase 1 on the two pools, then phase 2 on what
      phase 1 left over. */
  function MatchElementsOfType(S: seq<CodeElement>, R: seq<CodeElement>, score: Scorer, threshold: real, students: seq<nat>, refs: seq<nat>): (res: PassResult)
    requires InRange(students, |S|) && InRange(refs, |R|)
    ensures Accounts(res, students, refs)
  {
    var p1 := ExactPass(S, R, students, refs);
    AccountsInRange(S, R, p1, students, refs);
    var p2 := ApproxPass(S, R, score, threshold, p1.student, p1.reference);
    SidesOfAppend(p1.matches, p2.matches);
    PassResult(p1.matches + p2.matches, p2.student, p2.reference)
  }

  /** Matched and unmatched positions add up to each pool's size. */
  lemma AccountsSizes(res: PassResult, students: seq<nat>, refs: seq<nat>)
    requires Accounts(res, students, refs)
    ensures |res.matches| + |res.student| == |students|
    ensures |res.matches| + |res.reference| == |refs|
  {
    assert |multiset(StudentsOf(res.matches))| + |multiset(res.student)| == |multiset(students)|;
    assert |multiset(ReferencesOf(res.matches))| + |multiset(res.reference)| == |multiset(refs)|;
  }

  /** What one run of matchElementsOfType guarantees: every match is either an
      exact pair with score 1.0 and no differences, or a pair whose score
      qualifies; no leftover student element has an exact or qualifying
      partner among the leftover reference elements; and on each side the
      matched and the leftover positions add up to the pool. */
  lemma MatchElementsOfTypeOutcome(S: seq<CodeElement>, R: seq<CodeElement>, score: Scorer, threshold: real, students: seq<nat>, refs: seq<nat>)
    requires InRange(students, |S|) && InRange(refs, |R|)
    ensures var res := MatchElementsOfType(S, R, score, threshold, students, refs);
      && ValidMatches(res.matches, S, R) && InRange(res.student, |S|) && InRange(res.reference, |R|)
      && |res.matches| + |res.student| == |students|
      && |res.matches| + |res.reference| == |refs|
    ensures var res := MatchElementsOfType(S, R, score, threshold, students, refs);
      forall i :: 0 <= i < |res.matches| ==>
        var m := res.matches[i];
        m.student < |S| && m.reference < |R| &&
        ((IsExactMatch(S[m.student], R[m.reference]) && m.similarity == 1.0 && m.differences == [])
         || (m.similarity == score(S[m.student], R[m.reference]) && Qualifies(m.similarity, threshold)))
    ensures var res := MatchElementsOfType(S, R, score, threshold, students, refs);
      forall s, r :: s in res.student && r in res.reference ==>
        s < |S| && r < |R| && !IsExactMatch(S[s], R[r]) && !Qualifies(score(S[s], R[r]), threshold)
  {
    var res := MatchElementsOfType(S, R, score, threshold, students, refs);
    AccountsInRange(S, R, res, students, refs);
    AccountsSizes(res, students, refs);
    var p1 := ExactPass(S, R, students, refs);
    AccountsInRange(S, R, p1, students, refs);
    ExactPassMatchesAreExact(S, R, students, refs);
    ExactPassLeftoversDiffer(S, R, students, refs);
    var p2 := ApproxPass(S, R, score, threshold, p1.student, p1.reference);
    ApproxPassMatchesQualify(S, R, score, threshold, p1.student, p1.reference);
    ApproxPassLeftovers(S, R, score, threshold, p1.student, p1.reference);
    assert res.matches == p1.matches + p2.matches;
    assert res.student == p2.student && res.reference == p2.reference;
    LeftoverInPool(p2.student, StudentsOf(p2.matches), p1.student);
    LeftoverInPool(p2.reference, ReferencesOf(p2.matches), p1.reference);
    forall i | 0 <= i < |res.matches|
      ensures var m := res.matches[i];
        m.student < |S| && m.reference < |R| &&
        ((IsExactMatch(S[m.student], R[m.reference]) && m.similarity == 1.0 && m.differences == [])
         || (m.similarity == score(S[m.student], R[m.reference]) && Qualifies(m.similarity, threshold)))
    {
      if i >= |p1.matches| {
        assert res.matches[i] == p2.matches[i - |p1.matches|];
      }
    }
  }
}
