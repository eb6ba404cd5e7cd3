/** ComparisonService: the comparison of a student's code with a reference
    solution once both have been parsed into code structures.

    performIntelligentMatching flattens the structures, runs the two-phase
    matcher once per element type (CLASS, FIELD, METHOD, CONSTRUCTOR, in that
    order) on the positions of that type, and concatenates the matches.
    updateElementMatchStatus then writes the outcome back into the elements;
    calculateOverallSimilarity folds the match scores into one number
    weighted by coverage. */
module Comparison {
  import opened Wrappers
  import opened Levenshtein
  import opened Similarity
  import opened Elements
  import opened Matching

  /** A matched element with at least this score is EXACT, else SIMILAR. */
  const ExactCutoff: real := 0.95

  // ---------------------------------------------------------------------------
  // Counting helpers

  /** Each value occurs at most once. */
  ghost predicate Distinct(xs: seq<nat>) {
    forall x: nat :: multiset(xs)[x] <= 1
  }

  function Values(xs: seq<nat>): (r: set<nat>)
    ensures forall x :: x in r <==> x in xs
  {
    set x | x in xs
  }

  /** The positions below `n`. */
  function RangeSet(n: nat): (r: set<nat>)
    ensures forall i: nat :: i in r <==> i < n
  {
    if n == 0 then {} else RangeSet(n - 1) + {n - 1}
  }

  lemma {:induction false} RangeSetSize(n: nat)
    ensures |RangeSet(n)| == n
  {
    if n > 0 {
      RangeSetSize(n - 1);
      assert n - 1 !in RangeSet(n - 1);
    }
  }

  lemma {:induction false} DistinctSetSize(xs: seq<nat>)
    requires Distinct(xs)
    ensures |Values(xs)| == |xs|
  {
    if xs != [] {
      var rest: seq<nat> := xs[1..];
      assert xs == [xs[0]] + rest;
      assert Distinct(rest) by {
        forall x: nat
          ensures multiset(rest)[x] <= 1
        {
          assert multiset(xs)[x] == multiset([xs[0]])[x] + multiset(rest)[x];
        }
      }
      DistinctSetSize(rest);
      assert multiset(xs)[xs[0]] == 1 + multiset(rest)[xs[0]];
      assert xs[0] !in rest;
      assert Values(xs) == Values(rest) + {xs[0]};
    }
  }

  /** A sequence of distinct positions below `n` has at most `n` entries. */
  lemma DistinctBound(xs: seq<nat>, n: nat)
    requires Distinct(xs) && InRange(xs, n)
    ensures |xs| <= n
  {
    DistinctSetSize(xs);
    RangeSetSize(n);
    SubsetCardinality(Values(xs), RangeSet(n));
  }

  /** A strictly ascending sequence has distinct entries. */
  lemma {:induction false} AscendingDistinct(xs: seq<nat>)
    requires forall j, j' :: 0 <= j < j' < |xs| ==> xs[j] < xs[j']
    ensures Distinct(xs)
  {
    if xs != [] {
      var rest: seq<nat> := xs[1..];
      assert xs == [xs[0]] + rest;
      AscendingDistinct(rest);
      assert xs[0] !in rest;
      forall x: nat
        ensures multiset(xs)[x] <= 1
      {
        assert multiset(xs)[x] == multiset([xs[0]])[x] + multiset(rest)[x];
      }
    }
  }

  // ---------------------------------------------------------------------------
  // Matching all types

  /** The matches of the per-type runs for `kinds`, concatenated in order.
      Every one pairs two elements of the same type, one of `kinds`, and is
      exact or qualifying. */
  function MatchKinds(S: seq<CodeElement>, R: seq<CodeElement>, score: Scorer, threshold: real, kinds: seq<ElementType>): (ms: seq<Match>)
    ensures PairsOfKinds(ms, S, R, score, threshold, kinds)
  {
    if kinds == [] then []
    else
      var k := kinds[0];
      var mk := KindMatches(S, R, score, threshold, k);
      var mr := MatchKinds(S, R, score, threshold, kinds[1..]);
      KindRunPairs(S, R, score, threshold, k);
      PairsOfKindsAppend(mk, mr, S, R, score, threshold, kinds);
      mk + mr
  }

  /** Each match is valid, pairs two elements of the same type, one of
      `kinds`, and is exact or qualifying. */
  predicate PairsOfKinds(ms: seq<Match>, S: seq<CodeElement>, R: seq<CodeElement>, score: Scorer, threshold: real, kinds: seq<ElementType>) {
    && ValidMatches(ms, S, R)
    && forall i :: 0 <= i < |ms| ==>
         S[ms[i].student].kind == R[ms[i].reference].kind && S[ms[i].student].kind in kinds
         && ExactOrScored(ms[i], S, R, score, threshold)
  }

  /** The run for the first kind followed by the runs for the rest. */
  lemma PairsOfKindsAppend(mk: seq<Match>, mr: seq<Match>, S: seq<CodeElement>, R: seq<CodeElement>, score: Scorer, threshold: real,
                           kinds: seq<ElementType>)
    requires kinds != [] && ValidMatches(mk, S, R)
    requires forall i :: 0 <= i < |mk| ==>
      S[mk[i].student].kind == kinds[0] && R[mk[i].reference].kind == kinds[0] && ExactOrScored(mk[i], S, R, score, threshold)
    requires PairsOfKinds(mr, S, R, score, threshold, kinds[1..])
    ensures PairsOfKinds(mk + mr, S, R, score, threshold, kinds)
  {
    var ms := mk + mr;
    forall i | 0 <= i < |ms|
      ensures ms[i].student < |S| && ms[i].reference < |R|
      ensures S[ms[i].student].kind == R[ms[i].reference].kind && S[ms[i].student].kind in kinds
      ensures ExactOrScored(ms[i], S, R, score, threshold)
    {
      if i >= |mk| {
        assert ms[i] == mr[i - |mk|];
      }
    }
  }

  /** performIntelligentMatching without the write-back. Its matches pair
      elements of the same type, each exact with score 1.0 or scored by the
      element similarity at or above the threshold; no element takes part in
      two matches, so there are at most as many matches as elements on
      either side; and no unmatched student element is left with an exact or
      qualifying unmatched reference element of its own type. */
  function PerformMatching(S: seq<CodeElement>, R: seq<CodeElement>, threshold: real): (ms: seq<Match>)
    ensures ValidMatches(ms, S, R)
    ensures forall i :: 0 <= i < |ms| ==>
      S[ms[i].student].kind == R[ms[i].reference].kind
      && ExactOrScored(ms[i], S, R, ElementSimilarity, threshold)
    ensures Distinct(StudentsOf(ms)) && Distinct(ReferencesOf(ms))
    ensures |ms| <= |S| && |ms| <= |R|
    ensures NoPairLeft(ms, S, R, ElementSimilarity, threshold, AllTypes)
  {
    var ms := MatchKinds(S, R, ElementSimilarity, threshold, AllTypes);
    AllTypesDistinct();
    MatchKindsOnce(S, R, ElementSimilarity, threshold, AllTypes);
    UsedOnceDistinct(ms, S, R, AllTypes);
    DistinctBound(StudentsOf(ms), |S|);
    DistinctBound(ReferencesOf(ms), |R|);
    MatchKindsMaximal(S, R, ElementSimilarity, threshold, AllTypes);
    ms
  }

  /** A match is either exact (score 1.0, no differences) or scored and qualifying. */
  predicate ExactOrScored(m: Match, S: seq<CodeElement>, R: seq<CodeElement>, score: Scorer, threshold: real)
    requires m.student < |S| && m.reference < |R|
  {
    (IsExactMatch(S[m.student], R[m.reference]) && m.similarity == 1.0 && m.differences == [])
    || (m.similarity == score(S[m.student], R[m.reference]) && Qualifies(m.similarity, threshold))
  }

  function KindMatches(S: seq<CodeElement>, R: seq<CodeElement>, score: Scorer, threshold: real, k: ElementType): seq<Match> {
    MatchElementsOfType(S, R, score, threshold, IndicesOfKind(S, k), IndicesOfKind(R, k)).matches
  }

  /** The run for type `k` pairs elements of type `k` only, each exact or
      qualifying. */
  lemma KindRunPairs(S: seq<CodeElement>, R: seq<CodeElement>, score: Scorer, threshold: real, k: ElementType)
    ensures var ms := KindMatches(S, R, score, threshold, k);
      && ValidMatches(ms, S, R)
      && forall i :: 0 <= i < |ms| ==>
           S[ms[i].student].kind == k && R[ms[i].reference].kind == k && ExactOrScored(ms[i], S, R, score, threshold)
  {
    var poolS: seq<nat>, poolR: seq<nat> := IndicesOfKind(S, k), IndicesOfKind(R, k);
    var ms := KindMatches(S, R, score, threshold, k);
    MatchElementsOfTypeOutcome(S, R, score, threshold, poolS, poolR);
    forall i | 0 <= i < |ms|
      ensures S[ms[i].student].kind == k && R[ms[i].reference].kind == k
    {
      assert StudentsOf(ms)[i] in multiset(StudentsOf(ms));
      assert ms[i].student in multiset(poolS);
      assert ReferencesOf(ms)[i] in multiset(ReferencesOf(ms));
      assert ms[i].reference in multiset(poolR);
    }
  }

  /** In the run for type `k` each element of type `k` takes part in at most
      one match, and no other element takes part at all. */
  lemma KindRunOnce(S: seq<CodeElement>, R: seq<CodeElement>, score: Scorer, threshold: real, k: ElementType)
    ensures UsedAtMostOnce(KindMatches(S, R, score, threshold, k), S, R, [k])
  {
    var poolS: seq<nat>, poolR: seq<nat> := IndicesOfKind(S, k), IndicesOfKind(R, k);
    var ms := KindMatches(S, R, score, threshold, k);
    assert Accounts(MatchElementsOfType(S, R, score, threshold, poolS, poolR), poolS, poolR);
    AscendingDistinct(poolS);
    AscendingDistinct(poolR);
    forall x: nat
      ensures multiset(StudentsOf(ms))[x] <= if x < |S| && S[x].kind in [k] then 1 else 0
      ensures multiset(ReferencesOf(ms))[x] <= if x < |R| && R[x].kind in [k] then 1 else 0
    {
      assert multiset(StudentsOf(ms))[x] <= multiset(poolS)[x];
      assert multiset(ReferencesOf(ms))[x] <= multiset(poolR)[x];
      if multiset(poolS)[x] > 0 {
        assert x in poolS;
      }
      if multiset(poolR)[x] > 0 {
        assert x in poolR;
      }
    }
  }

  /** After the run for type `k` no unmatched student element of type `k`
      has an exact or qualifying unmatched partner of type `k`. */
  lemma KindRunMaximal(S: seq<CodeElement>, R: seq<CodeElement>, score: Scorer, threshold: real, k: ElementType)
    ensures NoPairLeft(KindMatches(S, R, score, threshold, k), S, R, score, threshold, [k])
  {
    var poolS: seq<nat>, poolR: seq<nat> := IndicesOfKind(S, k), IndicesOfKind(R, k);
    var res := MatchElementsOfType(S, R, score, threshold, poolS, poolR);
    var ms := res.matches;
    MatchElementsOfTypeOutcome(S, R, score, threshold, poolS, poolR);
    forall s, r | 0 <= s < |S| && 0 <= r < |R| && S[s].kind == R[r].kind && S[s].kind in [k]
        && s !in StudentsOf(ms) && r !in ReferencesOf(ms)
      ensures !IsExactMatch(S[s], R[r]) && !Qualifies(score(S[s], R[r]), threshold)
    {
      assert s in poolS && r in poolR;
      assert s in multiset(poolS) && r in multiset(poolR);
      assert s !in multiset(StudentsOf(ms)) && r !in multiset(ReferencesOf(ms));
      assert s in multiset(res.student) && r in multiset(res.reference);
    }
  }

  predicate DistinctKinds(kinds: seq<ElementType>) {
    forall i, j :: 0 <= i < j < |kinds| ==> kinds[i] != kinds[j]
  }

  lemma AllTypesDistinct()
    ensures DistinctKinds(AllTypes)
  {
  }

  /** Within `kinds`, each element takes part in at most one of `ms`, and no
      element of another type takes part at all. */
  ghost predicate UsedAtMostOnce(ms: seq<Match>, S: seq<CodeElement>, R: seq<CodeElement>, kinds: seq<ElementType>) {
    && (forall x: nat :: multiset(StudentsOf(ms))[x] <= if x < |S| && S[x].kind in kinds then 1 else 0)
    && (forall x: nat :: multiset(ReferencesOf(ms))[x] <= if x < |R| && R[x].kind in kinds then 1 else 0)
  }

  lemma CombineOnce(S: seq<CodeElement>, R: seq<CodeElement>, mk: seq<Match>, mr: seq<Match>, k: ElementType, rest: seq<ElementType>)
    requires k !in rest
    requires UsedAtMostOnce(mk, S, R, [k])
    requires UsedAtMostOnce(mr, S, R, rest)
    ensures UsedAtMostOnce(mk + mr, S, R, [k] + rest)
  {
    SidesOfAppend(mk, mr);
    forall x: nat
      ensures multiset(StudentsOf(mk + mr))[x] <= if x < |S| && S[x].kind in [k] + rest then 1 else 0
      ensures multiset(ReferencesOf(mk + mr))[x] <= if x < |R| && R[x].kind in [k] + rest then 1 else 0
    {
      assert multiset(StudentsOf(mk + mr))[x] == multiset(StudentsOf(mk))[x] + multiset(StudentsOf(mr))[x];
      assert multiset(ReferencesOf(mk + mr))[x] == multiset(ReferencesOf(mk))[x] + multiset(ReferencesOf(mr))[x];
    }
  }

  /** Across the per-type runs for distinct `kinds`, no element takes part in
      two matches. */
  lemma {:induction false} MatchKindsOnce(S: seq<CodeElement>, R: seq<CodeElement>, score: Scorer, threshold: real, kinds: seq<ElementType>)
    requires DistinctKinds(kinds)
    ensures UsedAtMostOnce(MatchKinds(S, R, score, threshold, kinds), S, R, kinds)
    decreases |kinds|
  {
    if kinds != [] {
      var k := kinds[0];
      var rest := kinds[1..];
      MatchKindsCons(S, R, score, threshold, kinds);
      DistinctKindsTail(kinds);
      KindRunOnce(S, R, score, threshold, k);
      MatchKindsOnce(S, R, score, threshold, rest);
      CombineOnce(S, R, KindMatches(S, R, score, threshold, k), MatchKinds(S, R, score, threshold, rest), k, rest);
    }
  }

  /** The runs for `kinds` are the run for its first type followed by the
      runs for the others. */
  lemma MatchKindsCons(S: seq<CodeElement>, R: seq<CodeElement>, score: Scorer, threshold: real, kinds: seq<ElementType>)
    requires kinds != []
    ensures MatchKinds(S, R, score, threshold, kinds)
         == KindMatches(S, R, score, threshold, kinds[0]) + MatchKinds(S, R, score, threshold, kinds[1..])
    ensures kinds == [kinds[0]] + kinds[1..]
  {
  }

  lemma DistinctKindsTail(kinds: seq<ElementType>)
    requires kinds != [] && DistinctKinds(kinds)
    ensures DistinctKinds(kinds[1..]) && kinds[0] !in kinds[1..]
  {
  }

  /** No unmatched student element of one of `kinds` has an exact or
      qualifying unmatched partner of its own type. */
  ghost predicate NoPairLeft(ms: seq<Match>, S: seq<CodeElement>, R: seq<CodeElement>, score: Scorer, threshold: real, kinds: seq<ElementType>) {
    forall s, r :: (0 <= s < |S| && 0 <= r < |R| && S[s].kind == R[r].kind && S[s].kind in kinds
      && s !in StudentsOf(ms) && r !in ReferencesOf(ms)) ==>
      !IsExactMatch(S[s], R[r]) && !Qualifies(score(S[s], R[r]), threshold)
  }

  lemma CombineMaximal(S: seq<CodeElement>, R: seq<CodeElement>, score: Scorer, threshold: real,
                       mk: seq<Match>, mr: seq<Match>, k: ElementType, rest: seq<ElementType>)
    requires NoPairLeft(mk, S, R, score, threshold, [k])
    requires NoPairLeft(mr, S, R, score, threshold, rest)
    ensures NoPairLeft(mk + mr, S, R, score, threshold, [k] + rest)
  {
    SidesOfAppend(mk, mr);
  }

  /** After the per-type runs for `kinds`, no unmatched student element has
      an exact or qualifying unmatched partner of its own type. */
  lemma {:induction false} MatchKindsMaximal(S: seq<CodeElement>, R: seq<CodeElement>, score: Scorer, threshold: real, kinds: seq<ElementType>)
    ensures NoPairLeft(MatchKinds(S, R, score, threshold, kinds), S, R, score, threshold, kinds)
    decreases |kinds|
  {
    if kinds != [] {
      var k := kinds[0];
      var rest := kinds[1..];
      MatchKindsCons(S, R, score, threshold, kinds);
      KindRunMaximal(S, R, score, threshold, k);
      MatchKindsMaximal(S, R, score, threshold, rest);
      CombineMaximal(S, R, score, threshold, KindMatches(S, R, score, threshold, k), MatchKinds(S, R, score, threshold, rest), k, rest);
    }
  }

  /** Matches whose positions are within range, and whose positions on each
      side are distinct, leave a sequence of distinct positions. */
  lemma UsedOnceDistinct(ms: seq<Match>, S: seq<CodeElement>, R: seq<CodeElement>, kinds: seq<ElementType>)
    requires UsedAtMostOnce(ms, S, R, kinds)
    ensures Distinct(StudentsOf(ms)) && Distinct(ReferencesOf(ms))
  {
    forall x: nat
      ensures multiset(StudentsOf(ms))[x] <= 1 && multiset(ReferencesOf(ms))[x] <= 1
    {
    }
  }

  lemma DistinctTail(xs: seq<nat>)
    requires Distinct(xs) && xs != []
    ensures Distinct(xs[1..]) && xs[0] !in xs[1..]
  {
    var rest: seq<nat> := xs[1..];
    assert xs == [xs[0]] + rest;
    forall x: nat
      ensures multiset(rest)[x] <= 1
    {
      assert multiset(xs)[x] == multiset([xs[0]])[x] + multiset(rest)[x];
    }
    assert multiset(xs)[xs[0]] == 1 + multiset(rest)[xs[0]];
  }

  // ---------------------------------------------------------------------------
  // Writing the outcome back (updateElementMatchStatus)

  /** The type a matched element receives: EXACT from 0.95 on, else SIMILAR. */
  function Classify(sim: real): (t: MatchType)
    ensures t == Exact || t == Similar
    ensures t == Exact <==> sim >= ExactCutoff
  {
    if sim >= ExactCutoff then Exact else Similar
  }

  /** One element of a match after the write-back. */
  function MarkMatched(e: CodeElement, sim: real): (r: CodeElement)
    ensures r.matched && r.similarity == Some(sim)
    ensures r.matchType == Exact <==> sim >= ExactCutoff
    ensures r.name == e.name && r.kind == e.kind && r.signature == e.signature
    ensures r.sourceCode == e.sourceCode && r.lineNumber == e.lineNumber
  {
    e.(matched := true, matchType := Classify(sim), similarity := Some(sim))
  }

  function SimilaritiesOf(ms: seq<Match>): (r: seq<real>)
    ensures |r| == |ms| && forall i :: 0 <= i < |ms| ==> r[i] == ms[i].similarity
  {
    seq(|ms|, i requires 0 <= i < |ms| => ms[i].similarity)
  }

  /** The loop over the matches for one side: position `ps[j]` is marked with
      score `sims[j]`, in match order. */
  function MarkSide(es: seq<CodeElement>, ps: seq<nat>, sims: seq<real>): (r: seq<CodeElement>)
    requires |ps| == |sims| && InRange(ps, |es|)
    ensures |r| == |es|
    decreases |ps|
  {
    if ps == [] then es
    else MarkSide(es[ps[0] := MarkMatched(es[ps[0]], sims[0])], ps[1..], sims[1..])
  }

  /** A position that no match names keeps its element. */
  lemma {:induction false} MarkSideUntouched(es: seq<CodeElement>, ps: seq<nat>, sims: seq<real>, i: nat)
    requires |ps| == |sims| && InRange(ps, |es|)
    requires i < |es| && i !in ps
    ensures MarkSide(es, ps, sims)[i] == es[i]
    decreases |ps|
  {
    if ps != [] {
      var es' := es[ps[0] := MarkMatched(es[ps[0]], sims[0])];
      assert ps[0] != i;
      MarkSideUntouched(es', ps[1..], sims[1..], i);
    }
  }

  /** With distinct positions, the `j`-th named position carries the `j`-th
      score and nothing else changes in that element. */
  lemma {:induction false} MarkSideAt(es: seq<CodeElement>, ps: seq<nat>, sims: seq<real>, j: nat)
    requires |ps| == |sims| && InRange(ps, |es|) && Distinct(ps)
    requires j < |ps|
    ensures MarkSide(es, ps, sims)[ps[j]] == MarkMatched(es[ps[j]], sims[j])
    decreases |ps|
  {
    var es' := es[ps[0] := MarkMatched(es[ps[0]], sims[0])];
    DistinctTail(ps);
    if j == 0 {
      MarkSideUntouched(es', ps[1..], sims[1..], ps[0]);
    } else {
      assert ps[j] == ps[1..][j - 1];
      assert ps[j] != ps[0];
      MarkSideAt(es', ps[1..], sims[1..], j - 1);
    }
  }

  /** The unmatched elements of one side receive type `t` and score 0.0;
      matched ones are left alone. */
  function MarkUnmatched(es: seq<CodeElement>, t: MatchType): (r: seq<CodeElement>)
    ensures |r| == |es|
    ensures forall i :: 0 <= i < |es| ==>
      && r[i].name == es[i].name && r[i].kind == es[i].kind && r[i].signature == es[i].signature
      && r[i].sourceCode == es[i].sourceCode && r[i].lineNumber == es[i].lineNumber
      && r[i].matched == es[i].matched
    ensures forall i :: 0 <= i < |r| ==> r[i].matched || (r[i].matchType == t && r[i].similarity == Some(0.0))
    ensures forall i :: 0 <= i < |es| && es[i].matched ==> r[i] == es[i]
    ensures forall i :: 0 <= i < |es| && !es[i].matched ==> r[i] == es[i].(matchType := t, similarity := Some(0.0))
  {
    seq(|es|, i requires 0 <= i < |es| => if es[i].matched then es[i] else es[i].(matchType := t, similarity := Some(0.0)))
  }

  /** updateElementMatchStatus: both sides after the write-back. On fresh
      elements with no element in two matches, each side is marked by the
      matches: the element of the `j`-th match is marked matched with its
      score, EXACT or SIMILAR by it; every other student element becomes
      EXTRA and every other reference element MISSING, with score 0.0; so
      the EXTRA and MISSING elements number the side's size minus the
      matches. */
  function WriteBack(S: seq<CodeElement>, R: seq<CodeElement>, ms: seq<Match>): (r: (seq<CodeElement>, seq<CodeElement>))
    requires ValidMatches(ms, S, R)
    ensures |r.0| == |S| && |r.1| == |R|
    ensures Distinct(StudentsOf(ms)) && Fresh(S) ==>
      SideMarked(S, StudentsOf(ms), SimilaritiesOf(ms), Extra, r.0)
    ensures Distinct(ReferencesOf(ms)) && Fresh(R) ==>
      SideMarked(R, ReferencesOf(ms), SimilaritiesOf(ms), Missing, r.1)
  {
    var ps, pr, sims := StudentsOf(ms), ReferencesOf(ms), SimilaritiesOf(ms);
    SideMarkedIf(S, ps, sims, Extra);
    SideMarkedIf(R, pr, sims, Missing);
    (MarkUnmatched(MarkSide(S, ps, sims), Extra), MarkUnmatched(MarkSide(R, pr, sims), Missing))
  }

  /** Side `es` after the write-back is `w`: the element at `ps[j]` is marked
      matched with score `sims[j]`, every other element becomes `t` with
      score 0.0, and exactly the unnamed elements have type `t`. */
  predicate SideMarked(es: seq<CodeElement>, ps: seq<nat>, sims: seq<real>, t: MatchType, w: seq<CodeElement>)
    requires |ps| == |sims| && InRange(ps, |es|) && |w| == |es|
  {
    && (forall j :: 0 <= j < |ps| ==> w[ps[j]] == MarkMatched(es[ps[j]], sims[j]))
    && (forall i :: 0 <= i < |es| && i !in ps ==> w[i] == es[i].(matchType := t, similarity := Some(0.0)))
    && (forall i :: 0 <= i < |es| ==> (w[i].matchType == t <==> i !in ps))
    && |Filter(w, IsMatchType(t))| == |es| - |ps|
  }

  lemma SideMarkedIf(es: seq<CodeElement>, ps: seq<nat>, sims: seq<real>, t: MatchType)
    requires |ps| == |sims| && InRange(ps, |es|) && (t == Extra || t == Missing)
    ensures Distinct(ps) && Fresh(es) ==> SideMarked(es, ps, sims, t, MarkUnmatched(MarkSide(es, ps, sims), t))
  {
    if Distinct(ps) && Fresh(es) {
      MarkedSide(es, ps, sims, t);
      MarkedSideView(es, ps, sims, t);
    }
  }

  /** No element has been matched yet (as the parser delivers them). */
  predicate Fresh(es: seq<CodeElement>) {
    forall i :: 0 <= i < |es| ==> !es[i].matched
  }

  /** One side after the write-back, starting from fresh elements: the
      element of the `j`-th match carries that match's score and is EXACT or
      SIMILAR by it; every other element becomes `t` with score 0.0. */
  lemma MarkedSide(es: seq<CodeElement>, ps: seq<nat>, sims: seq<real>, t: MatchType)
    requires |ps| == |sims| && InRange(ps, |es|) && Distinct(ps) && Fresh(es)
    ensures var r := MarkUnmatched(MarkSide(es, ps, sims), t);
      && (forall j :: 0 <= j < |ps| ==> r[ps[j]] == MarkMatched(es[ps[j]], sims[j]))
      && (forall i :: 0 <= i < |es| && i !in ps ==> r[i] == es[i].(matchType := t, similarity := Some(0.0)))
  {
    var m := MarkSide(es, ps, sims);
    forall j | 0 <= j < |ps|
      ensures m[ps[j]] == MarkMatched(es[ps[j]], sims[j])
    {
      MarkSideAt(es, ps, sims, j);
    }
    forall i | 0 <= i < |es| && i !in ps
      ensures m[i] == es[i]
    {
      MarkSideUntouched(es, ps, sims, i);
    }
  }

  /** A filter keeping every position except those in `out` keeps
      `|es| - |out|` elements. */
  lemma FilterSize(es: seq<CodeElement>, keep: CodeElement -> bool, out: set<nat>)
    requires forall i: nat :: i in out ==> i < |es|
    requires forall i :: 0 <= i < |es| ==> (keep(es[i]) <==> i !in out)
    ensures |Filter(es, keep)| == |es| - |out|
  {
    var idx := IndicesWhere(es, keep);
    FilterIsPick(es, keep);
    AscendingDistinct(idx);
    DistinctSetSize(idx);
    RangeSetSize(|es|);
    var all := RangeSet(|es|);
    assert Values(idx) == all - out by {
      forall i: nat
        ensures i in Values(idx) <==> i in all - out
      {
        if i in Values(idx) {
          var j :| 0 <= j < |idx| && idx[j] == i;
        }
      }
    }
    assert all * out == out;
  }

  /** The positions of one side that the write-back turns into `t` are exactly
      those no match names, so the elements of type `t` number `|es| - |ps|`. */
  lemma MarkedSideView(es: seq<CodeElement>, ps: seq<nat>, sims: seq<real>, t: MatchType)
    requires |ps| == |sims| && InRange(ps, |es|) && Distinct(ps) && Fresh(es)
    requires t == Extra || t == Missing
    ensures var r := MarkUnmatched(MarkSide(es, ps, sims), t);
      && (forall i :: 0 <= i < |es| ==> (r[i].matchType == t <==> i !in ps))
      && |Filter(r, IsMatchType(t))| == |es| - |ps|
  {
    var r := MarkUnmatched(MarkSide(es, ps, sims), t);
    MarkedSide(es, ps, sims, t);
    forall i | 0 <= i < |es|
      ensures r[i].matchType == t <==> i !in ps
    {
      if i in ps {
        var j :| 0 <= j < |ps| && ps[j] == i;
        assert r[i] == MarkMatched(es[i], sims[j]);
      }
    }
    DistinctSetSize(ps);
    FilterSize(r, IsMatchType(t), Values(ps));
  }

  // ---------------------------------------------------------------------------
  // Overall similarity

  function SumSimilarities(ms: seq<Match>): real {
    if ms == [] then 0.0 else ms[0].similarity + SumSimilarities(ms[1..])
  }

  /** calculateOverallSimilarity: the mean match score times the coverage
      `|ms| / max(totalS, totalR)`; 0.0 without matches or without student
      elements. The mean cancels against the coverage, so the score is the
      sum of the match scores over the larger element count. */
  function OverallSimilarity(ms: seq<Match>, totalS: nat, totalR: nat): (r: real)
    ensures ms == [] || totalS == 0 ==> r == 0.0
    ensures ms != [] && totalS > 0 ==> r == SumSimilarities(ms) / (Max(totalS, totalR) as real)
  {
    if ms == [] || totalS == 0 then 0.0
    else
      var n, d, sum := |ms| as real, Max(totalS, totalR) as real, SumSimilarities(ms);
      var average := sum / n;
      var coverage := n / d;
      assert average * n == sum;
      average * coverage
  }

  predicate ScoresInUnit(ms: seq<Match>) {
    forall i :: 0 <= i < |ms| ==> 0.0 <= ms[i].similarity <= 1.0
  }

  lemma {:induction false} SumBounds(ms: seq<Match>)
    requires ScoresInUnit(ms)
    ensures 0.0 <= SumSimilarities(ms) <= |ms| as real
  {
    if ms != [] {
      SumBounds(ms[1..]);
    }
  }

  /** With scores in [0, 1] and no more matches than the larger count, the
      overall score lies in [0, 1] and never exceeds the mean score. */
  lemma OverallBounds(ms: seq<Match>, totalS: nat, totalR: nat)
    requires ScoresInUnit(ms) && |ms| <= Max(totalS, totalR)
    ensures 0.0 <= OverallSimilarity(ms, totalS, totalR) <= 1.0
    ensures ms != [] ==> OverallSimilarity(ms, totalS, totalR) <= SumSimilarities(ms) / (|ms| as real)
  {
    SumBounds(ms);
    if ms != [] && totalS > 0 {
      CoverageBounds(SumSimilarities(ms), |ms| as real, Max(totalS, totalR) as real);
    }
  }

  /** The real arithmetic behind OverallBounds. */
  lemma CoverageBounds(sum: real, n: real, d: real)
    requires 0.0 <= sum <= n && 0.0 < n <= d
    ensures 0.0 <= sum / d <= 1.0
    ensures sum / d <= sum / n
  {
    assert sum / d == (sum / n) * (n / d);
    assert n / d <= 1.0;
    assert 0.0 <= sum / n <= 1.0;
  }

  lemma {:induction false} SumOfOnes(ms: seq<Match>)
    requires forall i :: 0 <= i < |ms| ==> ms[i].similarity == 1.0
    ensures SumSimilarities(ms) == |ms| as real
  {
    if ms != [] {
      SumOfOnes(ms[1..]);
    }
  }

  /** Every element of both sides matched with score 1.0 gives 1.0. */
  lemma OverallFull(ms: seq<Match>, total: nat)
    requires total > 0 && |ms| == total
    requires forall i :: 0 <= i < |ms| ==> ms[i].similarity == 1.0
    ensures OverallSimilarity(ms, total, total) == 1.0
  {
    SumOfOnes(ms);
  }

  // ---------------------------------------------------------------------------
  // The whole comparison

  datatype ComparisonResult = ComparisonResult(
    studentStructures: seq<CodeStructure>,
    referenceStructures: seq<CodeStructure>,
    matches: seq<Match>,
    overallSimilarity: real,
    totalStudentElements: nat,
    totalReferenceElements: nat,
    matchedElements: nat)

  /** compareCode on structures that have already been parsed: match, write
      the outcome back into the elements, and count. Match positions index
      the flattened student and reference element lists. The result keeps
      the structures, holds the written-back elements in flattened order,
      counts the flattened elements and the matches, and its overall
      similarity lies in [0, 1]. */
  function CompareCode(studentStructures: seq<CodeStructure>, referenceStructures: seq<CodeStructure>, threshold: real): (r: ComparisonResult)
    ensures |r.studentStructures| == |studentStructures| && |r.referenceStructures| == |referenceStructures|
    ensures r.totalStudentElements == |Flatten(studentStructures)|
    ensures r.totalReferenceElements == |Flatten(referenceStructures)|
    ensures r.matchedElements == |r.matches|
    ensures r.matches == PerformMatching(Flatten(studentStructures), Flatten(referenceStructures), threshold)
    ensures ValidMatches(r.matches, Flatten(studentStructures), Flatten(referenceStructures))
    ensures Flatten(r.studentStructures) == WriteBack(Flatten(studentStructures), Flatten(referenceStructures), r.matches).0
    ensures Flatten(r.referenceStructures) == WriteBack(Flatten(studentStructures), Flatten(referenceStructures), r.matches).1
    ensures 0.0 <= r.overallSimilarity <= 1.0
    ensures Fresh(Flatten(studentStructures)) && Fresh(Flatten(referenceStructures)) ==> MarkedByMatches(r)
  {
    var S := Flatten(studentStructures);
    var R := Flatten(referenceStructures);
    var ms := PerformMatching(S, R, threshold);
    var marked := WriteBack(S, R, ms);
    TotalIsFlattenLength(studentStructures);
    TotalIsFlattenLength(referenceStructures);
    var totalS := TotalElements(studentStructures);
    var totalR := TotalElements(referenceStructures);
    ExactOrScoredInUnit(ms, S, R, threshold);
    OverallBounds(ms, totalS, totalR);
    var r := ComparisonResult(
      Refill(studentStructures, marked.0),
      Refill(referenceStructures, marked.1),
      ms,
      OverallSimilarity(ms, totalS, totalR),
      totalS, totalR, |ms|);
    if Fresh(S) && Fresh(R) then ResultViews(S, R, r); r else r
  }

  /** getUnmatchedStudentElements: the student elements marked EXTRA. */
  function UnmatchedStudentElements(c: ComparisonResult): (r: seq<CodeElement>)
    ensures forall i :: 0 <= i < |r| ==> r[i].matchType == Extra
  {
    Filter(Flatten(c.studentStructures), IsMatchType(Extra))
  }

  /** getMissingElements: the reference elements marked MISSING. */
  function MissingElements(c: ComparisonResult): (r: seq<CodeElement>)
    ensures forall i :: 0 <= i < |r| ==> r[i].matchType == Missing
  {
    Filter(Flatten(c.referenceStructures), IsMatchType(Missing))
  }

  /** Exact and element-scored matches have scores in [0, 1]. */
  lemma ExactOrScoredInUnit(ms: seq<Match>, S: seq<CodeElement>, R: seq<CodeElement>, threshold: real)
    requires ValidMatches(ms, S, R)
    requires forall i :: 0 <= i < |ms| ==> ExactOrScored(ms[i], S, R, ElementSimilarity, threshold)
    ensures ScoresInUnit(ms)
  {
    forall i | 0 <= i < |ms|
      ensures 0.0 <= ms[i].similarity <= 1.0
    {
      assert ExactOrScored(ms[i], S, R, ElementSimilarity, threshold);
    }
  }

  /** The elements of a result are marked by its matches: a student element
      is EXTRA exactly when no match names it and a reference element
      MISSING exactly when no match names it; each matched element carries
      its match's score and is EXACT exactly from 0.95 on; so the EXTRA and
      MISSING views hold the totals minus the matched count. */
  predicate MarkedByMatches(r: ComparisonResult) {
    var S', R' := Flatten(r.studentStructures), Flatten(r.referenceStructures);
    && ValidMatches(r.matches, S', R')
    && (forall i :: 0 <= i < |S'| ==> (S'[i].matchType == Extra <==> i !in StudentsOf(r.matches)))
    && (forall i :: 0 <= i < |R'| ==> (R'[i].matchType == Missing <==> i !in ReferencesOf(r.matches)))
    && (forall j :: 0 <= j < |r.matches| ==>
          S'[r.matches[j].student].similarity == Some(r.matches[j].similarity)
          && R'[r.matches[j].reference].similarity == Some(r.matches[j].similarity)
          && (S'[r.matches[j].student].matchType == Exact <==> r.matches[j].similarity >= ExactCutoff))
    && |UnmatchedStudentElements(r)| == r.totalStudentElements - r.matchedElements
    && |MissingElements(r)| == r.totalReferenceElements - r.matchedElements
  }

  /** The views of a result whose structures hold the write-back of fresh
      elements under its matches. */
  lemma ResultViews(S: seq<CodeElement>, R: seq<CodeElement>, r: ComparisonResult)
    requires ValidMatches(r.matches, S, R) && Distinct(StudentsOf(r.matches)) && Distinct(ReferencesOf(r.matches))
    requires Fresh(S) && Fresh(R)
    requires r.totalStudentElements == |S| && r.totalReferenceElements == |R| && r.matchedElements == |r.matches|
    requires Flatten(r.studentStructures) == WriteBack(S, R, r.matches).0
    requires Flatten(r.referenceStructures) == WriteBack(S, R, r.matches).1
    ensures MarkedByMatches(r)
  {
    var w := WriteBack(S, R, r.matches);
    assert UnmatchedStudentElements(r) == Filter(w.0, IsMatchType(Extra));
    assert MissingElements(r) == Filter(w.1, IsMatchType(Missing));
  }
}
