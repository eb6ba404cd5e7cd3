/** FeedbackService: the suggested score for an element, the validation of
    feedback text and score, and the feedback store with its
    one-feedback-per-element rule and partial updates. The store is a map
    from feedback id to record; session and element existence are given as
    sets of ids. */
module Feedback {
  import opened Wrappers
  import opened Strings
  import opened Levenshtein
  import opened Elements

  // ---------------------------------------------------------------------------
  // Java integer arithmetic

  const IntMin: int := -0x8000_0000
  const IntMax: int := 0x7FFF_FFFF
  const LongMin: int := -0x8000_0000_0000_0000
  const LongMax: int := 0x7FFF_FFFF_FFFF_FFFF

  /** Two's-complement narrowing to 32 bits (`(int)` of a long, and the
      wrap-around of `int` addition). */
  function Int32(n: int): (r: int)
    ensures IntMin <= r <= IntMax
    ensures IntMin <= n <= IntMax ==> r == n
    ensures (r - n) % 0x1_0000_0000 == 0
  {
    (n - IntMin) % 0x1_0000_0000 + IntMin
  }

  /** `Math.round(double)`: the floor of `x + 1/2`, saturated to the range of
      `long`. */
  function JavaRound(x: real): (r: int)
    ensures LongMin <= r <= LongMax
    ensures LongMin as real <= x <= LongMax as real ==> r as real <= x + 0.5 < r as real + 1.0
  {
    var f := (x + 0.5).Floor;
    if f < LongMin then LongMin else if f > LongMax then LongMax else f
  }

  // ---------------------------------------------------------------------------
  // Suggested score

  /** `(int) Math.round(similarity * 100)`, with a missing similarity read as
      0. On a similarity in [0, 1] it is the similarity in percent, rounded
      half up, and no Java overflow occurs. */
  function BaseScore(similarity: Option<real>): (b: int)
    ensures InUnit(similarity) ==>
      var x := similarity.GetOr(0.0) * 100.0;
      0 <= b <= 100 && b as real <= x + 0.5 < b as real + 1.0
  {
    Int32(JavaRound(similarity.GetOr(0.0) * 100.0))
  }

  /** calculateSuggestedScore: EXACT earns ten points on top of the base score
      (capped at 100), SIMILAR the base score, EXTRA twenty points less
      (floored at 0), MISSING nothing. */
  function SuggestedScore(matchType: MatchType, similarity: Option<real>): (r: int)
    ensures InUnit(similarity) ==> 0 <= r <= 100
    ensures matchType == Missing ==> r == 0
    ensures matchType == Similar ==> r == BaseScore(similarity)
    ensures InUnit(similarity) && matchType == Exact ==> r == Min(100, BaseScore(similarity) + 10)
    ensures InUnit(similarity) && matchType == Extra ==> r == Max(0, BaseScore(similarity) - 20)
  {
    var base := BaseScore(similarity);
    match matchType
    case Exact => Min(100, Int32(base + 10))
    case Similar => base
    case Extra => Max(0, Int32(base - 20))
    case Missing => 0
  }

  predicate InUnit(similarity: Option<real>) {
    similarity.None? || 0.0 <= similarity.value <= 1.0
  }

  /** A missing similarity scores as 0.0. */
  lemma SuggestedScoreOfNone(matchType: MatchType)
    ensures SuggestedScore(matchType, None) == SuggestedScore(matchType, Some(0.0))
  {
  }

  /** At a fixed similarity in [0, 1]: EXTRA <= SIMILAR <= EXACT, and MISSING
      is the lowest. */
  lemma SuggestedScoreOrder(similarity: Option<real>)
    requires InUnit(similarity)
    ensures SuggestedScore(Missing, similarity) <= SuggestedScore(Extra, similarity)
    ensures SuggestedScore(Extra, similarity) <= SuggestedScore(Similar, similarity)
    ensures SuggestedScore(Similar, similarity) <= SuggestedScore(Exact, similarity)
  {
  }

  /** A higher similarity never lowers the suggestion. */
  lemma SuggestedScoreMonotone(matchType: MatchType, s1: real, s2: real)
    requires 0.0 <= s1 <= s2 <= 1.0
    ensures SuggestedScore(matchType, Some(s1)) <= SuggestedScore(matchType, Some(s2))
  {
  }

  // ---------------------------------------------------------------------------
  // Validation

  const ScoreRangeMessage: string := "Score must be between 0 and 100"
  const CommentsMessage: string := "Comments cannot exceed 2000 characters"
  const NoteLimitSuffix: string := " feedback cannot exceed 1000 characters"
  const DesignPatternMessage: string := "Design pattern" + NoteLimitSuffix
  const BestPracticesMessage: string := "Best practices" + NoteLimitSuffix

  const MaxComments: nat := 2000
  const MaxNote: nat := 1000

  predicate ScoreOk(score: Option<int>) { score.None? || 0 <= score.value <= 100 }

  predicate TextOk(text: Option<string>, limit: nat) { text.None? || |text.value| <= limit }

  /** validateFeedbackData: absent values pass; the score, then the comments,
      then the design-pattern text, then the best-practices text is checked.
      Validation passes exactly when every present value is within bounds,
      and a failure names the first violated bound. */
  function ValidateFeedbackData(score: Option<int>, comments: Option<string>,
                                designPattern: Option<string>, bestPractices: Option<string>): (r: Outcome)
    ensures r.Pass? <==> ScoreOk(score) && TextOk(comments, 2000) && TextOk(designPattern, 1000) && TextOk(bestPractices, 1000)
    ensures r == Fail(ScoreRangeMessage) <==> !ScoreOk(score)
    ensures r == Fail(CommentsMessage) <==> ScoreOk(score) && !TextOk(comments, 2000)
    ensures r == Fail(DesignPatternMessage) <==>
      ScoreOk(score) && TextOk(comments, 2000) && !TextOk(designPattern, 1000)
    ensures r == Fail(BestPracticesMessage) <==>
      ScoreOk(score) && TextOk(comments, 2000) && TextOk(designPattern, 1000) && !TextOk(bestPractices, 1000)
  {
    MessagesDistinct();
    if !ScoreOk(score) then Fail(ScoreRangeMessage)
    else if !TextOk(comments, MaxComments) then Fail(CommentsMessage)
    else if !TextOk(designPattern, MaxNote) then Fail(DesignPatternMessage)
    else if !TextOk(bestPractices, MaxNote) then Fail(BestPracticesMessage)
    else Pass
  }

  lemma MessagesDistinct()
    ensures ScoreRangeMessage != CommentsMessage && ScoreRangeMessage != DesignPatternMessage
    ensures ScoreRangeMessage != BestPracticesMessage && CommentsMessage != DesignPatternMessage
    ensures CommentsMessage != BestPracticesMessage && DesignPatternMessage != BestPracticesMessage
  {
    assert |ScoreRangeMessage| != |CommentsMessage| && |ScoreRangeMessage| != |DesignPatternMessage|;
    assert |CommentsMessage| != |DesignPatternMessage| && |CommentsMessage| != |BestPracticesMessage|;
    assert |ScoreRangeMessage| != |BestPracticesMessage|;
    assert DesignPatternMessage[0] == "Design pattern"[0];
    assert BestPracticesMessage[0] == "Best practices"[0];
  }

  // ---------------------------------------------------------------------------
  // The store

  datatype FeedbackRecord = FeedbackRecord(
    sessionId: nat,
    elementId: nat,
    score: int,
    comments: Option<string>,
    designPattern: Option<string>,
    bestPractices: Option<string>)

  type Store = map<nat, FeedbackRecord>

  /** At most one feedback per (session, element) pair. */
  predicate UniquePairs(store: Store) {
    forall a, b :: a in store && b in store && a != b ==>
      (store[a].sessionId, store[a].elementId) != (store[b].sessionId, store[b].elementId)
  }

  predicate HasFeedbackFor(store: Store, sessionId: nat, elementId: nat) {
    exists id :: id in store && store[id].sessionId == sessionId && store[id].elementId == elementId
  }

  const AlreadyExistsMessage: string := "Feedback already exists for this element. Use update instead."
  const WrongSessionMessage: string := "Feedback does not belong to the specified session"
  const ScoreRequiredMessage: string := "Score is required"

  /** submitFeedback. `sessions` and `elements` are the ids that exist;
      `newId` is the id the database assigns. The score column is not
      nullable, so saving a feedback without a score fails. */
  function SubmitFeedback(store: Store, sessions: set<nat>, elements: set<nat>,
                          sessionId: nat, elementId: nat, score: Option<int>, comments: Option<string>,
                          designPattern: Option<string>, bestPractices: Option<string>, newId: nat): (r: Result<Store>)
    requires newId !in store
    ensures r.Success? <==>
      && ValidateFeedbackData(score, comments, designPattern, bestPractices).Pass?
      && sessionId in sessions && elementId in elements
      && !HasFeedbackFor(store, sessionId, elementId) && score.Some?
    ensures r.Success? ==>
      && r.value.Keys == store.Keys + {newId}
      && r.value[newId] == FeedbackRecord(sessionId, elementId, score.value, comments, designPattern, bestPractices)
      && (forall id :: id in store ==> r.value[id] == store[id])
  {
    var v := ValidateFeedbackData(score, comments, designPattern, bestPractices);
    if v.Fail? then Failure(v.error)
    else if sessionId !in sessions then Failure("Grading session not found: " + DecimalString(sessionId))
    else if elementId !in elements then Failure("Code element not found: " + DecimalString(elementId))
    else if HasFeedbackFor(store, sessionId, elementId) then Failure(AlreadyExistsMessage)
    else if score.None? then Failure(ScoreRequiredMessage)
    else Success(store[newId := FeedbackRecord(sessionId, elementId, score.value, comments, designPattern, bestPractices)])
  }

  /** Submitting keeps the store free of duplicate pairs. */
  lemma SubmitKeepsPairsUnique(store: Store, sessions: set<nat>, elements: set<nat>,
                               sessionId: nat, elementId: nat, score: Option<int>, comments: Option<string>,
                               designPattern: Option<string>, bestPractices: Option<string>, newId: nat)
    requires newId !in store && UniquePairs(store)
    ensures var r := SubmitFeedback(store, sessions, elements, sessionId, elementId, score, comments, designPattern, bestPractices, newId);
      r.Success? ==> UniquePairs(r.value)
  {
    var r := SubmitFeedback(store, sessions, elements, sessionId, elementId, score, comments, designPattern, bestPractices, newId);
    if r.Success? {
      var s := r.value;
      forall a, b | a in s && b in s && a != b
        ensures (s[a].sessionId, s[a].elementId) != (s[b].sessionId, s[b].elementId)
      {
        if a == newId {
          assert b in store;
        } else if b == newId {
          assert a in store;
        }
      }
    }
  }

  /** The partial update of updateFeedback: each present value replaces its
      field, an absent one leaves it. */
  function Overwrite(f: FeedbackRecord, score: Option<int>, comments: Option<string>,
                     designPattern: Option<string>, bestPractices: Option<string>): (r: FeedbackRecord)
    ensures r.sessionId == f.sessionId && r.elementId == f.elementId
    ensures r.score == (if score.Some? then score.value else f.score)
    ensures r.comments == (if comments.Some? then comments else f.comments)
    ensures r.designPattern == (if designPattern.Some? then designPattern else f.designPattern)
    ensures r.bestPractices == (if bestPractices.Some? then bestPractices else f.bestPractices)
    ensures score.None? && comments.None? && designPattern.None? && bestPractices.None? ==> r == f
  {
    f.(score := score.GetOr(f.score),
       comments := if comments.Some? then comments else f.comments,
       designPattern := if designPattern.Some? then designPattern else f.designPattern,
       bestPractices := if bestPractices.Some? then bestPractices else f.bestPractices)
  }

  /** updateFeedback. It succeeds exactly when the values are valid and the
      feedback exists and belongs to the session. It then replaces exactly
      the fields given, keeps the session, the element and every other
      record. */
  function UpdateFeedback(store: Store, sessionId: nat, feedbackId: nat, score: Option<int>, comments: Option<string>,
                          designPattern: Option<string>, bestPractices: Option<string>): (r: Result<Store>)
    ensures r.Success? <==>
      && ValidateFeedbackData(score, comments, designPattern, bestPractices).Pass?
      && feedbackId in store && store[feedbackId].sessionId == sessionId
    ensures r.Success? ==> r.value.Keys == store.Keys
    ensures r.Success? && feedbackId in r.value ==>
      var f, g := store[feedbackId], r.value[feedbackId];
      && (forall id :: id in store && id != feedbackId ==> r.value[id] == store[id])
      && g.sessionId == f.sessionId && g.elementId == f.elementId
      && (score.Some? ==> g.score == score.value) && (score.None? ==> g.score == f.score)
      && (comments.Some? ==> g.comments == comments) && (comments.None? ==> g.comments == f.comments)
      && (designPattern.Some? ==> g.designPattern == designPattern)
      && (designPattern.None? ==> g.designPattern == f.designPattern)
      && (bestPractices.Some? ==> g.bestPractices == bestPractices)
      && (bestPractices.None? ==> g.bestPractices == f.bestPractices)
  {
    var v := ValidateFeedbackData(score, comments, designPattern, bestPractices);
    if v.Fail? then Failure(v.error)
    else if feedbackId !in store then Failure("Feedback not found: " + DecimalString(feedbackId))
    else if store[feedbackId].sessionId != sessionId then Failure(WrongSessionMessage)
    else Success(store[feedbackId := Overwrite(store[feedbackId], score, comments, designPattern, bestPractices)])
  }

  /** Updating keeps the store free of duplicate pairs, repeating an update
      changes nothing more, and an update with no values leaves the store as
      it was. */
  lemma UpdateFeedbackProperties(store: Store, sessionId: nat, feedbackId: nat, score: Option<int>, comments: Option<string>,
                                 designPattern: Option<string>, bestPractices: Option<string>)
    ensures var r := UpdateFeedback(store, sessionId, feedbackId, score, comments, designPattern, bestPractices);
      r.Success? ==>
        && (UniquePairs(store) ==> UniquePairs(r.value))
        && UpdateFeedback(r.value, sessionId, feedbackId, score, comments, designPattern, bestPractices) == r
        && (score.None? && comments.None? && designPattern.None? && bestPractices.None? ==> r.value == store)
  {
    var r := UpdateFeedback(store, sessionId, feedbackId, score, comments, designPattern, bestPractices);
    if r.Success? {
      var s := r.value;
      var g := s[feedbackId];
      assert Overwrite(g, score, comments, designPattern, bestPractices) == g;
      assert s[feedbackId := g] == s;
      if UniquePairs(store) {
        forall a, b | a in s && b in s && a != b
          ensures (s[a].sessionId, s[a].elementId) != (s[b].sessionId, s[b].elementId)
        {
          assert (s[a].sessionId, s[a].elementId) == (store[a].sessionId, store[a].elementId);
          assert (s[b].sessionId, s[b].elementId) == (store[b].sessionId, store[b].elementId);
        }
      }
    }
  }
}
