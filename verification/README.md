# diff-grader core in Dafny

diff-grader compares a student's Java project with a reference solution and
helps a teacher grade the difference. This project models the computational
core of its Spring back end as immutable Dafny datatypes and pure functions,
and proves what that core promises.

- **Similarity** (`similarity.dfy`, `levenshtein.dfy`, `strings.dfy`):
  - the Levenshtein distance, both as a recursive definition and as the
    service's two-dimensional table, proved equal;
  - the case-insensitive string similarity built on the distance;
  - occurrence counting and the keyword and punctuation feature bag;
  - the feature-list similarity and the 0.4/0.3/0.3 weighted element score;
  - the token-set Jaccard similarity.
- **Differences** (`differences.dfy`): the explanation of how two signatures
  differ, keyed on the element type, and its four extractors (access
  modifier, return type, field type, parameters).
- **Elements** (`elements.dfy`): `CodeElement`, `CodeStructure` and its four
  per-type getters.
- **Matching** (`matching.dfy`): the two-phase greedy matcher on the elements
  of one type. Phase 1 pairs exact matches, first found wins. Phase 2 takes
  the best-scoring match at or above the threshold, and the earliest
  candidate wins ties. Element pools are sequences of positions.
- **Comparison** (`comparison.dfy`):
  - running the matcher once per element type;
  - writing the outcome back into the elements as EXACT, SIMILAR, EXTRA or
    MISSING with a similarity;
  - the coverage-weighted overall similarity;
  - the EXTRA and MISSING views.
- **Feedback** (`feedback.dfy`):
  - the suggested score, with Java's `Math.round` and `int` narrowing;
  - validation of feedback values;
  - the feedback store, which allows one feedback per element and session,
    and partial updates.
- **Sessions** (`sessions.dfy`): the grading-session life cycle
  CREATED → ANALYZING → READY → COMPLETED with restart, as a synchronous
  step function, plus the session statistics. Analysis is synchronous in
  the source too. `createGradingSession` and `restartAnalysis` call
  `analyzeCodeAsync` on the same object, so the asynchronous proxy is
  bypassed. On success both return the session as the analysis left it.
  A failed comparison throws through the transactional comparison service
  inside their own transaction, which marks it rollback-only: the
  analysis catches the exception, but the commit then throws and nothing
  is saved, so both calls fail. The comparison outcome is an input: a
  result on success, a message on failure.
- **Files** (`files.dfy`):
  - upload validation;
  - the Java-entry filter;
  - entry-name sanitising, modelling `Paths.get(name).getFileName()` on Unix
    paths;
  - the path-traversal guard, with `resolve`, `normalize` and `startsWith`
    as in `java.nio`.

**Modelling conventions:**
- Strings are `seq<char>` with ASCII lower-casing.
- Scores are exact `real` numbers.
- Java `null` is `Option.None` wherever the source handles it.
- Thrown exceptions become `Failure`/`Fail` values carrying the message.
- Ids the database would assign are parameters.

Two behaviours of the code are easy to miss:
- **Differences and equality.** An empty list of differences does not mean
  equal signatures. `Differences.DistinctMethodsWithNoDifferences` shows two
  different method signatures with no reported difference.
- **Phase 2 threshold.** A phase-2 score must reach the threshold and also
  exceed the initial best score 0.0 (`Matching.Qualifies`).

## Model

| member | source | states |
|---|---|---|
| Levenshtein.Distance | backend/src/main/java/com/diffgrader/service/SimilarityService.java:71-101 | the edit distance is at most the longer length and at least the difference of the lengths |
| Levenshtein.DistanceToEmpty | backend/src/main/java/com/diffgrader/service/SimilarityService.java:79-84 | the distance between a string and the empty string, either way round, is the string's length |
| Levenshtein.DistanceToSelf | backend/src/main/java/com/diffgrader/service/SimilarityService.java:71-101 | a string is at distance 0 from itself |
| Levenshtein.DistanceSymmetric | backend/src/main/java/com/diffgrader/service/SimilarityService.java:71-101 | the distance does not depend on the order of the arguments |
| Levenshtein.DistanceZeroIffEqual | backend/src/main/java/com/diffgrader/service/SimilarityService.java:71-101 | the distance is 0 exactly when the strings are equal |
| Levenshtein.DistanceOfPrefixes | backend/src/main/java/com/diffgrader/service/SimilarityService.java:89-95 | the distance of two non-empty prefixes obeys the table's recurrence: the diagonal on equal last characters, else one plus the least of the three neighbours |
| Levenshtein.LevenshteinDistance | backend/src/main/java/com/diffgrader/service/SimilarityService.java:71-101 | the dynamic-programming table computes exactly the recursive edit distance |
| Similarity.StringSimilarity | backend/src/main/java/com/diffgrader/service/SimilarityService.java:48-64 | the similarity lies in [0, 1]; with a null side it is 1.0 when both are null and 0.0 otherwise; for two strings it is 1.0 exactly when they are equal ignoring ASCII case |
| Similarity.StringSimilarityFormula | backend/src/main/java/com/diffgrader/service/SimilarityService.java:57-63 | for two different strings the similarity is 1 minus the edit distance of the lower-cased strings over the longer length |
| Similarity.StringSimilaritySymmetric | backend/src/main/java/com/diffgrader/service/SimilarityService.java:48-64 | string similarity does not depend on the order of the arguments |
| Similarity.Occurrences | backend/src/main/java/com/diffgrader/service/SimilarityService.java:178-188 | the non-overlapping hits of a non-empty pattern cover at most the text: count times pattern length is at most the text length |
| Similarity.CountOccurrences | backend/src/main/java/com/diffgrader/service/SimilarityService.java:178-188 | the indexOf loop that jumps past each hit returns exactly the count of non-overlapping occurrences, scanning left to right |
| Similarity.OccurrencesAtMatch | backend/src/main/java/com/diffgrader/service/SimilarityService.java:182-185 | a hit at position k counts once and the count continues after the hit |
| Similarity.KeywordFeatures | backend/src/main/java/com/diffgrader/service/SimilarityService.java:129-139 | a keyword becomes a feature exactly when it occurs, with its occurrence count |
| Similarity.PunctuationFeatures | backend/src/main/java/com/diffgrader/service/SimilarityService.java:142-146 | the five punctuation features are always emitted, in the source's order, each counting the occurrences of its mark { } ( ) ; |
| Similarity.StructuralFeatures | backend/src/main/java/com/diffgrader/service/SimilarityService.java:122-149 | the feature list has between 5 and 28 entries: occurring keywords with positive counts, then the five punctuation features with the counts of their marks in the normalised code |
| Similarity.KeywordFeatureIff | backend/src/main/java/com/diffgrader/service/SimilarityService.java:122-149 | keyword k with count n is among the features exactly when n is k's positive occurrence count in the normalised code |
| Similarity.CountCommonAll | backend/src/main/java/com/diffgrader/service/SimilarityService.java:166-170 | when every feature of the first list is in the second, every one is counted as common |
| Similarity.FeatureSimilarity | backend/src/main/java/com/diffgrader/service/SimilarityService.java:154-173 | feature similarity lies in [0, 1], is 1.0 for equal lists and 0.0 when exactly one list is empty |
| Similarity.StructuralSimilarity | backend/src/main/java/com/diffgrader/service/SimilarityService.java:107-117 | structural similarity lies in [0, 1] and is 1.0 for equal code; with a null side it is 1.0 exactly when both are null |
| Similarity.StructuralSimilarityIsRatio | backend/src/main/java/com/diffgrader/service/SimilarityService.java:107-173 | for two texts the empty-list branches of feature similarity are unreachable, and the score is the common-feature count over the longer list |
| Similarity.CalculateSimilarity | backend/src/main/java/com/diffgrader/service/SimilarityService.java:26-41 | the weighted element score lies in [0, 1], is 1.0 for identical inputs, is 1.0 exactly when all three part scores are 1.0, and is at least 0.7 when signatures and names are equal |
| Similarity.BlankNonWordChars | backend/src/main/java/com/diffgrader/service/SimilarityService.java:224-228 | every character outside [a-zA-Z0-9_] becomes a blank and every other character is kept |
| Similarity.Tokenize | backend/src/main/java/com/diffgrader/service/SimilarityService.java:224-228 | tokens consist of lower-case word characters [a-z0-9_] only, and only the first token can be empty |
| Similarity.TokenSetRatio | backend/src/main/java/com/diffgrader/service/SimilarityService.java:201-218 | the Jaccard ratio lies in [0, 1] and is 1.0 for equal non-empty token sets |
| Similarity.JaccardSimilarity | backend/src/main/java/com/diffgrader/service/SimilarityService.java:193-219 | the Jaccard similarity lies in [0, 1]; with a null side it is 1.0 exactly when both are null |
| Similarity.TokenSetNonEmpty | backend/src/main/java/com/diffgrader/service/SimilarityService.java:201-206 | a token array is empty exactly when its set of distinct tokens is empty |
| Similarity.JaccardCountsEmptyToken | backend/src/main/java/com/diffgrader/service/SimilarityService.java:224-228 | text starting with a non-word character yields a leading empty token, so "(a" and "a" score 0.5 |
| Similarity.JaccardSimilarityOfWords | backend/src/main/java/com/diffgrader/service/SimilarityService.java:193-228 | Jaccard similarity over the words alone lies in [0, 1], and texts with the same word set score 1.0 |
| Differences.AccessModifier | backend/src/main/java/com/diffgrader/service/SimilarityService.java:345-350 | the modifier is chosen by substring with priority public, private, protected, else "package-private", each case as an if-and-only-if |
| Differences.ReturnType | backend/src/main/java/com/diffgrader/service/SimilarityService.java:352-360 | the return type is the part just before the first part (after the first) that contains '(', and empty when no such part exists; it never contains whitespace |
| Differences.FieldType | backend/src/main/java/com/diffgrader/service/SimilarityService.java:362-368 | the field type is the second-to-last whitespace-separated word of the signature, and empty when there are fewer than two words |
| Differences.Parameters | backend/src/main/java/com/diffgrader/service/SimilarityService.java:370-377 | the parameters are the text between the first '(' and the first ')', when that ')' comes after the '('; they are empty without both brackets or when a ')' comes before the first '(' |
| Differences.ParametersBetweenParens | backend/src/main/java/com/diffgrader/service/SimilarityService.java:370-377 | for the first '(' and the first ')', when it follows, the text between them contains no ')' and sits in the signature between the brackets |
| Differences.FindDifferences | backend/src/main/java/com/diffgrader/service/SimilarityService.java:233-267 | equal signatures give no difference; exactly one null side gives exactly the null message; at most 4 messages, and at most 2 for constructors and other types |
| Differences.DispatchOnTypeName | backend/src/main/java/com/diffgrader/service/SimilarityService.java:249-264 | for different signatures, a type name that lower-cases to method, field, class or constructor, in any letter case, selects that type's checks |
| Differences.MethodDifferences | backend/src/main/java/com/diffgrader/service/SimilarityService.java:269-285 | each method message is reported exactly when its property (access, return type, parameters, static) differs |
| Differences.FieldDifferences | backend/src/main/java/com/diffgrader/service/SimilarityService.java:287-303 | each field message is reported exactly when its property (access, type, static, final) differs |
| Differences.ClassDifferences | backend/src/main/java/com/diffgrader/service/SimilarityService.java:305-321 | each class message is reported exactly when its property (access, abstract, final, interface) differs |
| Differences.ConstructorDifferences | backend/src/main/java/com/diffgrader/service/SimilarityService.java:323-331 | each constructor message is reported exactly when its property (access, parameters) differs |
| Differences.GenericMessagesIff | backend/src/main/java/com/diffgrader/service/SimilarityService.java:333-343 | for other types "Significant…" is reported exactly below similarity 0.8, "Major…" exactly below 0.5, and "Major…" always comes with "Significant…" |
| Differences.DistinctMethodsWithNoDifferences | backend/src/main/java/com/diffgrader/service/SimilarityService.java:269-285 | the methods "a()" and "b()" differ, yet no method difference is reported |
| Elements.Filter | backend/src/main/java/com/diffgrader/entity/CodeStructure.java:50-54 | a filter keeps only elements that pass and never lengthens the list |
| Elements.OfKind | backend/src/main/java/com/diffgrader/entity/CodeStructure.java:50-72 | a getter returns elements of its type only, each as often as it occurs in the structure |
| Elements.FilterCounts | backend/src/main/java/com/diffgrader/entity/CodeStructure.java:50-72 | a filter keeps every passing element as often as it occurs and drops every other |
| Elements.FilterIsPick | backend/src/main/java/com/diffgrader/entity/CodeStructure.java:50-72 | a filter is the same as picking the passing positions in ascending order, so relative order is preserved |
| Elements.OfKindIsPick | backend/src/main/java/com/diffgrader/entity/CodeStructure.java:50-72 | each getter returns exactly the elements of its type, in their original order, each as often as it occurs |
| Elements.OfKindLengthsSum | backend/src/main/java/com/diffgrader/entity/CodeStructure.java:49-72 | the four getters' lengths add up to the number of elements |
| Elements.GettersPartition | backend/src/main/java/com/diffgrader/entity/CodeStructure.java:49-72 | the four getters partition the elements: lengths and multisets add up to those of the structure |
| Elements.TotalIsFlattenLength | backend/src/main/java/com/diffgrader/service/ComparisonService.java:54-59 | the sum of the structures' element counts is the length of their flattened element list |
| Elements.Refill | backend/src/main/java/com/diffgrader/service/ComparisonService.java:137-171 | writing the flattened elements back keeps every structure's file, package, type and size, and flattens back to the written elements |
| Matching.ElementSimilarity | backend/src/main/java/com/diffgrader/service/ComparisonService.java:233-239 | the element score lies in [0, 1] and is 1.0 for an exact match with identical source |
| Matching.ExactMatchScoresHigh | backend/src/main/java/com/diffgrader/service/ComparisonService.java:225-228 | a pair with equal signature and name would also score at least 0.7 under the weighted element score |
| Matching.CreateMatch | backend/src/main/java/com/diffgrader/service/ComparisonService.java:244-258 | a match records both elements and the given score; equal signatures give an empty difference list; at most 4 differences |
| Matching.FirstExact | backend/src/main/java/com/diffgrader/service/ComparisonService.java:186-194 | the inner phase-1 loop finds the first reference in the pool with equal signature and name, or reports that none exists |
| Matching.ExactPass | backend/src/main/java/com/diffgrader/service/ComparisonService.java:183-195 | phase 1 accounts for both pools: matched and left-over positions together are exactly the input pools |
| Matching.ExactPassMatchesAreExact | backend/src/main/java/com/diffgrader/service/ComparisonService.java:184-195 | every phase-1 match pairs equal signatures and names with score 1.0 and no differences |
| Matching.ExactPassLeftoversDiffer | backend/src/main/java/com/diffgrader/service/ComparisonService.java:184-195 | no student and reference left over by phase 1 are an exact match |
| Matching.BestFrom | backend/src/main/java/com/diffgrader/service/ComparisonService.java:202-209 | the scan from any position, with the best found so far, returns the earliest strictly highest qualifying score, or none when nothing qualifies |
| Matching.TakeCandidate | backend/src/main/java/com/diffgrader/service/ComparisonService.java:205-208 | replacing the best by a higher qualifying candidate keeps the scan's invariant |
| Matching.BestIndex | backend/src/main/java/com/diffgrader/service/ComparisonService.java:199-209 | phase 2 picks the earliest candidate of strictly highest score at or above the threshold; there is none exactly when no score qualifies |
| Matching.ApproxPass | backend/src/main/java/com/diffgrader/service/ComparisonService.java:197-217 | phase 2 accounts for both pools: matched and left-over positions together are exactly the input pools |
| Matching.ApproxPassMatchesQualify | backend/src/main/java/com/diffgrader/service/ComparisonService.java:197-217 | every phase-2 match carries its pair's score, and that score qualifies |
| Matching.ApproxPassLeftovers | backend/src/main/java/com/diffgrader/service/ComparisonService.java:197-217 | no student and reference left over by phase 2 have a qualifying score |
| Matching.ApproxPassPartnersBest | backend/src/main/java/com/diffgrader/service/ComparisonService.java:197-217 | no reference left in the pool would have scored higher for a matched student than its partner |
| Matching.MatchElementsOfType | backend/src/main/java/com/diffgrader/service/ComparisonService.java:176-220 | the matcher accounts for both pools: matched plus unmatched positions are exactly the input pools |
| Matching.AccountsSizes | backend/src/main/java/com/diffgrader/service/ComparisonService.java:176-220 | on each side, matched plus unmatched equals the pool size |
| Matching.MatchElementsOfTypeOutcome | backend/src/main/java/com/diffgrader/service/ComparisonService.java:176-220 | the matches are exact, or scored and qualifying; counts add up on both sides; no left-over pair is exact or qualifying |
| Comparison.KindRunPairs | backend/src/main/java/com/diffgrader/service/ComparisonService.java:160-165 | the run for one type pairs only elements of that type, each exact or scored and qualifying |
| Comparison.KindRunOnce | backend/src/main/java/com/diffgrader/service/ComparisonService.java:176-220 | within one type, no element takes part in two matches |
| Comparison.KindRunMaximal | backend/src/main/java/com/diffgrader/service/ComparisonService.java:176-220 | after the run for one type, no unmatched pair of that type is exact or qualifying |
| Comparison.MatchKinds | backend/src/main/java/com/diffgrader/service/ComparisonService.java:153-165 | every match of the per-type runs is valid and pairs two elements of the same type, one of the types run, each exact or scored and qualifying |
| Comparison.MatchKindsOnce | backend/src/main/java/com/diffgrader/service/ComparisonService.java:153-165 | across the per-type runs, no element takes part in two matches |
| Comparison.MatchKindsMaximal | backend/src/main/java/com/diffgrader/service/ComparisonService.java:153-165 | after all runs, no unmatched pair of equal type is exact or qualifying |
| Comparison.DistinctBound | backend/src/main/java/com/diffgrader/service/ComparisonService.java:176-220 | distinct positions below n number at most n, which bounds the matches by each side's size |
| Comparison.Classify | backend/src/main/java/com/diffgrader/service/ComparisonService.java:276-282 | a matched element is EXACT exactly when its score is at least 0.95, else SIMILAR |
| Comparison.MarkSideUntouched | backend/src/main/java/com/diffgrader/service/ComparisonService.java:269-286 | an element that no match names is not changed by marking the matches |
| Comparison.MarkSideAt | backend/src/main/java/com/diffgrader/service/ComparisonService.java:269-286 | a matched element is marked matched, classified by its match's score, and carries that score |
| Comparison.MarkUnmatched | backend/src/main/java/com/diffgrader/service/ComparisonService.java:288-303 | marking keeps every element's identity, code and matched flag, and leaves every element either matched or of the given unmatched type with score 0.0 |
| Comparison.MarkedSide | backend/src/main/java/com/diffgrader/service/ComparisonService.java:263-303 | after write-back, matched elements carry their match's status and score, and every other element gets the unmatched type and score 0.0 |
| Comparison.MarkedSideView | backend/src/main/java/com/diffgrader/service/ComparisonService.java:263-303 | an element ends up EXTRA (or MISSING) exactly when it is unmatched, so the view holds total minus matched elements |
| Comparison.WriteBack | backend/src/main/java/com/diffgrader/service/ComparisonService.java:263-303 | on fresh elements with no element in two matches, each matched element carries its match's score and EXACT or SIMILAR status, every other student element is EXTRA and every other reference element MISSING with score 0.0, and the EXTRA and MISSING elements number each side's size minus the matches |
| Comparison.ResultViews | backend/src/main/java/com/diffgrader/service/ComparisonService.java:263-303 | a result holding the write-back of fresh elements under distinct valid matches is marked by those matches, with the EXTRA and MISSING views of total minus matched size |
| Comparison.OverallSimilarity | backend/src/main/java/com/diffgrader/service/ComparisonService.java:308-326 | the overall similarity is 0.0 without matches or without student elements, and otherwise the sum of the match scores over the larger element total |
| Comparison.OverallBounds | backend/src/main/java/com/diffgrader/service/ComparisonService.java:308-326 | with scores in [0, 1] and no more matches than the larger total, the overall similarity lies in [0, 1] and never exceeds the mean score |
| Comparison.OverallFull | backend/src/main/java/com/diffgrader/service/ComparisonService.java:308-326 | every element matched with score 1.0 on equal totals gives overall similarity 1.0 |
| Comparison.CompareCode | backend/src/main/java/com/diffgrader/service/ComparisonService.java:49-72 | the totals count the flattened elements and matchedElements the matches; the structures keep their number and hold the written-back elements in flattened order; the overall similarity lies in [0, 1]; on freshly parsed elements, an element is EXTRA (MISSING) exactly when unmatched, matched ones carry their score and are EXACT from 0.95 on, and the EXTRA and MISSING views hold the totals minus the matched count |
| Comparison.PerformMatching | backend/src/main/java/com/diffgrader/service/ComparisonService.java:137-171 | matches pair elements of equal type and are exact (score 1.0) or scored at or above the threshold; no element is matched twice; at most as many matches as either side holds; no unmatched pair of equal type is left that is exact or qualifying |
| Comparison.ExactOrScoredInUnit | backend/src/main/java/com/diffgrader/service/ComparisonService.java:308-326 | match scores from the matcher all lie in [0, 1] |
| Comparison.UnmatchedStudentElements | backend/src/main/java/com/diffgrader/service/ComparisonService.java:338-343 | the view holds only EXTRA elements |
| Comparison.MissingElements | backend/src/main/java/com/diffgrader/service/ComparisonService.java:348-353 | the view holds only MISSING elements |
| Feedback.Int32 | backend/src/main/java/com/diffgrader/service/FeedbackService.java:232 | the (int) cast yields a 32-bit value congruent to its argument modulo 2^32, and the identity within range |
| Feedback.JavaRound | backend/src/main/java/com/diffgrader/service/FeedbackService.java:232 | Math.round returns a long, and within range the nearest integer with halves rounded up |
| Feedback.BaseScore | backend/src/main/java/com/diffgrader/service/FeedbackService.java:228-232 | for similarity in [0, 1], with null read as 0, the base score is the nearest integer to similarity × 100, halves rounded up, and lies in [0, 100] |
| Feedback.SuggestedScoreOfNone | backend/src/main/java/com/diffgrader/service/FeedbackService.java:228-230 | a null similarity is scored like 0.0 |
| Feedback.SuggestedScore | backend/src/main/java/com/diffgrader/service/FeedbackService.java:227-247 | for similarity in [0, 1] the suggestion lies in [0, 100], with no 32-bit wrap-around: EXACT min(100, base+10), SIMILAR the base score, EXTRA max(0, base−20); MISSING always 0 |
| Feedback.SuggestedScoreOrder | backend/src/main/java/com/diffgrader/service/FeedbackService.java:235-246 | at equal similarity, MISSING ≤ EXTRA ≤ SIMILAR ≤ EXACT |
| Feedback.SuggestedScoreMonotone | backend/src/main/java/com/diffgrader/service/FeedbackService.java:227-247 | for every match type a higher similarity never lowers the suggestion |
| Feedback.ValidateFeedbackData | backend/src/main/java/com/diffgrader/service/FeedbackService.java:345-362 | validation passes exactly when a present score is in [0, 100], comments ≤ 2000 and notes ≤ 1000 characters; a failure names the first violated bound |
| Feedback.SubmitFeedback | backend/src/main/java/com/diffgrader/service/FeedbackService.java:32-69 | submit succeeds exactly when the values are valid, session and element exist, the pair has no feedback yet and a score is given; then exactly one record is added |
| Feedback.SubmitKeepsPairsUnique | backend/src/main/java/com/diffgrader/service/FeedbackService.java:46-52 | the store keeps at most one feedback per (session, element) pair |
| Feedback.Overwrite | backend/src/main/java/com/diffgrader/service/FeedbackService.java:92-95 | a partial update keeps session and element, replaces each field given and keeps each field absent, so an empty update changes nothing |
| Feedback.UpdateFeedback | backend/src/main/java/com/diffgrader/service/FeedbackService.java:74-102 | update succeeds exactly when the values are valid and the feedback exists in the given session; it overwrites exactly the non-null arguments and keeps everything else |
| Feedback.UpdateFeedbackProperties | backend/src/main/java/com/diffgrader/service/FeedbackService.java:86-95 | an update keeps pairs unique, repeating it changes nothing, and an all-null update leaves the store as it was |
| Sessions.CreateGradingSession | backend/src/main/java/com/diffgrader/service/GradingSessionService.java:32-63 | creation succeeds exactly when both files exist with the STUDENT and REFERENCE types, the student check first, and the analysis succeeds; a failed analysis fails the call with the rollback message; the session returned is READY with the comparison and both files COMPLETED, has no feedback, score or comments and is well formed |
| Sessions.SaveNewSession | backend/src/main/java/com/diffgrader/service/GradingSessionService.java:32-56 | before the analysis, the saved session is CREATED, without comparison, feedback, score or comments, holds the two files and is well formed |
| Sessions.AnalyzeCode | backend/src/main/java/com/diffgrader/service/GradingSessionService.java:69-112 | analysis goes through ANALYZING to READY with the comparison and both files COMPLETED, or back to CREATED with both files in ERROR and the message; nothing else changes and well-formedness is kept |
| Sessions.CompleteGradingSession | backend/src/main/java/com/diffgrader/service/GradingSessionService.java:139-163 | completion succeeds exactly from READY with a score in [0, 100]; the status is checked before the score; the result is COMPLETED with score and comments set |
| Sessions.RestartAnalysis | backend/src/main/java/com/diffgrader/service/GradingSessionService.java:256-274 | restart succeeds exactly when the analysis does, otherwise it fails with the rollback message; from any status, a successful restart drops feedback, score and comments and returns the session READY with the new comparison and files COMPLETED, keeping id and files and well-formedness |
| Sessions.ClearSession | backend/src/main/java/com/diffgrader/service/GradingSessionService.java:256-269 | before the analysis, the cleared session is CREATED with no comparison, feedback, score or comments, keeps its files, and is well formed when its files have the right types |
| Sessions.RestartIdempotent | backend/src/main/java/com/diffgrader/service/GradingSessionService.java:256-274 | restarting a successfully restarted session with the same analysis outcome changes nothing more |
| Sessions.IsSessionReady | backend/src/main/java/com/diffgrader/service/GradingSessionService.java:208-211 | a well-formed session is ready exactly when it has a comparison and is not completed |
| Sessions.RunKeepsWellFormed | backend/src/main/java/com/diffgrader/service/GradingSessionService.java:139-274 | every session reached by any sequence of completions and restarts, failed ones leaving the session as it was, stays well formed |
| Sessions.SumScoresBounds | backend/src/main/java/com/diffgrader/service/GradingSessionService.java:247-250 | the score sum lies between n times the least and n times the greatest bound |
| Sessions.AverageFeedbackScore | backend/src/main/java/com/diffgrader/service/GradingSessionService.java:242-251 | the average is absent exactly for no feedback, and otherwise times the count gives the total score |
| Sessions.AverageFeedbackScoreOutcome | backend/src/main/java/com/diffgrader/service/GradingSessionService.java:242-251 | the average is absent exactly for no feedback, else the arithmetic mean, lying between the scores' bounds |
| Sessions.SessionStatisticsOf | backend/src/main/java/com/diffgrader/service/GradingSessionService.java:216-237 | statistics exist exactly when a comparison is present, so from READY on; they carry the session id, the comparison's totals, matched count and overall similarity, the feedback count and average, and the session's score and status |
| Files.ValidateFile | backend/src/main/java/com/diffgrader/service/FileService.java:139-165 | an upload passes exactly when non-empty, within the size limit and named *.zip in any case; the checks apply in that order |
| Files.ValidateFileIgnoresContentType | backend/src/main/java/com/diffgrader/service/FileService.java:153-158 | the content type never decides the outcome |
| Files.ZipSuffixAccepted | backend/src/main/java/com/diffgrader/service/FileService.java:148-151 | names ending in ".zip" or ".ZIP" pass the name check |
| Files.IsJavaFile | backend/src/main/java/com/diffgrader/service/FileService.java:182-184 | an entry is a Java file exactly when its last five characters spell ".java" in any letter case |
| Files.IsJavaFileCaseInsensitive | backend/src/main/java/com/diffgrader/service/FileService.java:182-184 | the Java-entry test ignores letter case and accepts ".java" and ".JAVA" |
| Files.FileNamePart | backend/src/main/java/com/diffgrader/service/FileService.java:224 | getFileName fails exactly on a NUL character or a name of slashes only, and otherwise yields a name without '/' |
| Files.SanitizeFileName | backend/src/main/java/com/diffgrader/service/FileService.java:222-235 | sanitising fails exactly when getFileName does; otherwise the name is non-empty, uses only [A-Za-z0-9._-], never starts with '.', and is never "." or ".." |
| Files.SanitizeIdempotent | backend/src/main/java/com/diffgrader/service/FileService.java:222-235 | sanitising a sanitised name returns it unchanged |
| Files.SanitizeDropsDirectories | backend/src/main/java/com/diffgrader/service/FileService.java:224 | directories in front of a plain name do not change the sanitised result |
| Files.SanitizeKeepsTail | backend/src/main/java/com/diffgrader/service/FileService.java:222-235 | a suffix made of allowed characters without '/' survives sanitising |
| Files.SanitizeKeepsJavaExtension | backend/src/main/java/com/diffgrader/service/FileService.java:222-235 | an entry accepted as a Java file keeps a name accepted as a Java file after sanitising |
| Files.TraversalGuardPasses | backend/src/main/java/com/diffgrader/service/FileService.java:192-199 | under an extraction directory whose last name is an ordinary one, as `<name>_extracted` always is, the sanitised name resolves to a direct child of the directory, so the traversal guard always passes |
| Files.RawEntryEscapes | backend/src/main/java/com/diffgrader/service/FileService.java:193-199 | without sanitising, the entry "../x" would normalise outside the extraction directory and fail the guard |
| Files.EmptyDirectoryFailsGuard | backend/src/main/java/com/diffgrader/service/FileService.java:192-199 | under a directory that normalises to the empty path, even the plain entry "x" fails the guard |

## Left out

- Controllers, repositories, the JavaParser-based parser, the Spring bootstrap and logging are not part of this model. Code structures arrive already parsed, and ids and stored entities are values and maps.
- File I/O in FileService is not modelled: upload storage, ZIP streaming, directory creation and deletion, reading file content, cleanup. `generateUniqueFileName` is also left out, because it reads the clock and a random UUID.
- `@Async`, `CompletableFuture` and repository `save` calls are left out. Analysis is one synchronous step whose outcome, a comparison result or a failure message, is an input to creation and restart. Transactions appear only through their effect: a failed comparison makes creation and restart fail with the commit's rollback message and save nothing.
- Scores are exact reals, not IEEE-754 doubles, so rounding error in sums and divisions is not modelled.
- `toLowerCase` is ASCII-only. Unicode case mapping, and the UTF-16 length of supplementary characters, are not modelled.
- The free-text generators (`generateComments`, `generateDesignPatternFeedback`, `generateBestPracticesFeedback`) and `generateFeedbackSuggestions` are left out. They produce fixed prose.
- Getters and pass-throughs to repositories are left out: `getGradingSession`, `getAllGradingSessions`, `deleteGradingSession`, `getFeedbacksForSession`, `deleteFeedback`, the score-range queries, `getRecentSessions`, `getHighSimilaritySessions` and `getComparisonResult`.
- Entity timestamps and the bidirectional JPA links between result, structures and matches are left out. A match names its elements by position in the flattened student and reference lists.
- Matching.ExactPass: the source removes matched elements with `List.remove(Object)`, which removes the first equal element. The model removes the chosen position. An equal element earlier in the pool would have been chosen first, so both remove the same element.
- Matching.MatchElementsOfType: the score function is a parameter, so the matcher's properties hold for any scorer. `Comparison.CompareCode` instantiates it with the element similarity.
- Matching.DefaultThreshold: the threshold is a parameter and is not validated, as in the source. With a threshold of 0 or below, phase 2 still needs a score above 0.0.
- Comparison.CompareCode: element totals are unbounded. Java sums them as `int`, which would wrap past 2^31 − 1 elements.
- Similarity.CountOccurrences: requires a non-empty pattern. With an empty pattern the source's loop never terminates, and every caller passes a non-empty keyword or punctuation mark.
- Feedback.SubmitFeedback: a missing score fails with a message of the model's own (`ScoreRequiredMessage`). In the source, the non-nullable score column makes saving fail with a persistence error.
- Sessions.CompleteGradingSession: a missing score fails with `NullScoreMessage`. In the source, unboxing the null score throws a NullPointerException.
- Sessions.CreateGradingSession: the "File not found" message stands for the one the file lookup throws. Lookup failures elsewhere are modelled the same way.
- Files.ValidateFile: the content-type comparison is left out. It only logs a warning and never rejects a file, so the outcome does not depend on the content type.

## Findings

| source | as written | input that shows it | evidently intended | confidence | as-written member | corrected member |
|---|---|---|---|---|---|---|
| backend/src/main/java/com/diffgrader/service/SimilarityService.java:224-228 | `tokenize` blanks non-word characters and splits on `\s+`. Java's `split` keeps a leading empty string when the text starts with a separator, so `""` is counted as a token. | `calculateJaccardSimilarity("(a", "a")`: tokens `["", "a"]` and `["a"]` give 1/2 = 0.5 | the Jaccard similarity of the word sets, 1.0 here | medium; not executed | Similarity.JaccardCountsEmptyToken | Similarity.JaccardSimilarityOfWords |
