/** SimilarityService: string similarity built on the Levenshtein distance,
    the keyword/punctuation feature bag of a declaration's source text, the
    weighted element score, and the token-set (Jaccard) similarity.
    Scores are exact reals; `None` stands for a Java null argument. */
module Similarity {
  import opened Wrappers
  import opened Strings
  import opened Levenshtein

  const SignatureWeight: real := 0.4
  const NameWeight: real := 0.3
  const StructureWeight: real := 0.3

  /** A count over a larger, positive total is a ratio in [0, 1], one exactly
      when the two are equal and zero exactly when the count is. */
  lemma RatioBounds(part: nat, total: nat)
    requires part <= total
    ensures total > 0 ==> 0.0 <= part as real / total as real <= 1.0
    ensures total > 0 ==> (part as real / total as real == 1.0 <==> part == total)
    ensures total > 0 ==> (part as real / total as real == 0.0 <==> part == 0)
  {
  }

  // ---------------------------------------------------------------------------
  // String similarity

  /** calculateStringSimilarity: 1.0 for equal strings and for two nulls, 0.0
      when exactly one side is null, otherwise one minus the case-insensitive
      edit distance over the longer length. */
  function StringSimilarity(s1: Option<string>, s2: Option<string>): (r: real)
    ensures 0.0 <= r <= 1.0
    ensures s1.None? || s2.None? ==> (r == 1.0 <==> s1 == s2) && (r == 0.0 <==> s1 != s2)
    ensures s1.Some? && s2.Some? ==> (r == 1.0 <==> Lower(s1.value) == Lower(s2.value))
  {
    if s1.None? || s2.None? then (if s1 == s2 then 1.0 else 0.0)
    else if s1.value == s2.value then 1.0
    else
      var a, b := s1.value, s2.value;
      var distance := Distance(Lower(a), Lower(b));
      var maxLength := Max(|a|, |b|);
      DistanceZeroIffEqual(Lower(a), Lower(b));
      RatioBounds(distance, maxLength);
      if maxLength == 0 then 1.0
      else 1.0 - (distance as real / maxLength as real)
  }

  /** For two present strings that differ, the score is exactly one minus the
      normalised distance of their lower-cased forms. */
  lemma StringSimilarityFormula(a: string, b: string)
    requires a != b
    ensures StringSimilarity(Some(a), Some(b))
         == 1.0 - Distance(Lower(a), Lower(b)) as real / Max(|a|, |b|) as real
  {
    assert Max(|a|, |b|) > 0;
  }

  lemma StringSimilaritySymmetric(s1: Option<string>, s2: Option<string>)
    ensures StringSimilarity(s1, s2) == StringSimilarity(s2, s1)
  {
    if s1.Some? && s2.Some? {
      DistanceSymmetric(Lower(s1.value), Lower(s2.value));
    }
  }

  // ---------------------------------------------------------------------------
  // Occurrence counting

  /** Leftmost, non-overlapping occurrences of `pat` in `text`: after a hit
      the scan resumes past the whole pattern. */
  function Occurrences(text: string, pat: string): (n: nat)
    requires |pat| > 0
    ensures n * |pat| <= |text|
    decreases |text|
  {
    if |text| < |pat| then 0
    else if text[..|pat|] == pat then 1 + Occurrences(text[|pat|..], pat)
    else Occurrences(text[1..], pat)
  }

  lemma {:induction false} OccurrencesSkip(text: string, pat: string, from: nat, k: nat)
    requires |pat| > 0 && from <= k <= |text|
    requires forall i :: from <= i < k ==> !MatchAt(text, pat, i)
    ensures Occurrences(text[from..], pat) == Occurrences(text[k..], pat)
    decreases k - from
  {
    if from < k {
      assert !MatchAt(text, pat, from);
      var t := text[from..];
      if |t| >= |pat| {
        assert t[..|pat|] == text[from..from + |pat|];
      }
      assert t[1..] == text[from + 1..];
      OccurrencesSkip(text, pat, from + 1, k);
    }
  }

  lemma OccurrencesAtMatch(text: string, pat: string, k: nat)
    requires |pat| > 0 && MatchAt(text, pat, k)
    ensures Occurrences(text[k..], pat) == 1 + Occurrences(text[k + |pat|..], pat)
  {
    var t := text[k..];
    assert t[..|pat|] == text[k..k + |pat|];
    assert t[|pat|..] == text[k + |pat|..];
  }

  /** The occurrences still to be counted at a cursor returned by `indexOf`:
      none once it is -1. */
  function Remaining(text: string, pat: string, index: int): nat
    requires |pat| > 0 && -1 <= index <= |text|
  {
    if index == -1 then 0 else Occurrences(text[index..], pat)
  }

  /** The first `indexOf` leaves every occurrence still to be counted. */
  lemma ScanStart(text: string, pat: string)
    requires |pat| > 0
    ensures Remaining(text, pat, IndexOf(text, pat, 0)) == Occurrences(text, pat)
  {
    var index := IndexOf(text, pat, 0);
    if index == -1 {
      OccurrencesSkip(text, pat, 0, |text|);
      assert text[|text|..] == [];
    } else {
      OccurrencesSkip(text, pat, 0, index);
    }
    assert text[0..] == text;
  }

  /** Counting the hit at `index` and moving the cursor past it accounts for
      one occurrence. */
  lemma ScanStep(text: string, pat: string, index: nat)
    requires |pat| > 0 && MatchAt(text, pat, index)
    ensures index + |pat| <= |text|
    ensures Occurrences(text[index..], pat) == 1 + Remaining(text, pat, IndexOf(text, pat, index + |pat|))
  {
    OccurrencesAtMatch(text, pat, index);
    var next := index + |pat|;
    var found := IndexOf(text, pat, next);
    if found == -1 {
      OccurrencesSkip(text, pat, next, |text|);
      assert text[|text|..] == [];
    } else {
      OccurrencesSkip(text, pat, next, found);
    }
  }

  /** countOccurrences: repeated `indexOf` from a cursor that advances by the
      pattern length after every hit. Callers always pass a non-empty pattern
      (with an empty one the source's loop would not terminate). */
  method CountOccurrences(text: string, pat: string) returns (count: nat)
    requires |pat| > 0
    ensures count == Occurrences(text, pat)
    ensures count * |pat| <= |text|
  {
    count := 0;
    var index := IndexOf(text, pat, 0);
    ScanStart(text, pat);
    while index != -1
      invariant -1 <= index <= |text|
      invariant index >= 0 ==> MatchAt(text, pat, index)
      invariant count + Remaining(text, pat, index) == Occurrences(text, pat)
      decreases if index == -1 then 0 else |text| - index + 1
    {
      ScanStep(text, pat, index);
      count := count + 1;
      index := IndexOf(text, pat, index + |pat|);
    }
  }

  // ---------------------------------------------------------------------------
  // Structural features

  /** One entry of the feature list. The source renders it as the string
      "label:count"; names contain no ':' and decimal rendering is
      injective, so string equality of entries is equality of pairs. */
  datatype Feature = Feature(name: string, count: nat)

  const Keywords: seq<string> := [
    "public", "private", "protected", "static", "final", "abstract",
    "class", "interface", "extends", "implements", "throws",
    "if", "else", "for", "while", "switch", "case", "try", "catch",
    "return", "new", "this", "super"]

  const PunctuationLabels: seq<string> := ["openBrace", "closeBrace", "openParen", "closeParen", "semicolon"]
  const PunctuationMarks: seq<string> := ["{", "}", "(", ")", ";"]

  lemma KeywordsNonEmpty()
    ensures |Keywords| == 23
    ensures forall k :: k in Keywords ==> |k| > 0
  {
  }

  /** One feature per keyword of `kws` that occurs in `text`, in vocabulary order. */
  function KeywordFeatures(text: string, kws: seq<string>): (fs: seq<Feature>)
    requires forall k :: k in kws ==> |k| > 0
    ensures |fs| <= |kws|
    ensures forall f :: f in fs ==> f.name in kws && f.count > 0 && f.count == Occurrences(text, f.name)
    ensures forall k :: k in kws && Occurrences(text, k) > 0 ==> Feature(k, Occurrences(text, k)) in fs
  {
    if kws == [] then []
    else
      var n := Occurrences(text, kws[0]);
      (if n > 0 then [Feature(kws[0], n)] else []) + KeywordFeatures(text, kws[1..])
  }

  /** The whitespace-collapsed, lower-cased text the features are counted in. */
  function NormalizeCode(code: string): string {
    Lower(CollapseSpaces(code))
  }

  /** The five punctuation counts, always present, in a fixed order. */
  function PunctuationFeatures(text: string): (ps: seq<Feature>)
    ensures |ps| == 5 && forall i :: 0 <= i < 5 ==> ps[i].name == PunctuationLabels[i]
    ensures forall i :: 0 <= i < 5 ==> ps[i].count == Occurrences(text, PunctuationMarks[i])
  {
    [Feature("openBrace", Occurrences(text, "{")),
     Feature("closeBrace", Occurrences(text, "}")),
     Feature("openParen", Occurrences(text, "(")),
     Feature("closeParen", Occurrences(text, ")")),
     Feature("semicolon", Occurrences(text, ";"))]
  }

  /** extractStructuralFeatures: keyword counts (only those above zero) and the
      five punctuation counts (always). */
  function StructuralFeatures(code: string): (fs: seq<Feature>)
    ensures 5 <= |fs| <= 28
    ensures forall i :: 0 <= i < 5 ==> fs[|fs| - 5 + i].name == PunctuationLabels[i]
    ensures forall i :: 0 <= i < 5 ==> fs[|fs| - 5 + i].count == Occurrences(NormalizeCode(code), PunctuationMarks[i])
    ensures forall i :: 0 <= i < |fs| - 5 ==> fs[i].name in Keywords && fs[i].count > 0
  {
    var text := NormalizeCode(code);
    KeywordsNonEmpty();
    var kf := KeywordFeatures(text, Keywords);
    var pf := PunctuationFeatures(text);
    assert forall i :: 0 <= i < |kf| ==> kf[i] in kf;
    kf + pf
  }

  /** Keyword features are exactly the keywords that occur, with their counts. */
  lemma KeywordFeatureIff(code: string, k: string, n: nat)
    requires k in Keywords
    ensures Feature(k, n) in StructuralFeatures(code)[..|StructuralFeatures(code)| - 5]
        <==> n > 0 && n == Occurrences(NormalizeCode(code), k)
  {
    KeywordsNonEmpty();
    var text := NormalizeCode(code);
    var fs := StructuralFeatures(code);
    assert fs[..|fs| - 5] == KeywordFeatures(text, Keywords);
  }

  /** How many entries of `f1` also occur somewhere in `f2`. */
  function CountCommon(f1: seq<Feature>, f2: seq<Feature>): (n: nat)
    ensures n <= |f1|
  {
    if f1 == [] then 0
    else (if f1[0] in f2 then 1 else 0) + CountCommon(f1[1..], f2)
  }

  lemma {:induction false} CountCommonAll(f1: seq<Feature>, f2: seq<Feature>)
    requires forall f :: f in f1 ==> f in f2
    ensures CountCommon(f1, f2) == |f1|
  {
    if f1 != [] {
      assert f1[0] in f1;
      CountCommonAll(f1[1..], f2);
    }
  }

  lemma CountCommonSelf(f: seq<Feature>)
    ensures CountCommon(f, f) == |f|
  {
    CountCommonAll(f, f);
  }

  /** calculateFeatureSimilarity: common entries over the longer list. */
  function FeatureSimilarity(f1: seq<Feature>, f2: seq<Feature>): (r: real)
    ensures 0.0 <= r <= 1.0
    ensures f1 == f2 ==> r == 1.0
    ensures (f1 == []) != (f2 == []) ==> r == 0.0
  {
    if |f1| == 0 && |f2| == 0 then 1.0
    else if |f1| == 0 || |f2| == 0 then 0.0
    else
      var common := CountCommon(f1, f2);
      var total := Max(|f1|, |f2|);
      CountCommonSelf(f1);
      RatioBounds(common, total);
      common as real / total as real
  }

  /** calculateStructuralSimilarity. */
  function StructuralSimilarity(code1: Option<string>, code2: Option<string>): (r: real)
    ensures 0.0 <= r <= 1.0
    ensures code1 == code2 ==> r == 1.0
    ensures code1.None? || code2.None? ==> (r == 1.0 <==> code1 == code2)
  {
    if code1.None? || code2.None? then (if code1 == code2 then 1.0 else 0.0)
    else FeatureSimilarity(StructuralFeatures(code1.value), StructuralFeatures(code2.value))
  }

  /** The empty-list branches of the feature similarity are never taken for
      present source text: both feature lists have at least five entries. */
  lemma StructuralSimilarityIsRatio(code1: string, code2: string)
    ensures var f1, f2 := StructuralFeatures(code1), StructuralFeatures(code2);
      StructuralSimilarity(Some(code1), Some(code2))
        == CountCommon(f1, f2) as real / Max(|f1|, |f2|) as real
  {
  }

  // ---------------------------------------------------------------------------
  // Element score

  /** calculateSimilarity: 0.4 signature + 0.3 name + 0.3 structure, capped at 1. */
  function CalculateSimilarity(
    studentSignature: Option<string>, referenceSignature: Option<string>,
    studentName: Option<string>, referenceName: Option<string>,
    studentCode: Option<string>, referenceCode: Option<string>): (r: real)
    ensures 0.0 <= r <= 1.0
    ensures (studentSignature == referenceSignature && studentName == referenceName
             && studentCode == referenceCode) ==> r == 1.0
    ensures r == 1.0 <==>
      && StringSimilarity(studentSignature, referenceSignature) == 1.0
      && StringSimilarity(studentName, referenceName) == 1.0
      && StructuralSimilarity(studentCode, referenceCode) == 1.0
    ensures studentSignature == referenceSignature && studentName == referenceName ==> r >= SignatureWeight + NameWeight
  {
    var signatureSimilarity := StringSimilarity(studentSignature, referenceSignature);
    var nameSimilarity := StringSimilarity(studentName, referenceName);
    var structuralSimilarity := StructuralSimilarity(studentCode, referenceCode);
    var overall := signatureSimilarity * SignatureWeight
                 + nameSimilarity * NameWeight
                 + structuralSimilarity * StructureWeight;
    if overall <= 1.0 then overall else 1.0
  }

  // ---------------------------------------------------------------------------
  // Token-set (Jaccard) similarity

  predicate IsWordChar(c: char) {
    ('a' <= c <= 'z') || ('A' <= c <= 'Z') || ('0' <= c <= '9') || c == '_'
  }

  /** `replaceAll("[^a-zA-Z0-9_]", " ")`. */
  function BlankNonWordChars(s: string): (r: string)
    ensures |r| == |s|
    ensures forall i :: 0 <= i < |s| ==> r[i] == (if IsWordChar(s[i]) then s[i] else ' ')
  {
    seq(|s|, i requires 0 <= i < |s| => if IsWordChar(s[i]) then s[i] else ' ')
  }

  /** tokenize: lower-case, blank out non-word characters, split on whitespace
      runs with Java's split semantics. Tokens are made of lower-case word
      characters of the text, and only the first one can be empty. */
  function Tokenize(s: string): (r: seq<string>)
    ensures forall i, j :: 0 <= i < |r| && 0 <= j < |r[i]| ==> IsWordChar(r[i][j]) && !('A' <= r[i][j] <= 'Z')
    ensures forall i :: 0 < i < |r| ==> r[i] != ""
  {
    SplitOnSpaces(BlankNonWordChars(Lower(s)))
  }

  /** The distinct tokens of a token list. */
  function TokenSet(tokens: seq<string>): set<string> {
    set t | t in tokens
  }

  /** The |A ∩ B| / |A ∪ B| ratio over two token lists' distinct tokens,
      computed as the source does (union = |A| + |B| - |A ∩ B|). */
  function TokenSetRatio(tokens1: seq<string>, tokens2: seq<string>): (r: real)
    ensures 0.0 <= r <= 1.0
    ensures tokens1 != [] && TokenSet(tokens1) == TokenSet(tokens2) ==> r == 1.0
  {
    var a := TokenSet(tokens1);
    var b := TokenSet(tokens2);
    var intersection := |a * b|;
    SubsetCardinality(a * b, a);
    SubsetCardinality(a * b, b);
    var union := |a| + |b| - intersection;
    TokenSetNonEmpty(tokens1);
    SelfIntersection(a, b);
    RatioBounds(intersection, union);
    if union > 0 then intersection as real / union as real else 0.0
  }

  lemma SelfIntersection<T>(x: set<T>, y: set<T>)
    ensures x == y ==> x * y == x
  {
  }

  lemma SubsetCardinality<T>(x: set<T>, y: set<T>)
    requires x <= y
    ensures |x| <= |y|
  {
    assert y == x + (y - x);
  }

  /** calculateJaccardSimilarity, as written: a string that starts with a
      non-word character tokenizes with a leading "" token, which then
      counts as a token of its own. */
  function JaccardSimilarity(s1: Option<string>, s2: Option<string>): (r: real)
    ensures 0.0 <= r <= 1.0
    ensures s1.None? || s2.None? ==> (r == 1.0 <==> s1 == s2)
  {
    if s1.None? || s2.None? then (if s1 == s2 then 1.0 else 0.0)
    else
      var tokens1, tokens2 := Tokenize(s1.value), Tokenize(s2.value);
      if |tokens1| == 0 && |tokens2| == 0 then 1.0
      else if |tokens1| == 0 || |tokens2| == 0 then 0.0
      else TokenSetRatio(tokens1, tokens2)
  }

  lemma TokenSetNonEmpty(tokens: seq<string>)
    ensures tokens != [] <==> TokenSet(tokens) != {}
  {
    if tokens != [] {
      assert tokens[0] in TokenSet(tokens);
    }
  }

  /** The words (maximal runs of word characters) of `s`, lower-cased. */
  function WordTokens(s: string): seq<string> {
    Words(BlankNonWordChars(Lower(s)))
  }

  /** Jaccard similarity over the words only, without the empty token. */
  function JaccardSimilarityOfWords(s1: Option<string>, s2: Option<string>): (r: real)
    ensures 0.0 <= r <= 1.0
    ensures s1.None? || s2.None? ==> (r == 1.0 <==> s1 == s2)
    ensures (s1.Some? && s2.Some? &&
             TokenSet(WordTokens(s1.value)) == TokenSet(WordTokens(s2.value))) ==> r == 1.0
  {
    if s1.None? || s2.None? then (if s1 == s2 then 1.0 else 0.0)
    else
      var tokens1, tokens2 := WordTokens(s1.value), WordTokens(s2.value);
      if |tokens1| == 0 && |tokens2| == 0 then 1.0
      else if |tokens1| == 0 || |tokens2| == 0 then
        TokenSetNonEmpty(tokens1);
        TokenSetNonEmpty(tokens2);
        0.0
      else TokenSetRatio(tokens1, tokens2)
  }

  lemma TokenizeSingleWord()
    ensures Tokenize("a") == ["a"] && WordTokens("a") == ["a"]
  {
    assert !IsSpace('a');
    assert LeadingWord("a"[1..]) == [];
    assert LeadingWord("a") == "a";
    assert Words("a"[1..]) == [];
    assert Words("a") == ["a"];
    assert BlankNonWordChars(Lower("a")) == "a";
    assert !HasSpace("a");
  }

  lemma TokenizeParenWord()
    ensures Tokenize("(a") == ["", "a"] && WordTokens("(a") == ["a"]
  {
    var blanked := BlankNonWordChars(Lower("(a"));
    assert blanked == " a";
    assert IsSpace(blanked[0]);
    TokenizeSingleWord();
    assert blanked[1..] == "a";
    assert Words(blanked) == ["a"];
  }

  /** "(a" and "a" have the same single word, yet the as-written similarity
      is 0.5: "(a" tokenizes as ["", "a"]. */
  lemma JaccardCountsEmptyToken()
    ensures Tokenize("(a") == ["", "a"]
    ensures JaccardSimilarity(Some("(a"), Some("a")) == 0.5
    ensures JaccardSimilarityOfWords(Some("(a"), Some("a")) == 1.0
  {
    TokenizeSingleWord();
    TokenizeParenWord();
    var a, b := TokenSet(["", "a"]), TokenSet(["a"]);
    assert a == {"", "a"} && b == {"a"};
    assert a * b == {"a"};
  }
}
