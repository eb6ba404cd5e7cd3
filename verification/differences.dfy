/** SimilarityService.findDifferences: a shallow textual explanation of how
    two signatures differ, keyed on the element type. Every check compares
    one extracted feature (access modifier, return type, parameter text,
    field type, presence of a modifier word) and appends one fixed message
    when the two sides disagree. */
module Differences {
  import opened Wrappers
  import opened Strings
  import opened Similarity

  const NullDifference := "One element is null while the other is not"
  const AccessDifference := "Different access modifiers"
  const ReturnTypeDifference := "Different return types"
  const ParameterDifference := "Different parameters"
  const StaticDifference := "Different static modifier"
  const FieldTypeDifference := "Different field types"
  const FinalDifference := "Different final modifier"
  const AbstractDifference := "Different abstract modifier"
  const InterfaceDifference := "Different class/interface type"
  const SignificantDifference := "Significant structural differences"
  const MajorDifference := "Major differences in implementation"

  // ---------------------------------------------------------------------------
  // Extractors

  /** extractAccessModifier: the first of public, private, protected found
      anywhere in the text, else "package-private". */
  function AccessModifier(signature: string): (r: string)
    ensures r in ["public", "private", "protected", "package-private"]
    ensures r == "public" <==> Contains(signature, "public")
    ensures r == "private" <==> !Contains(signature, "public") && Contains(signature, "private")
    ensures r == "protected" <==>
      !Contains(signature, "public") && !Contains(signature, "private") && Contains(signature, "protected")
  {
    if Contains(signature, "public") then "public"
    else if Contains(signature, "private") then "private"
    else if Contains(signature, "protected") then "protected"
    else "package-private"
  }

  /** The first part at index >= from + 1 that contains '(' , minus one:
      the index of the part just before it, or -1. */
  function PartBeforeParen(parts: seq<string>, from: nat): (k: int)
    ensures k == -1 || (from <= k && k + 1 < |parts| && Contains(parts[k + 1], "("))
    ensures k >= 0 ==> forall i :: from + 1 <= i <= k ==> !Contains(parts[i], "(")
    ensures k == -1 ==> forall i :: from + 1 <= i < |parts| ==> !Contains(parts[i], "(")
    decreases |parts| - from
  {
    if from + 1 >= |parts| then -1
    else if Contains(parts[from + 1], "(") then from
    else PartBeforeParen(parts, from + 1)
  }

  /** No part after the first contains '('. */
  predicate NoParenPart(parts: seq<string>) {
    forall i :: 1 <= i < |parts| ==> !Contains(parts[i], "(")
  }

  /** Part `k + 1` is the first part after the first that contains '('. */
  predicate FirstParenPart(parts: seq<string>, k: int) {
    && 0 <= k && k + 1 < |parts| && Contains(parts[k + 1], "(")
    && forall i :: 1 <= i <= k ==> !Contains(parts[i], "(")
  }

  /** extractReturnType: the whitespace-separated part right before the first
      part (other than the first) that contains '(', else "". */
  function ReturnType(signature: string): (r: string)
    ensures forall i :: 0 <= i < |r| ==> !IsSpace(r[i])
    ensures NoParenPart(SplitOnSpaces(signature)) ==> r == ""
    ensures forall k :: FirstParenPart(SplitOnSpaces(signature), k) ==> r == SplitOnSpaces(signature)[k]
  {
    var parts := SplitOnSpaces(signature);
    var k := PartBeforeParen(parts, 0);
    if k == -1 then "" else parts[k]
  }

  /** extractFieldType: the second-to-last whitespace-separated part, else "".
      Since `split` adds at most a leading empty part, this is the
      second-to-last word of the signature, or "" with fewer than two words. */
  function FieldType(signature: string): (r: string)
    ensures forall i :: 0 <= i < |r| ==> !IsSpace(r[i])
    ensures |Words(signature)| >= 2 ==> r == Words(signature)[|Words(signature)| - 2]
    ensures |Words(signature)| < 2 ==> r == ""
  {
    var parts := SplitOnSpaces(signature);
    if |parts| >= 2 then parts[|parts| - 2] else ""
  }

  /** The text `r` lies between the first '(' of `signature`, at `k`, and the
      first ')', which comes right after `r`. */
  predicate FirstBracketsAround(signature: string, k: int, r: string) {
    && 0 <= k && k + |r| + 1 < |signature|
    && signature[k] == '(' && '(' !in signature[..k]
    && signature[k + 1..k + 1 + |r|] == r
    && signature[k + 1 + |r|] == ')' && ')' !in signature[..k + 1 + |r|]
  }

  /** The first '(' of `signature` is at `k` and its first ')' at `e`, after it. */
  predicate FirstBracketsAt(signature: string, k: int, e: int) {
    && 0 <= k < e < |signature|
    && signature[k] == '(' && '(' !in signature[..k]
    && signature[e] == ')' && ')' !in signature[..e]
  }

  /** extractParameters: the text strictly between the first '(' and the
      first ')', or "" unless the first '(' comes before the first ')'. */
  function Parameters(signature: string): (r: string)
    ensures ')' !in r
    ensures r != "" ==> Contains(signature, "(" + r + ")")
    ensures !Contains(signature, "(") || !Contains(signature, ")") ==> r == ""
    ensures (exists j :: 0 <= j < |signature| && signature[j] == ')' && '(' !in signature[..j]) ==> r == ""
    ensures r != "" ==> exists k :: FirstBracketsAround(signature, k, r)
    ensures forall k, e :: FirstBracketsAt(signature, k, e) ==> r == signature[k + 1..e]
  {
    var start := IndexOf(signature, "(", 0);
    var end := IndexOf(signature, ")", 0);
    FirstBrackets(signature, start, end);
    if start != -1 && end != -1 && end > start then
      ParametersBetweenParens(signature, start, end);
      signature[start + 1..end]
    else ""
  }

  /** `i` is where `indexOf` finds `c` in `s`: -1 when absent, else its
      first position. */
  predicate FirstIndex(s: string, c: char, i: int) {
    && -1 <= i
    && (i == -1 <==> c !in s)
    && (i >= 0 ==> i < |s| && s[i] == c && c !in s[..i])
  }

  /** The positions `indexOf` finds for '(' and ')' are the first brackets:
      any first '(' followed by the first ')' is at them, and a ')' with no
      '(' before it puts the first ')' first. */
  lemma FirstBrackets(signature: string, start: int, end: int)
    requires start == IndexOf(signature, "(", 0) && end == IndexOf(signature, ")", 0)
    ensures forall k, e :: FirstBracketsAt(signature, k, e) ==> k == start && e == end
    ensures (exists j :: 0 <= j < |signature| && signature[j] == ')' && '(' !in signature[..j]) ==>
      !(start != -1 && end != -1 && end > start)
    ensures start != -1 && end != -1 && end > start ==>
      FirstBracketsAround(signature, start, signature[start + 1..end])
  {
    IndexOfChar(signature, '(');
    IndexOfChar(signature, ')');
    FirstBracketsOf(signature, start, end);
  }

  /** FirstBrackets, from what `indexOf` promises about each bracket. */
  lemma FirstBracketsOf(signature: string, start: int, end: int)
    requires FirstIndex(signature, '(', start) && FirstIndex(signature, ')', end)
    ensures forall k, e :: FirstBracketsAt(signature, k, e) ==> k == start && e == end
    ensures (exists j :: 0 <= j < |signature| && signature[j] == ')' && '(' !in signature[..j]) ==>
      !(start != -1 && end != -1 && end > start)
    ensures start != -1 && end != -1 && end > start ==>
      FirstBracketsAround(signature, start, signature[start + 1..end])
  {
    forall k, e | FirstBracketsAt(signature, k, e)
      ensures k == start && e == end
    {
      assert signature[k] in signature && signature[e] in signature;
    }
    if start != -1 && end != -1 && end > start {
      forall j | 0 <= j < |signature| && signature[j] == ')'
        ensures '(' in signature[..j]
      {
        assert signature[..j][start] == '(';
      }
      var r := signature[start + 1..end];
      assert signature[start + 1..start + 1 + |r|] == r;
    }
  }

  lemma ParametersBetweenParens(signature: string, start: int, end: int)
    requires start == IndexOf(signature, "(", 0) && end == IndexOf(signature, ")", 0)
    requires start != -1 && end != -1 && end > start
    ensures ')' !in signature[start + 1..end]
    ensures Contains(signature, "(" + signature[start + 1..end] + ")")
  {
    var r := signature[start + 1..end];
    assert signature[start..start + 1] == "(";
    assert signature[end..end + 1] == ")";
    forall i | 0 <= i < |r|
      ensures r[i] != ')'
    {
      assert r[i] == signature[start + 1 + i];
      assert !MatchAt(signature, ")", start + 1 + i);
      assert signature[start + 1 + i..start + 2 + i] == [r[i]];
    }
    var w := "(" + r + ")";
    assert signature[start..end + 1] == signature[start..start + 1] + signature[start + 1..end + 1];
    assert signature[start + 1..end + 1] == r + signature[end..end + 1];
    assert signature[start..end + 1] == w;
    assert MatchAt(signature, w, start);
    ContainsIff(signature, w);
  }

  // ---------------------------------------------------------------------------
  // Per-type checks

  /** One message if the check fails, none otherwise. */
  function Check(differs: bool, message: string): (r: seq<string>)
    ensures r == (if differs then [message] else [])
  {
    if differs then [message] else []
  }

  /** The messages have pairwise distinct lengths within each per-type check. */
  lemma MessageLengths()
    ensures |AccessDifference| == 26 && |ReturnTypeDifference| == 22 && |ParameterDifference| == 20
    ensures |StaticDifference| == 25 && |FieldTypeDifference| == 21 && |FinalDifference| == 24
    ensures |AbstractDifference| == 27 && |InterfaceDifference| == 30
  {
  }

  /** Four checks with distinct messages: each message appears exactly when
      its own check fails. */
  lemma FourChecks(b1: bool, b2: bool, b3: bool, b4: bool, m1: string, m2: string, m3: string, m4: string)
    requires |m1| != |m2| && |m1| != |m3| && |m1| != |m4| && |m2| != |m3| && |m2| != |m4| && |m3| != |m4|
    ensures var r := Check(b1, m1) + Check(b2, m2) + Check(b3, m3) + Check(b4, m4);
      && (m1 in r <==> b1) && (m2 in r <==> b2) && (m3 in r <==> b3) && (m4 in r <==> b4)
  {
  }

  /** For methods each message is present exactly when its check fails. */
  function MethodDifferences(m1: string, m2: string): (r: seq<string>)
    ensures |r| <= 4
    ensures AccessDifference in r <==> AccessModifier(m1) != AccessModifier(m2)
    ensures ReturnTypeDifference in r <==> ReturnType(m1) != ReturnType(m2)
    ensures ParameterDifference in r <==> Parameters(m1) != Parameters(m2)
    ensures StaticDifference in r <==> Contains(m1, "static") != Contains(m2, "static")
  {
    MessageLengths();
    FourChecks(AccessModifier(m1) != AccessModifier(m2), ReturnType(m1) != ReturnType(m2), Parameters(m1) != Parameters(m2), Contains(m1, "static") != Contains(m2, "static"), AccessDifference, ReturnTypeDifference, ParameterDifference, StaticDifference);
    Check(AccessModifier(m1) != AccessModifier(m2), AccessDifference)
    + Check(ReturnType(m1) != ReturnType(m2), ReturnTypeDifference)
    + Check(Parameters(m1) != Parameters(m2), ParameterDifference)
    + Check(Contains(m1, "static") != Contains(m2, "static"), StaticDifference)
  }

  /** For fields each message is present exactly when its check fails. */
  function FieldDifferences(f1: string, f2: string): (r: seq<string>)
    ensures |r| <= 4
    ensures AccessDifference in r <==> AccessModifier(f1) != AccessModifier(f2)
    ensures FieldTypeDifference in r <==> FieldType(f1) != FieldType(f2)
    ensures StaticDifference in r <==> Contains(f1, "static") != Contains(f2, "static")
    ensures FinalDifference in r <==> Contains(f1, "final") != Contains(f2, "final")
  {
    MessageLengths();
    FourChecks(AccessModifier(f1) != AccessModifier(f2), FieldType(f1) != FieldType(f2), Contains(f1, "static") != Contains(f2, "static"), Contains(f1, "final") != Contains(f2, "final"), AccessDifference, FieldTypeDifference, StaticDifference, FinalDifference);
    Check(AccessModifier(f1) != AccessModifier(f2), AccessDifference)
    + Check(FieldType(f1) != FieldType(f2), FieldTypeDifference)
    + Check(Contains(f1, "static") != Contains(f2, "static"), StaticDifference)
    + Check(Contains(f1, "final") != Contains(f2, "final"), FinalDifference)
  }

  /** For classes each message is present exactly when its check fails. */
  function ClassDifferences(c1: string, c2: string): (r: seq<string>)
    ensures |r| <= 4
    ensures AccessDifference in r <==> AccessModifier(c1) != AccessModifier(c2)
    ensures AbstractDifference in r <==> Contains(c1, "abstract") != Contains(c2, "abstract")
    ensures FinalDifference in r <==> Contains(c1, "final") != Contains(c2, "final")
    ensures InterfaceDifference in r <==> Contains(c1, "interface") != Contains(c2, "interface")
  {
    MessageLengths();
    FourChecks(AccessModifier(c1) != AccessModifier(c2), Contains(c1, "abstract") != Contains(c2, "abstract"), Contains(c1, "final") != Contains(c2, "final"), Contains(c1, "interface") != Contains(c2, "interface"), AccessDifference, AbstractDifference, FinalDifference, InterfaceDifference);
    Check(AccessModifier(c1) != AccessModifier(c2), AccessDifference)
    + Check(Contains(c1, "abstract") != Contains(c2, "abstract"), AbstractDifference)
    + Check(Contains(c1, "final") != Contains(c2, "final"), FinalDifference)
    + Check(Contains(c1, "interface") != Contains(c2, "interface"), InterfaceDifference)
  }

  /** For constructors each message is present exactly when its check fails. */
  function ConstructorDifferences(c1: string, c2: string): (r: seq<string>)
    ensures |r| <= 2
    ensures AccessDifference in r <==> AccessModifier(c1) != AccessModifier(c2)
    ensures ParameterDifference in r <==> Parameters(c1) != Parameters(c2)
  {
    MessageLengths();
    Check(AccessModifier(c1) != AccessModifier(c2), AccessDifference)
    + Check(Parameters(c1) != Parameters(c2), ParameterDifference)
  }

  /** Unknown element types: thresholds on the plain string similarity. */
  function GenericDifferences(s1: string, s2: string): (r: seq<string>)
    ensures |r| <= 2
    ensures MajorDifference in r ==> SignificantDifference in r
  {
    var similarity := StringSimilarity(Some(s1), Some(s2));
    Check(similarity < 0.8, SignificantDifference) + Check(similarity < 0.5, MajorDifference)
  }

  /** findDifferences. The element type is matched case-insensitively
      against the four element type names; anything else is generic. */
  function FindDifferences(s1: Option<string>, s2: Option<string>, elementType: string): (r: seq<string>)
    ensures s1 == s2 ==> r == []
    ensures (s1.None? || s2.None?) && s1 != s2 ==> r == [NullDifference]
    ensures |r| <= 4
    ensures Lower(elementType) == "constructor" || Lower(elementType) !in ["method", "field", "class"] ==> |r| <= 2
  {
    if s1.None? || s2.None? then (if s1 != s2 then [NullDifference] else [])
    else if s1.value == s2.value then []
    else
      var kind := Lower(elementType);
      if kind == "method" then MethodDifferences(s1.value, s2.value)
      else if kind == "field" then FieldDifferences(s1.value, s2.value)
      else if kind == "class" then ClassDifferences(s1.value, s2.value)
      else if kind == "constructor" then ConstructorDifferences(s1.value, s2.value)
      else GenericDifferences(s1.value, s2.value)
  }

  // ---------------------------------------------------------------------------
  // What the messages mean

  lemma LowerTypeNames()
    ensures Lower("METHOD") == "method" && Lower("FIELD") == "field"
    ensures Lower("CLASS") == "class" && Lower("CONSTRUCTOR") == "constructor"
  {
  }

  /** For different signatures, a type name selects the matching per-type
      check whatever its letter case; the enum's upper-case names are
      instances. */
  lemma DispatchOnTypeName(s1: string, s2: string, t: string)
    requires s1 != s2
    ensures Lower(t) == "method" ==> FindDifferences(Some(s1), Some(s2), t) == MethodDifferences(s1, s2)
    ensures Lower(t) == "field" ==> FindDifferences(Some(s1), Some(s2), t) == FieldDifferences(s1, s2)
    ensures Lower(t) == "class" ==> FindDifferences(Some(s1), Some(s2), t) == ClassDifferences(s1, s2)
    ensures Lower(t) == "constructor" ==> FindDifferences(Some(s1), Some(s2), t) == ConstructorDifferences(s1, s2)
    ensures FindDifferences(Some(s1), Some(s2), "METHOD") == MethodDifferences(s1, s2)
    ensures FindDifferences(Some(s1), Some(s2), "FIELD") == FieldDifferences(s1, s2)
    ensures FindDifferences(Some(s1), Some(s2), "CLASS") == ClassDifferences(s1, s2)
    ensures FindDifferences(Some(s1), Some(s2), "CONSTRUCTOR") == ConstructorDifferences(s1, s2)
  {
    LowerTypeNames();
  }

  /** Generic messages: "Significant…" below 0.8, "Major…" below 0.5 as well,
      so the second never appears without the first. */
  lemma GenericMessagesIff(s1: string, s2: string, elementType: string)
    requires s1 != s2
    requires Lower(elementType) !in ["method", "field", "class", "constructor"]
    ensures var r := FindDifferences(Some(s1), Some(s2), elementType);
      var similarity := StringSimilarity(Some(s1), Some(s2));
      && (SignificantDifference in r <==> similarity < 0.8)
      && (MajorDifference in r <==> similarity < 0.5)
      && (MajorDifference in r ==> r == [SignificantDifference, MajorDifference])
  {
  }

  /** Shared facts about the bare call texts used below. */
  lemma BareCallFeatures(sig: string)
    requires sig == "a()" || sig == "b()"
    ensures AccessModifier(sig) == "package-private"
    ensures ReturnType(sig) == ""
    ensures Parameters(sig) == ""
    ensures !Contains(sig, "static")
  {
    assert !HasSpace(sig);
    assert SplitOnSpaces(sig) == [sig];
    assert sig[0..1] != "(" && sig[1..2] == "(";
    assert IndexOf(sig, "(", 1) == 1;
    assert IndexOf(sig, "(", 0) == 1;
    assert sig[0..1] != ")" && sig[1..2] != ")" && sig[2..3] == ")";
    assert IndexOf(sig, ")", 2) == 2;
    assert IndexOf(sig, ")", 1) == 2;
    assert IndexOf(sig, ")", 0) == 2;
  }

  /** Distinct signatures can still explain to no differences: the method
      checks look only at access, return type, parameters and `static`. */
  lemma DistinctMethodsWithNoDifferences()
    ensures FindDifferences(Some("a()"), Some("b()"), "METHOD") == []
  {
    DispatchOnTypeName("a()", "b()", "METHOD");
    BareCallFeatures("a()");
    BareCallFeatures("b()");
  }
}
