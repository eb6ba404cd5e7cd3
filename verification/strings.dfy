/** The handful of java.lang.String operations the services rely on, over
    `string`, a sequence of Unicode characters. Java strings count UTF-16
    code units instead; the two agree on every character of the Basic
    Multilingual Plane. Lower-casing is ASCII-only. */
module Strings {

  /** ASCII `Character.toLowerCase`: maps 'A'..'Z' to 'a'..'z', fixes the rest. */
  function LowerChar(c: char): (r: char)
    ensures 'A' <= c <= 'Z' ==> 'a' <= r <= 'z' && r as int == c as int + 32
    ensures !('A' <= c <= 'Z') ==> r == c
  {
    if 'A' <= c <= 'Z' then (c as int + 32) as char else c
  }

  /** `String.toLowerCase()` restricted to ASCII. */
  function Lower(s: string): (r: string)
    ensures |r| == |s|
    ensures forall i :: 0 <= i < |s| ==> r[i] == LowerChar(s[i])
  {
    seq(|s|, i requires 0 <= i < |s| => LowerChar(s[i]))
  }

  /** `String.valueOf(n)` for a non-negative number: its decimal digits. */
  function DecimalString(n: nat): (r: string)
    ensures |r| > 0 && forall i :: 0 <= i < |r| ==> '0' <= r[i] <= '9'
  {
    var digit := ('0' as int + n % 10) as char;
    if n < 10 then [digit] else DecimalString(n / 10) + [digit]
  }

  lemma LowerIdempotent(s: string)
    ensures Lower(Lower(s)) == Lower(s)
  {
  }

  /** Lower-casing works character by character, so it commutes with taking
      a suffix. */
  lemma LowerSuffix(s: string, n: nat)
    ensures n <= |s| ==> Lower(s)[|s| - n..] == Lower(s[|s| - n..])
  {
  }

  /** `pat` occurs in `text` starting at position `k`. */
  predicate MatchAt(text: string, pat: string, k: nat) {
    k + |pat| <= |text| && text[k..k + |pat|] == pat
  }

  /** `text.indexOf(pat, from)`: the first position at or after `from` where
      `pat` occurs, or -1. Every caller in the services passes `from <= |text|`. */
  function IndexOf(text: string, pat: string, from: nat): (r: int)
    requires from <= |text|
    ensures r == -1 || (from <= r && MatchAt(text, pat, r))
    ensures r >= 0 ==> forall k :: from <= k < r ==> !MatchAt(text, pat, k)
    ensures r == -1 ==> forall k :: from <= k <= |text| ==> !MatchAt(text, pat, k)
    decreases |text| - from
  {
    if from + |pat| > |text| then -1
    else if text[from..from + |pat|] == pat then from
    else IndexOf(text, pat, from + 1)
  }

  /** `s.contains(sub)`, which Java defines as `indexOf(sub) >= 0`. */
  predicate Contains(s: string, sub: string) {
    IndexOf(s, sub, 0) >= 0
  }

  lemma ContainsIff(s: string, sub: string)
    ensures Contains(s, sub) <==> exists k :: 0 <= k <= |s| && MatchAt(s, sub, k)
  {
    if Contains(s, sub) {
      var k := IndexOf(s, sub, 0);
      assert MatchAt(s, sub, k);
    }
  }

  /** `indexOf` of a one-character pattern is the first position holding that
      character, or -1 when there is none. */
  lemma IndexOfChar(text: string, c: char)
    ensures var r := IndexOf(text, [c], 0);
      && (r == -1 <==> c !in text)
      && (r >= 0 ==> r < |text| && text[r] == c && c !in text[..r])
  {
    var r := IndexOf(text, [c], 0);
    forall k | 0 <= k < |text|
      ensures MatchAt(text, [c], k) <==> text[k] == c
    {
      assert text[k..k + 1] == [text[k]];
    }
    if r >= 0 {
      assert text[r..r + 1] == [c];
      forall k | 0 <= k < r
        ensures text[..r][k] != c
      {
        assert !MatchAt(text, [c], k);
      }
    } else {
      forall k | 0 <= k < |text|
        ensures text[k] != c
      {
        assert !MatchAt(text, [c], k);
      }
    }
  }

  /** A string containing `sub` contains every character of it. */
  lemma ContainsChar(s: string, sub: string, c: char)
    requires Contains(s, sub) && c in sub
    ensures c in s
  {
    var k := IndexOf(s, sub, 0);
    var j :| 0 <= j < |sub| && sub[j] == c;
    assert s[k..k + |sub|][j] == c;
  }

  predicate StartsWith(s: string, prefix: string) {
    |prefix| <= |s| && s[..|prefix|] == prefix
  }

  predicate EndsWith(s: string, suffix: string) {
    |suffix| <= |s| && s[|s| - |suffix|..] == suffix
  }

  /** The characters matched by the regular-expression class `\s`. */
  predicate IsSpace(c: char) {
    c == ' ' || c == '\t' || c == '\n' || c as int == 11 || c as int == 12 || c == '\r'
  }

  predicate HasSpace(s: string) {
    exists i :: 0 <= i < |s| && IsSpace(s[i])
  }

  /** The longest prefix of `s` with no whitespace. */
  function LeadingWord(s: string): (w: string)
    ensures |w| <= |s| && w == s[..|w|]
    ensures forall i :: 0 <= i < |w| ==> !IsSpace(w[i])
    ensures |w| < |s| ==> IsSpace(s[|w|])
    ensures |s| > 0 && !IsSpace(s[0]) ==> |w| > 0
  {
    if |s| == 0 || IsSpace(s[0]) then [] else [s[0]] + LeadingWord(s[1..])
  }

  /** The maximal whitespace-free runs of `s`, in order. */
  function Words(s: string): (ws: seq<string>)
    ensures forall i :: 0 <= i < |ws| ==> |ws[i]| > 0
    ensures forall i, j :: 0 <= i < |ws| && 0 <= j < |ws[i]| ==> !IsSpace(ws[i][j])
    ensures forall i, j :: 0 <= i < |ws| && 0 <= j < |ws[i]| ==> ws[i][j] in s
    decreases |s|
  {
    if |s| == 0 then []
    else if IsSpace(s[0]) then Words(s[1..])
    else
      var w := LeadingWord(s);
      [w] + Words(s[|w|..])
  }

  /** `s.split("\\s+")`: Java keeps a leading empty string when `s` starts with
      whitespace, drops trailing empty strings, and returns `[s]` itself when
      the pattern never matches. */
  function SplitOnSpaces(s: string): (parts: seq<string>)
    ensures !HasSpace(s) ==> parts == [s]
    ensures HasSpace(s) ==> forall i :: 0 < i < |parts| ==> |parts[i]| > 0
    ensures forall i, j :: 0 <= i < |parts| && 0 <= j < |parts[i]| ==> !IsSpace(parts[i][j])
    ensures forall i, j :: 0 <= i < |parts| && 0 <= j < |parts[i]| ==> parts[i][j] in s
  {
    if !HasSpace(s) then [s]
    else
      var ws := Words(s);
      if ws == [] then []
      else if IsSpace(s[0]) then [""] + ws
      else ws
  }

  /** Drops the leading whitespace run of `s`. */
  function DropSpaces(s: string): (r: string)
    ensures |r| <= |s| && r == s[|s| - |r|..]
    ensures |r| > 0 ==> !IsSpace(r[0])
  {
    if |s| > 0 && IsSpace(s[0]) then DropSpaces(s[1..]) else s
  }

  /** `s.replaceAll("\\s+", " ")`: every maximal whitespace run becomes one space. */
  function CollapseSpaces(s: string): (r: string)
    ensures |r| <= |s|
    ensures forall i :: 0 <= i < |r| && IsSpace(r[i]) ==> r[i] == ' '
    ensures forall i :: 0 <= i < |r| - 1 && r[i] == ' ' ==> r[i + 1] != ' '
    ensures |r| > 0 && |s| > 0 ==> (r[0] == ' ' <==> IsSpace(s[0]))
    decreases |s|
  {
    if |s| == 0 then []
    else if IsSpace(s[0]) then
      var rest := DropSpaces(s[1..]);
      [' '] + CollapseSpaces(rest)
    else [s[0]] + CollapseSpaces(s[1..])
  }
}
