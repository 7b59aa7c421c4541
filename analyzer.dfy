/**
 * `analyzeString` (utils/analyzer.js): the properties of a submitted string,
 * all computed from its trimmed form.
 */
module Analyzer {
  import opened Wrappers
  import opened JsStrings

  /** Hex digest of a SHA-256 hash. */
  type Digest = string

  /** The JavaScript values a request may carry where a string is expected. */
  datatype JsValue =
    | Undefined
    | Null
    | Bool(b: bool)
    | Number(n: int)
    | Str(s: string)
    | Compound  // an array or an object

  {
    /** JavaScript falsiness (`!value`). */
    predicate Falsy() {
      Undefined? || Null? || this == Bool(false) || this == Number(0) || this == Str("")
    }
  }

  datatype AnalyzerError = NotAString

  datatype Properties = Properties(
    length: nat,
    isPalindrome: bool,
    uniqueCharacters: nat,
    wordCount: nat,
    sha256Hash: Digest,
    characterFrequencyMap: map<char, nat>)

  /** Case-insensitive comparison of a string with its reverse. */
  predicate IsPalindrome(t: string) {
    LowerCase(t) == LowerCase(Reverse(t))
  }

  /** `new Set(t).size`. */
  function UniqueCount(t: string): nat {
    |set c | c in t|
  }

  /** `t.split(/\s+/).filter(Boolean).length`. */
  function WordCount(t: string): nat {
    CountNonEmpty(Split(t))
  }

  /** The dictionary the `for…of` loop builds: each character of `t` mapped to its count. */
  function Frequencies(t: string): map<char, nat> {
    map c | c in t :: multiset(t)[c]
  }

  /** Everything `analyzeString` returns for a string value, given the hash function. */
  function Analysis(value: string, sha: string -> Digest): Properties {
    var t := Trim(value);
    Properties(|t|, IsPalindrome(t), UniqueCount(t), WordCount(t), sha(t), Frequencies(t))
  }

  /** The frequency loop: one pass over `t`, incrementing the count of each character. */
  method CharacterFrequencyMap(t: string) returns (m: map<char, nat>)
    ensures forall c :: c in m <==> c in t
    ensures forall c :: c in m ==> m[c] == multiset(t)[c]
  {
    m := map[];
    var i := 0;
    while i < |t|
      invariant 0 <= i <= |t|
      invariant forall c :: c in m <==> c in t[..i]
      invariant forall c :: c in m ==> m[c] == multiset(t[..i])[c]
    {
      var c := t[i];
      assert t[..i + 1] == t[..i] + [c];
      m := m[c := (if c in m then m[c] else 0) + 1];
      i := i + 1;
    }
    assert t[..i] == t;
  }

  /** A map with the keys and counts of the frequency loop is the frequency map. */
  lemma FrequenciesDetermined(m: map<char, nat>, t: string)
    requires forall c :: c in m <==> c in t
    requires forall c :: c in m ==> m[c] == multiset(t)[c]
    ensures m == Frequencies(t)
  {
    assert m.Keys == Frequencies(t).Keys;
  }

  /** `analyzeString(value)`: a non-string is rejected, a string is analyzed after trimming. */
  method AnalyzeString(value: JsValue, sha: string -> Digest) returns (r: Result<Properties, AnalyzerError>)
    ensures !value.Str? ==> r == Failure(NotAString)
    ensures value.Str? ==> r == Success(Analysis(value.s, sha))
  {
    if !value.Str? {
      return Failure(NotAString);
    }
    var t := Trim(value.s);
    var frequencies := CharacterFrequencyMap(t);
    FrequenciesDetermined(frequencies, t);
    r := Success(Properties(|t|, IsPalindrome(t), UniqueCount(t), WordCount(t), sha(t), frequencies));
  }

  /** Analyzing a string and analyzing its trim give the same properties. */
  lemma AnalysisOfTrim(s: string, sha: string -> Digest)
    ensures Analysis(Trim(s), sha) == Analysis(s, sha)
  {
    TrimIdempotent(s);
  }

  /** Two strings with the same trim get the same hash. */
  lemma HashOfTrim(s1: string, s2: string, sha: string -> Digest)
    requires Trim(s1) == Trim(s2)
    ensures Analysis(s1, sha).sha256Hash == Analysis(s2, sha).sha256Hash
  {
  }

  /** `length` is the trimmed length, never more than the input's. */
  lemma LengthIsTrimmedLength(s: string, sha: string -> Digest)
    ensures Analysis(s, sha).length == |Trim(s)| <= |s|
  {
  }

  /** A palindrome reads the same from both ends, up to ASCII case. */
  lemma {:induction false} PalindromeMirror(t: string)
    ensures IsPalindrome(t) <==> forall i :: 0 <= i < |t| ==> Lower(t[i]) == Lower(t[|t| - 1 - i])
  {
    if IsPalindrome(t) {
      forall i | 0 <= i < |t| ensures Lower(t[i]) == Lower(t[|t| - 1 - i]) {
        assert LowerCase(t)[i] == LowerCase(Reverse(t))[i];
      }
    }
  }

  /** The empty trimmed string counts as a palindrome (`"   "` is palindromic). */
  lemma EmptyIsPalindrome(s: string, sha: string -> Digest)
    requires Trim(s) == []
    ensures Analysis(s, sha).isPalindrome
  {
  }

  /** `word_count` counts the maximal non-white-space runs of the trimmed value. */
  lemma WordCountIsRunCount(s: string, sha: string -> Digest)
    ensures Analysis(s, sha).wordCount == RunCount(Trim(s))
  {
    SplitCountsRuns(Trim(s));
  }

  /** `word_count` is 0 exactly when the trimmed value is empty, and never exceeds `length`. */
  lemma WordCountBounds(s: string, sha: string -> Digest)
    ensures Analysis(s, sha).wordCount == 0 <==> Trim(s) == []
    ensures Analysis(s, sha).wordCount <= Analysis(s, sha).length
  {
    var t := Trim(s);
    WordCountIsRunCount(s, sha);
    RunCountZero(t);
    RunCountAtMostLength(t);
  }

  /** Each character of the trimmed value is a key of `character_frequency_map`
      mapped to its number of occurrences, which is at least 1. */
  lemma FrequencyCounts(s: string, sha: string -> Digest)
    ensures var t, m := Trim(s), Analysis(s, sha).characterFrequencyMap;
      && (forall c :: c in m <==> c in t)
      && (forall c :: c in m ==> m[c] == multiset(t)[c] >= 1)
  {
  }

  /** `unique_characters` is the number of keys of `character_frequency_map`. */
  lemma UniqueIsKeyCount(s: string, sha: string -> Digest)
    ensures Analysis(s, sha).uniqueCharacters == |Analysis(s, sha).characterFrequencyMap.Keys|
  {
    var t := Trim(s);
    assert Frequencies(t).Keys == set c | c in t;
  }

  /** `unique_characters` never exceeds `length`. */
  lemma {:induction false} DistinctAtMostLength(t: string)
    ensures UniqueCount(t) <= |t|
  {
    if t != [] {
      DistinctAtMostLength(t[1..]);
      assert (set c | c in t) == {t[0]} + set c | c in t[1..];
    }
  }

  /** The sum of the counts of a frequency map. */
  ghost function Total(m: map<char, nat>): nat
    decreases |m|
  {
    if m == map[] then 0
    else
      var c :| c in m;
      m[c] + Total(m - {c})
  }

  /** The total does not depend on which key is taken out first. */
  lemma {:induction false} TotalWithout(m: map<char, nat>, c: char)
    requires c in m
    ensures Total(m) == m[c] + Total(m - {c})
    decreases |m|
  {
    var d :| d in m && Total(m) == m[d] + Total(m - {d});
    if d != c {
      var m1 := m - {d};
      var m2 := m - {c};
      assert |m1| < |m|  by { assert m1.Keys == m.Keys - {d}; }
      assert |m2| < |m|  by { assert m2.Keys == m.Keys - {c}; }
      TotalWithout(m1, c);
      TotalWithout(m2, d);
      assert m1 - {c} == m2 - {d};
    }
  }

  /** Counting one more occurrence of a character raises the total by one. */
  lemma TotalIncrement(m: map<char, nat>, c: char)
    ensures Total(m[c := (if c in m then m[c] else 0) + 1]) == Total(m) + 1
  {
    var m' := m[c := (if c in m then m[c] else 0) + 1];
    TotalWithout(m', c);
    if c in m {
      TotalWithout(m, c);
      assert m' - {c} == m - {c};
    } else {
      assert m' - {c} == m;
    }
  }

  /** One more character at the end raises its count by one and leaves the other counts alone. */
  lemma FrequenciesSnoc(u: string, c: char)
    ensures Frequencies(u + [c]) == Frequencies(u)[c := (if c in u then multiset(u)[c] else 0) + 1]
  {
    var t := u + [c];
    assert multiset(t) == multiset(u) + multiset{c};
    var a, b := Frequencies(t), Frequencies(u)[c := (if c in u then multiset(u)[c] else 0) + 1];
    assert forall d :: d in t <==> d in u || d == c;
    assert a.Keys == b.Keys;
    forall d | d in a ensures a[d] == b[d] {
    }
  }

  /** The counts of `character_frequency_map` add up to the trimmed length. */
  lemma {:induction false} FrequencyTotal(t: string)
    ensures Total(Frequencies(t)) == |t|
    decreases |t|
  {
    if t == [] {
      assert Frequencies(t) == map[];
    } else {
      var u, c := t[..|t| - 1], t[|t| - 1];
      assert t == u + [c];
      FrequencyTotal(u);
      FrequenciesSnoc(u, c);
      var m := Frequencies(u);
      assert (if c in m then m[c] else 0) == (if c in u then multiset(u)[c] else 0);
      TotalIncrement(m, c);
    }
  }

  lemma RacecarIsPalindrome(t: string, sha: string -> Digest)
    requires t == "Racecar"
    ensures Analysis(t, sha).isPalindrome
  {
    TrimOfTrimmed(t);
    forall i | 0 <= i < |t| ensures Lower(t[i]) == Lower(t[|t| - 1 - i]) {
      assert Lower('R') == 'r';
      assert i == 0 || i == 1 || i == 2 || i == 3 || i == 4 || i == 5 || i == 6;
    }
    PalindromeMirror(t);
  }

  lemma HelloIsNotPalindrome(t: string, sha: string -> Digest)
    requires t == "hello"
    ensures !Analysis(t, sha).isPalindrome
  {
    TrimOfTrimmed(t);
    PalindromeMirror(t);
    assert Lower(t[0]) != Lower(t[4]);
  }

  /** `"  a  b   c "` has three words: its trim is `"a  b   c"`, which has three runs. */
  lemma ThreeWordsExample(s: string, sha: string -> Digest)
    requires s == "  a  b   c "
    ensures Analysis(s, sha).wordCount == 3
  {
    var t := "a  b   c";
    PaddedTrim(s, t);
    WordCountIsRunCount(s, sha);
    ThreeRuns(t);
  }

  lemma PaddedTrim(s: string, t: string)
    requires s == "  a  b   c " && t == "a  b   c"
    ensures Trim(s) == t
  {
    TrimStartAt(s, 2);
    var u := s[2..];
    assert u == t + " ";
    TrimEndAt(u, |t|);
    assert u[..|t|] == t;
  }

  lemma ThreeRuns(t: string)
    requires t == "a  b   c"
    ensures RunCount(t) == 3
  {
    var u := t[3..];
    assert u == "b   c";
    assert u[4..] == "c" && RunCount(u[4..]) == 1;
    assert u[3..][1..] == u[4..] && RunCount(u[3..]) == 1;
    assert u[2..][1..] == u[3..] && RunCount(u[2..]) == 1;
    assert u[1..][1..] == u[2..] && RunCount(u[1..]) == 1;
    assert u[1..] == u[1..] && RunCount(u) == 2;
    assert t[2..][1..] == u && RunCount(t[2..]) == 2;
    assert t[1..][1..] == t[2..] && RunCount(t[1..]) == 2;
    assert RunCount(t) == 3;
  }

  lemma AabFrequencies(t: string, sha: string -> Digest)
    requires t == "aab"
    ensures Analysis(t, sha).characterFrequencyMap == map['a' := 2, 'b' := 1]
  {
    TrimOfTrimmed(t);
    CountsOfAab(t[..1], t[..2], t);
  }

  lemma CountsOfAab(a: string, aa: string, aab: string)
    requires a == ['a'] && aa == a + ['a'] && aab == aa + ['b']
    ensures Frequencies(aab) == map['a' := 2, 'b' := 1]
  {
    assert a == [] + ['a'];
    assert Frequencies([]) == map[];
    FrequenciesSnoc([], 'a');
    FrequenciesSnoc(a, 'a');
    assert multiset(a)['a'] == 1;
    FrequenciesSnoc(aa, 'b');
    assert 'b' !in aa;
  }
}
