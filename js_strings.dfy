/**
 * The JavaScript string built-ins the analyzer and the query handlers rely on:
 * `trim`, `toLowerCase`, `split(/\s+/)`, `split("").reverse().join("")` and
 * `includes`. Strings are `seq<char>`, one Unicode scalar value per element.
 */
module JsStrings {

  /** The characters JavaScript's `trim` and the regex class `\s` treat as white space:
      WhiteSpace (TAB, VT, FF, SP, NBSP, ZWNBSP and the Zs category) and LineTerminator. */
  predicate IsWhitespace(c: char) {
    c == '\t' || c == '\n' || c == '\U{B}' || c == '\U{C}' || c == '\r' || c == ' '
    || c == '\U{A0}' || c == '\U{1680}' || ('\U{2000}' <= c <= '\U{200A}')
    || c == '\U{2028}' || c == '\U{2029}' || c == '\U{202F}' || c == '\U{205F}'
    || c == '\U{3000}' || c == '\U{FEFF}'
  }

  /** Regex class `\d`. */
  predicate IsDigit(c: char) {
    '0' <= c <= '9'
  }

  /** Regex class `\w`. */
  predicate IsWordChar(c: char) {
    ('a' <= c <= 'z') || ('A' <= c <= 'Z') || IsDigit(c) || c == '_'
  }

  /** `toLowerCase` on one character, restricted to ASCII letters. */
  function Lower(c: char): char {
    if 'A' <= c <= 'Z' then (c as int + 32) as char else c
  }

  function LowerCase(s: string): string {
    seq(|s|, i requires 0 <= i < |s| => Lower(s[i]))
  }

  /** Leading white space removed. */
  function TrimStart(s: string): (r: string)
    ensures |r| <= |s| && r == s[|s| - |r|..]
    ensures forall i :: 0 <= i < |s| - |r| ==> IsWhitespace(s[i])
    ensures r == [] || !IsWhitespace(r[0])
  {
    if s != [] && IsWhitespace(s[0]) then TrimStart(s[1..]) else s
  }

  /** Trailing white space removed. */
  function TrimEnd(s: string): (r: string)
    ensures |r| <= |s| && r == s[..|r|]
    ensures forall i :: |r| <= i < |s| ==> IsWhitespace(s[i])
    ensures r == [] || !IsWhitespace(r[|r| - 1])
  {
    if s != [] && IsWhitespace(s[|s| - 1]) then TrimEnd(s[..|s| - 1]) else s
  }

  /** `r` is what is left of `s` once the white space before position `lead`
      and after position `lead + |r|` is cut off, and `r` neither starts nor ends
      with white space. */
  ghost predicate IsTrimOf(s: string, r: string, lead: nat) {
    && lead + |r| <= |s|
    && r == s[lead..lead + |r|]
    && (forall i :: 0 <= i < lead ==> IsWhitespace(s[i]))
    && (forall i :: lead + |r| <= i < |s| ==> IsWhitespace(s[i]))
    && (r == [] || (!IsWhitespace(r[0]) && !IsWhitespace(r[|r| - 1])))
  }

  /** JavaScript `String.prototype.trim`. */
  function Trim(s: string): (r: string)
    ensures IsTrimOf(s, r, |s| - |TrimStart(s)|)
  {
    TrimBothEnds(s);
    TrimEnd(TrimStart(s))
  }

  lemma TrimBothEnds(s: string)
    ensures IsTrimOf(s, TrimEnd(TrimStart(s)), |s| - |TrimStart(s)|)
  {
    var t := TrimStart(s);
    TrimOfSuffix(s, t, TrimEnd(t), |s| - |t|);
  }

  /** Trimming the end of what is left after the leading white space trims both ends. */
  lemma TrimOfSuffix(s: string, t: string, r: string, lead: nat)
    requires lead <= |s| && t == s[lead..] && (forall i :: 0 <= i < lead ==> IsWhitespace(s[i]))
    requires t == [] || !IsWhitespace(t[0])
    requires |r| <= |t| && r == t[..|r|] && (forall i :: |r| <= i < |t| ==> IsWhitespace(t[i]))
    requires r == [] || !IsWhitespace(r[|r| - 1])
    ensures IsTrimOf(s, r, lead)
  {
    assert r == s[lead..lead + |r|];
    forall i | lead + |r| <= i < |s| ensures IsWhitespace(s[i]) {
      assert s[i] == t[i - lead];
    }
    if r != [] {
      assert r[0] == t[0];
    }
  }

  /** `TrimStart` cuts exactly the leading white space, up to the first other character. */
  lemma {:induction false} TrimStartAt(s: string, k: nat)
    requires k <= |s| && (forall i :: 0 <= i < k ==> IsWhitespace(s[i]))
    requires k == |s| || !IsWhitespace(s[k])
    ensures TrimStart(s) == s[k..]
  {
    if k > 0 {
      assert s[1..][k - 1..] == s[k..];
      TrimStartAt(s[1..], k - 1);
    }
  }

  /** `TrimEnd` cuts exactly the trailing white space, back to the last other character. */
  lemma {:induction false} TrimEndAt(s: string, k: nat)
    requires k <= |s| && (forall i :: k <= i < |s| ==> IsWhitespace(s[i]))
    requires k == 0 || !IsWhitespace(s[k - 1])
    ensures TrimEnd(s) == s[..k]
    decreases |s|
  {
    if k < |s| {
      var u := s[..|s| - 1];
      assert u[..k] == s[..k];
      TrimEndAt(u, k);
    }
  }

  /** A string without white space at either end is its own trim. */
  lemma {:induction false} TrimOfTrimmed(s: string)
    requires s == [] || (!IsWhitespace(s[0]) && !IsWhitespace(s[|s| - 1]))
    ensures Trim(s) == s
  {
  }

  /** Trimming twice is trimming once. */
  lemma {:induction false} TrimIdempotent(s: string)
    ensures Trim(Trim(s)) == Trim(s)
  {
    TrimOfTrimmed(Trim(s));
  }

  /** `split("").reverse().join("")`: the characters in the opposite order. */
  function Reverse(s: string): (r: string)
    ensures |r| == |s|
    ensures forall i :: 0 <= i < |s| ==> r[i] == s[|s| - 1 - i]
  {
    if s == [] then [] else Reverse(s[1..]) + [s[0]]
  }

  /** `s.split(/\s+/)`: the pieces between runs of white space, including the
      empty piece before leading or after trailing white space (and `[""]` for `""`). */
  function Split(s: string): (r: seq<string>)
    ensures |r| >= 1
    ensures r[0] == [] <==> (s == [] || IsWhitespace(s[0]))
    ensures forall k, i :: 0 <= k < |r| && 0 <= i < |r[k]| ==> !IsWhitespace(r[k][i])
    decreases |s|
  {
    if s == [] then [[]]
    else if IsWhitespace(s[0]) then [[]] + Split(TrimStart(s))
    else
      var rest := Split(s[1..]);
      [[s[0]] + rest[0]] + rest[1..]
  }

  /** `filter(Boolean).length` on a list of strings: how many are non-empty. */
  function CountNonEmpty(pieces: seq<string>): nat {
    if pieces == [] then 0
    else (if pieces[0] != [] then 1 else 0) + CountNonEmpty(pieces[1..])
  }

  /** Position `i` holds the last character of a maximal run of non-white-space characters. */
  predicate EndsRun(s: string, i: nat)
    requires i < |s|
  {
    !IsWhitespace(s[i]) && (i + 1 == |s| || IsWhitespace(s[i + 1]))
  }

  /** The number of maximal runs of non-white-space characters, counted by their last characters. */
  function RunCount(s: string): nat {
    if s == [] then 0 else (if EndsRun(s, 0) then 1 else 0) + RunCount(s[1..])
  }

  lemma {:induction false} RunCountSkipsWhitespace(s: string)
    ensures RunCount(TrimStart(s)) == RunCount(s)
    decreases |s|
  {
    if s != [] && IsWhitespace(s[0]) {
      RunCountSkipsWhitespace(s[1..]);
    }
  }

  /** The non-empty pieces of `split(/\s+/)` are exactly the maximal non-white-space runs. */
  lemma {:induction false} SplitCountsRuns(s: string)
    ensures CountNonEmpty(Split(s)) == RunCount(s)
    decreases |s|
  {
    if s == [] {
    } else if IsWhitespace(s[0]) {
      calc {
        CountNonEmpty(Split(s));
        CountNonEmpty([[]] + Split(TrimStart(s)));
        { assert ([[]] + Split(TrimStart(s)))[1..] == Split(TrimStart(s)); }
        CountNonEmpty(Split(TrimStart(s)));
        { SplitCountsRuns(TrimStart(s)); }
        RunCount(TrimStart(s));
        { RunCountSkipsWhitespace(s); }
        RunCount(s);
      }
    } else {
      var rest := Split(s[1..]);
      SplitCountsRuns(s[1..]);
      var r := [[s[0]] + rest[0]] + rest[1..];
      assert r[1..] == rest[1..];
      assert CountNonEmpty(r) == 1 + CountNonEmpty(rest[1..]);
      assert CountNonEmpty(rest) == (if rest[0] != [] then 1 else 0) + CountNonEmpty(rest[1..]);
      assert EndsRun(s, 0) <==> rest[0] == [];
    }
  }

  /** There is no run exactly when every character is white space. */
  lemma {:induction false} RunCountZero(s: string)
    ensures RunCount(s) == 0 <==> forall i :: 0 <= i < |s| ==> IsWhitespace(s[i])
  {
    if s != [] {
      RunCountZero(s[1..]);
      if !IsWhitespace(s[0]) && RunCount(s[1..]) == 0 {
        assert EndsRun(s, 0) by {
          if |s| > 1 { assert IsWhitespace(s[1..][0]); }
        }
      }
      assert forall i :: 1 <= i < |s| ==> s[i] == s[1..][i - 1];
    }
  }

  /** Every run has a character of its own. */
  lemma {:induction false} RunCountAtMostLength(s: string)
    ensures RunCount(s) <= |s|
  {
    if s != [] {
      RunCountAtMostLength(s[1..]);
    }
  }

  /** `sub` occurs in `s` starting at position `i`. */
  predicate OccursAt(s: string, sub: string, i: nat) {
    i + |sub| <= |s| && s[i..i + |sub|] == sub
  }

  /** `s.includes(sub)`. */
  function Includes(s: string, sub: string): (r: bool)
    ensures r <==> exists i: nat :: OccursAt(s, sub, i)
    decreases |s|
  {
    if |sub| > |s| then false
    else if s[..|sub|] == sub then (assert OccursAt(s, sub, 0); true)
    else
      var r := Includes(s[1..], sub);
      if r then
        var i: nat :| OccursAt(s[1..], sub, i);
        assert OccursAt(s, sub, i + 1);
        r
      else
        assert forall i: nat :: OccursAt(s, sub, i) ==> i > 0 && OccursAt(s[1..], sub, i - 1);
        r
  }
}
