/**
 * The two listing paths of index.js: the structured filter of `GET /strings`
 * and the natural-language filter of `GET /strings/filter-by-natural-language`.
 * Both narrow an ordered list of records by a chain of `filter` calls.
 */
module Query {
  import opened Wrappers
  import opened JsStrings
  import opened Analyzer
  import opened Records

  /** The result of JavaScript's `Number(...)` on a query parameter. */
  datatype Num = Int(i: int) | NaN

  /** `x >= n`, `x <= n` and `x === n` against a JavaScript number: false against NaN. */
  predicate AtLeast(x: int, n: Num) { n.Int? && x >= n.i }
  predicate AtMost(x: int, n: Num) { n.Int? && x <= n.i }
  predicate Equals(x: int, n: Num) { n.Int? && x == n.i }

  /** One `filter` step of either path. */
  datatype Constraint =
    | PalindromeIs(flag: bool)
    | LengthAtLeast(bound: Num)
    | LengthAtMost(bound: Num)
    | WordsExactly(count: Num)
    | WordsAtLeast(count: Num)
    | WordsAtMost(count: Num)
    | ValueIncludes(text: string)

  predicate Holds(c: Constraint, r: StringRecord) {
    match c
    case PalindromeIs(flag) => r.properties.isPalindrome == flag
    case LengthAtLeast(n) => AtLeast(r.properties.length, n)
    case LengthAtMost(n) => AtMost(r.properties.length, n)
    case WordsExactly(n) => Equals(r.properties.wordCount, n)
    case WordsAtLeast(n) => AtLeast(r.properties.wordCount, n)
    case WordsAtMost(n) => AtMost(r.properties.wordCount, n)
    case ValueIncludes(text) => Includes(r.value, text)  // the raw, untrimmed value
  }

  predicate AllHold(cs: seq<Constraint>, r: StringRecord) {
    cs == [] || (Holds(cs[0], r) && AllHold(cs[1..], r))
  }

  /** `data.filter(...)` for one constraint. */
  function Keep(s: seq<StringRecord>, c: Constraint): seq<StringRecord> {
    if s == [] then []
    else (if Holds(c, s[0]) then [s[0]] else []) + Keep(s[1..], c)
  }

  /** The chain of `filter` calls, one constraint after the other. */
  function KeepAll(s: seq<StringRecord>, cs: seq<Constraint>): seq<StringRecord>
    decreases |cs|
  {
    if cs == [] then s else KeepAll(Keep(s, cs[0]), cs[1..])
  }

  /** `a` is `b` with some elements left out, the rest in their order. */
  predicate IsSubsequence<T(==)>(a: seq<T>, b: seq<T>)
    decreases |b|
  {
    if a == [] then true
    else if b == [] then false
    else (a[0] == b[0] && IsSubsequence(a[1..], b[1..])) || IsSubsequence(a, b[1..])
  }

  /** The reference filter: one pass keeping the records that satisfy every constraint. */
  function Select(s: seq<StringRecord>, cs: seq<Constraint>): (r: seq<StringRecord>)
    ensures |r| <= |s|
    ensures |r| == |s| <==> forall i :: 0 <= i < |s| ==> AllHold(cs, s[i])
  {
    if s == [] then []
    else
      var rest := Select(s[1..], cs);
      if AllHold(cs, s[0]) then [s[0]] + rest else rest
  }

  /** The reference filter keeps exactly the records meeting every constraint, in their order. */
  lemma {:induction false} SelectKeepsExactly(s: seq<StringRecord>, cs: seq<Constraint>)
    ensures forall x :: x in Select(s, cs) <==> x in s && AllHold(cs, x)
    ensures IsSubsequence(Select(s, cs), s)
  {
    if s != [] {
      SelectKeepsExactly(s[1..], cs);
      assert s == [s[0]] + s[1..];
      var r := Select(s, cs);
      if AllHold(cs, s[0]) {
        assert r[0] == s[0] && r[1..] == Select(s[1..], cs);
      }
    }
  }

  /** One step of the reference filter: the head is kept or dropped, then the rest is filtered. */
  lemma SelectCons(x: StringRecord, s: seq<StringRecord>, cs: seq<Constraint>)
    ensures Select([x] + s, cs) == (if AllHold(cs, x) then [x] else []) + Select(s, cs)
  {
    assert ([x] + s)[0] == x && ([x] + s)[1..] == s;
  }

  /** Filtering the concatenation of two lists is filtering each, in order. */
  lemma {:induction false} SelectAppend(a: seq<StringRecord>, b: seq<StringRecord>, cs: seq<Constraint>)
    ensures Select(a + b, cs) == Select(a, cs) + Select(b, cs)
  {
    if a == [] {
      assert a + b == b;
    } else {
      var x, rest := a[0], a[1..];
      assert a == [x] + rest && a + b == [x] + (rest + b);
      SelectAppend(rest, b, cs);
      SelectCons(x, rest + b, cs);
      SelectCons(x, rest, cs);
      var head := if AllHold(cs, x) then [x] else [];
      assert head + (Select(rest, cs) + Select(b, cs)) == (head + Select(rest, cs)) + Select(b, cs);
    }
  }

  lemma {:induction false} SelectAfterKeep(s: seq<StringRecord>, c: Constraint, cs: seq<Constraint>)
    ensures Select(Keep(s, c), cs) == Select(s, [c] + cs)
  {
    if s != [] {
      SelectAfterKeep(s[1..], c, cs);
      assert ([c] + cs)[0] == c && ([c] + cs)[1..] == cs;
      if Holds(c, s[0]) {
        var k := Keep(s, c);
        assert k == [s[0]] + Keep(s[1..], c);
        assert k[0] == s[0] && k[1..] == Keep(s[1..], c);
      } else {
        assert Keep(s, c) == Keep(s[1..], c);
      }
    }
  }

  lemma {:induction false} SelectNothing(s: seq<StringRecord>)
    ensures Select(s, []) == s
  {
    if s != [] {
      SelectNothing(s[1..]);
    }
  }

  /** A chain of filters is one filter by the conjunction of their conditions. */
  lemma {:induction false} KeepAllIsSelect(s: seq<StringRecord>, cs: seq<Constraint>)
    ensures KeepAll(s, cs) == Select(s, cs)
    decreases |cs|
  {
    if cs == [] {
      SelectNothing(s);
    } else {
      KeepAllIsSelect(Keep(s, cs[0]), cs[1..]);
      SelectAfterKeep(s, cs[0], cs[1..]);
      assert [cs[0]] + cs[1..] == cs;
    }
  }

  // ---------------------------------------------------------------------------
  // GET /strings

  /** A numeric query parameter: missing, empty (both falsy, so ignored) or given. */
  datatype NumParam = Absent | Blank | Given(n: Num)

  /** The query parameters of `GET /strings`, echoed back as `filters_applied`. */
  datatype ListParams = ListParams(
    isPalindrome: Option<string>,
    minLength: NumParam,
    maxLength: NumParam,
    wordCount: NumParam,
    containsCharacter: Option<string>)

  function OptionalStep(applies: bool, c: Constraint): seq<Constraint> {
    if applies then [c] else []
  }

  lemma {:induction false} AllHoldConcat(a: seq<Constraint>, b: seq<Constraint>, r: StringRecord)
    ensures AllHold(a + b, r) <==> AllHold(a, r) && AllHold(b, r)
  {
    if a == [] {
      assert a + b == b;
    } else {
      AllHoldConcat(a[1..], b, r);
      assert (a + b)[0] == a[0] && (a + b)[1..] == a[1..] + b;
    }
  }

  lemma AllHoldStep(applies: bool, c: Constraint, r: StringRecord)
    ensures AllHold(OptionalStep(applies, c), r) <==> (applies ==> Holds(c, r))
  {
    assert [c][1..] == [];
  }

  /** A conditional filter in front of others: the record must pass it, when it applies, and then the rest. */
  lemma AllHoldPrefix(applies: bool, c: Constraint, rest: seq<Constraint>, r: StringRecord)
    ensures AllHold(OptionalStep(applies, c) + rest, r) <==> (applies ==> Holds(c, r)) && AllHold(rest, r)
  {
    AllHoldConcat(OptionalStep(applies, c), rest, r);
    AllHoldStep(applies, c, r);
  }

  /** The filters `GET /strings` applies, in its order: `is_palindrome` whenever it is
      present, the others only when truthy. */
  function ListConstraints(p: ListParams): seq<Constraint> {
    OptionalStep(p.isPalindrome.Some?, PalindromeIs(p.isPalindrome.Some? && p.isPalindrome.value == "true"))
    + (OptionalStep(p.minLength.Given?, LengthAtLeast(if p.minLength.Given? then p.minLength.n else NaN))
    + (OptionalStep(p.maxLength.Given?, LengthAtMost(if p.maxLength.Given? then p.maxLength.n else NaN))
    + (OptionalStep(p.wordCount.Given?, WordsExactly(if p.wordCount.Given? then p.wordCount.n else NaN))
    + OptionalStep(p.containsCharacter.Some? && p.containsCharacter.value != "",
                   ValueIncludes(if p.containsCharacter.Some? then p.containsCharacter.value else "")))))
  }

  /** What a record must satisfy to be listed, parameter by parameter. */
  predicate MatchesListParams(r: StringRecord, p: ListParams) {
    && (p.isPalindrome.Some? ==> r.properties.isPalindrome == (p.isPalindrome.value == "true"))
    && (p.minLength.Given? ==> AtLeast(r.properties.length, p.minLength.n))
    && (p.maxLength.Given? ==> AtMost(r.properties.length, p.maxLength.n))
    && (p.wordCount.Given? ==> Equals(r.properties.wordCount, p.wordCount.n))
    && (p.containsCharacter.Some? && p.containsCharacter.value != "" ==> Includes(r.value, p.containsCharacter.value))
  }

  lemma ListConstraintsMeaning(p: ListParams, r: StringRecord)
    ensures AllHold(ListConstraints(p), r) <==> MatchesListParams(r, p)
  {
    var t5 := OptionalStep(p.containsCharacter.Some? && p.containsCharacter.value != "",
                           ValueIncludes(if p.containsCharacter.Some? then p.containsCharacter.value else ""));
    var t4 := OptionalStep(p.wordCount.Given?, WordsExactly(if p.wordCount.Given? then p.wordCount.n else NaN)) + t5;
    var t3 := OptionalStep(p.maxLength.Given?, LengthAtMost(if p.maxLength.Given? then p.maxLength.n else NaN)) + t4;
    var t2 := OptionalStep(p.minLength.Given?, LengthAtLeast(if p.minLength.Given? then p.minLength.n else NaN)) + t3;
    AllHoldStep(p.containsCharacter.Some? && p.containsCharacter.value != "",
                ValueIncludes(if p.containsCharacter.Some? then p.containsCharacter.value else ""), r);
    AllHoldPrefix(p.wordCount.Given?, WordsExactly(if p.wordCount.Given? then p.wordCount.n else NaN), t5, r);
    AllHoldPrefix(p.maxLength.Given?, LengthAtMost(if p.maxLength.Given? then p.maxLength.n else NaN), t4, r);
    AllHoldPrefix(p.minLength.Given?, LengthAtLeast(if p.minLength.Given? then p.minLength.n else NaN), t3, r);
    AllHoldPrefix(p.isPalindrome.Some?, PalindromeIs(p.isPalindrome.Some? && p.isPalindrome.value == "true"), t2, r);
  }

  /** The `data` of `GET /strings`: the stored records run through the filter chain. */
  function FilterStructured(s: seq<StringRecord>, p: ListParams): seq<StringRecord> {
    KeepAll(s, ListConstraints(p))
  }

  /** `GET /strings` lists, in stored order, exactly the records that meet every supplied parameter. */
  lemma StructuredFilterSpec(s: seq<StringRecord>, p: ListParams)
    ensures FilterStructured(s, p) == Select(s, ListConstraints(p))
    ensures IsSubsequence(FilterStructured(s, p), s)
    ensures forall r :: r in FilterStructured(s, p) <==> r in s && MatchesListParams(r, p)
  {
    KeepAllIsSelect(s, ListConstraints(p));
    SelectKeepsExactly(s, ListConstraints(p));
    forall r ensures AllHold(ListConstraints(p), r) <==> MatchesListParams(r, p) {
      ListConstraintsMeaning(p, r);
    }
  }

  /** Of records of lengths 3, 5 and 10, `min_length=4&max_length=9` lists only the one of length 5. */
  lemma LengthWindowExample(r3: StringRecord, r5: StringRecord, r10: StringRecord, p: ListParams)
    requires r3.properties.length == 3 && r5.properties.length == 5 && r10.properties.length == 10
    requires p == ListParams(None, Given(Int(4)), Given(Int(9)), Absent, None)
    ensures FilterStructured([r3, r5, r10], p) == [r5]
  {
    var s := [r3, r5, r10];
    var cs := ListConstraints(p);
    KeepAllIsSelect(s, cs);
    ListConstraintsMeaning(p, r3);
    ListConstraintsMeaning(p, r5);
    ListConstraintsMeaning(p, r10);
    assert !AllHold(cs, r3) && AllHold(cs, r5) && !AllHold(cs, r10);
    assert [r10] == [r10] + [];
    SelectCons(r10, [], cs);
    SelectCons(r5, [r10], cs);
    SelectCons(r3, [r5, r10], cs);
    assert [r5] + [r10] == [r5, r10] && [r3] + [r5, r10] == s;
  }

  // ---------------------------------------------------------------------------
  // GET /strings/filter-by-natural-language

  /** A regular expression of the parser, reduced to what it matches:
      `before (\d+) after` or `before (\w)`. */
  datatype Pattern = NumberIn(before: string, after: string) | WordCharAfter(before: string)

  datatype Capture = Numeral(n: nat) | Letter(c: char)

  const AtLeastWords := NumberIn("at least ", " word")           // /at least (\d+) words?/
  const AtMostWords := NumberIn("at most ", " word")             // /at most (\d+) words?/
  const LongerThan := NumberIn("longer than ", " character")     // /longer than (\d+) characters?/
  const ShorterThan := NumberIn("shorter than ", " character")   // /shorter than (\d+) characters?/
  const ContainingLetter := WordCharAfter("containing the letter ")  // /containing the letter (\w)/

  /** The end of the run of digits that starts at `j`. */
  function DigitRunEnd(s: string, j: nat): (k: nat)
    requires j <= |s|
    ensures j <= k <= |s|
    ensures forall i :: j <= i < k ==> IsDigit(s[i])
    ensures k == |s| || !IsDigit(s[k])
    decreases |s| - j
  {
    if j < |s| && IsDigit(s[j]) then DigitRunEnd(s, j + 1) else j
  }

  /** `parseInt` of a string of decimal digits. */
  function DecimalValue(ds: string): nat
    requires forall i :: 0 <= i < |ds| ==> IsDigit(ds[i])
  {
    if ds == [] then 0
    else
      var last := ds[|ds| - 1];
      assert IsDigit(last);
      DecimalValue(ds[..|ds| - 1]) * 10 + (last as int - '0' as int)
  }

  /** The match of `p` starting exactly at position `i`, if any. The greedy `\d+`
      takes the whole run of digits; giving digits back cannot help, since `after`
      would then have to start with a digit. */
  function MatchAt(s: string, i: nat, p: Pattern): Option<Capture> {
    match p
    case NumberIn(before, after) =>
      if OccursAt(s, before, i) then
        var j := i + |before|;
        var k := DigitRunEnd(s, j);
        if j < k && OccursAt(s, after, k) then Some(Numeral(DecimalValue(s[j..k]))) else None
      else None
    case WordCharAfter(before) =>
      var j := i + |before|;
      if OccursAt(s, before, i) && j < |s| && IsWordChar(s[j]) then Some(Letter(s[j])) else None
  }

  /** The leftmost position at or after `from` where `p` matches. */
  function LeftmostMatch(s: string, p: Pattern, from: nat): (r: Option<nat>)
    ensures r.Some? ==> from <= r.value <= |s| && MatchAt(s, r.value, p).Some?
    ensures r.Some? ==> forall i :: from <= i < r.value ==> MatchAt(s, i, p).None?
    ensures r.None? ==> forall i :: from <= i <= |s| ==> MatchAt(s, i, p).None?
    decreases |s| + 1 - from
  {
    if from > |s| then None
    else if MatchAt(s, from, p).Some? then Some(from)
    else LeftmostMatch(s, p, from + 1)
  }

  /** `s.match(p)`: the capture of the leftmost match. */
  function Search(s: string, p: Pattern): Option<Capture> {
    match LeftmostMatch(s, p, 0)
    case Some(i) => MatchAt(s, i, p)
    case None => None
  }

  function NumberFound(s: string, p: Pattern): Option<int> {
    match Search(s, p)
    case Some(Numeral(n)) => Some(n)
    case _ => None
  }

  function LetterFound(s: string, p: Pattern): Option<string> {
    match Search(s, p)
    case Some(Letter(c)) => Some([c])
    case _ => None
  }

  /** The digit run is determined by where it starts and where the digits stop. */
  lemma {:induction false} DigitRunEndAt(s: string, j: nat, k: nat)
    requires j <= k <= |s|
    requires forall i :: j <= i < k ==> IsDigit(s[i])
    requires k == |s| || !IsDigit(s[k])
    ensures DigitRunEnd(s, j) == k
    decreases k - j
  {
    if j < k {
      DigitRunEndAt(s, j + 1, k);
    }
  }

  /** No match of `p` starts before the first occurrence of its leading text. */
  lemma NoEarlierStart(s: string, p: Pattern, i: nat)
    requires !OccursAt(s, p.before, i)
    ensures MatchAt(s, i, p).None?
  {
  }

  /** When the leading text of `p` first appears where `p` matches, that match is the one found. */
  lemma {:induction false} SearchFindsFirst(s: string, p: Pattern, at: nat)
    requires at <= |s| && MatchAt(s, at, p).Some?
    requires forall i :: 0 <= i < at ==> !OccursAt(s, p.before, i)
    ensures Search(s, p) == MatchAt(s, at, p)
  {
    forall i | 0 <= i < at ensures MatchAt(s, i, p).None? {
      NoEarlierStart(s, p, i);
    }
    assert LeftmostMatch(s, p, 0) == Some(at);
  }

  /** Every occurrence of `before` in `pre + before + rest` that starts inside `pre`
      lies inside `pre + before` minus its last character. */
  lemma {:induction false} NoEarlierOccurrence(pre: string, before: string, rest: string)
    requires before != []
    requires !Includes(pre + before[..|before| - 1], before)
    ensures forall i :: 0 <= i < |pre| ==> !OccursAt(pre + before + rest, before, i)
  {
    var s := pre + before + rest;
    var t := pre + before[..|before| - 1];
    forall i | 0 <= i < |pre| ensures !OccursAt(s, before, i) {
      if OccursAt(s, before, i) {
        assert forall k :: 0 <= k < |t| ==> t[k] == s[k];
        assert t[i..i + |before|] == s[i..i + |before|];
        assert OccursAt(t, before, i);
      }
    }
  }

  /** A number pattern whose leading text is followed by digits and then by its trailing text matches, capturing those digits. */
  lemma {:induction false} NumberMatchAt(s: string, at: nat, before: string, ds: string, after: string)
    requires OccursAt(s, before, at)
    requires ds != [] && forall i :: 0 <= i < |ds| ==> IsDigit(ds[i])
    requires OccursAt(s, ds, at + |before|)
    requires after != [] && !IsDigit(after[0]) && OccursAt(s, after, at + |before| + |ds|)
    ensures MatchAt(s, at, NumberIn(before, after)) == Some(Numeral(DecimalValue(ds)))
  {
    var j := at + |before|;
    var k := j + |ds|;
    assert forall i :: j <= i < k ==> s[i] == ds[i - j];
    assert s[k] == after[0];
    DigitRunEndAt(s, j, k);
  }

  /** `before N after…` at the first occurrence of `before` yields the number N. */
  lemma {:induction false} NumberPatternFound(pre: string, before: string, ds: string, after: string, post: string)
    requires before != [] && after != [] && !IsDigit(after[0])
    requires ds != [] && forall i :: 0 <= i < |ds| ==> IsDigit(ds[i])
    requires !Includes(pre + before[..|before| - 1], before)
    ensures NumberFound(pre + before + ds + after + post, NumberIn(before, after)) == Some(DecimalValue(ds))
  {
    var s := pre + before + ds + after + post;
    var at := |pre|;
    assert s == pre + before + (ds + after + post);
    NoEarlierOccurrence(pre, before, ds + after + post);
    assert OccursAt(s, before, at) by {
      assert s[at..at + |before|] == before;
    }
    assert OccursAt(s, ds, at + |before|) by {
      assert s == (pre + before) + ds + (after + post);
    }
    assert OccursAt(s, after, at + |before| + |ds|) by {
      assert s == (pre + before + ds) + after + post;
    }
    NumberMatchAt(s, at, before, ds, after);
    SearchFindsFirst(s, NumberIn(before, after), at);
  }

  /** `containing the letter c` at its first occurrence yields `c`. */
  lemma {:induction false} LetterPatternFound(pre: string, c: char, post: string)
    requires IsWordChar(c)
    requires !Includes(pre + ContainingLetter.before[..|ContainingLetter.before| - 1], ContainingLetter.before)
    ensures LetterFound(pre + ContainingLetter.before + [c] + post, ContainingLetter) == Some([c])
  {
    var before, rest := ContainingLetter.before, [c] + post;
    var s := pre + before + rest;
    assert pre + before + [c] + post == s;
    NoEarlierOccurrence(pre, before, rest);
    OccursBetween(pre, before, rest);
    assert s[|pre| + |before|] == rest[0] == c;
    assert MatchAt(s, |pre|, ContainingLetter) == Some(Letter(c));
    SearchFindsFirst(s, ContainingLetter, |pre|);
  }

  /** The `filters` object the parser builds; a missing field is `None`. */
  datatype NlFilters = NlFilters(
    isPalindrome: Option<bool>,
    wordCount: Option<int>,
    minWordCount: Option<int>,
    maxWordCount: Option<int>,
    minLength: Option<int>,
    maxLength: Option<int>,
    containsCharacter: Option<string>)
  {
    /** `Object.keys(filters).length === 0`. */
    predicate IsEmpty() {
      isPalindrome.None? && wordCount.None? && minWordCount.None? && maxWordCount.None?
      && minLength.None? && maxLength.None? && containsCharacter.None?
    }
  }

  /** The seven patterns, each setting its own field, over the lower-cased query. */
  function ParseLowered(lower: string): NlFilters {
    NlFilters(
      isPalindrome := if Includes(lower, "palindromic") then Some(true) else None,
      wordCount := if Includes(lower, "single word") then Some(1) else None,
      minWordCount := NumberFound(lower, AtLeastWords),
      maxWordCount := NumberFound(lower, AtMostWords),
      minLength := var n := NumberFound(lower, LongerThan); if n.Some? then Some(n.value + 1) else None,
      maxLength := var n := NumberFound(lower, ShorterThan); if n.Some? then Some(n.value - 1) else None,
      containsCharacter := LetterFound(lower, ContainingLetter))
  }

  /** "longer than N characters" sets `min_length` to N + 1: a strict bound made inclusive. */
  lemma LongerThanPattern(pre: string, ds: string, post: string)
    requires ds != [] && forall i :: 0 <= i < |ds| ==> IsDigit(ds[i])
    requires !Includes(pre + "longer than", "longer than ")
    ensures var f := ParseLowered(pre + "longer than " + ds + " character" + post);
      f.minLength.Some? && f.minLength.value == DecimalValue(ds) + 1
  {
    var before, after := LongerThan.before, LongerThan.after;
    var s := pre + before + ds + after + post;
    assert before[..|before| - 1] == "longer than";
    NumberPatternFound(pre, before, ds, after, post);
  }

  /** "shorter than N characters" sets `max_length` to N - 1: a strict bound made inclusive. */
  lemma ShorterThanPattern(pre: string, ds: string, post: string)
    requires ds != [] && forall i :: 0 <= i < |ds| ==> IsDigit(ds[i])
    requires !Includes(pre + "shorter than", "shorter than ")
    ensures var f := ParseLowered(pre + "shorter than " + ds + " character" + post);
      f.maxLength.Some? && f.maxLength.value == DecimalValue(ds) - 1
  {
    var before, after := ShorterThan.before, ShorterThan.after;
    var s := pre + before + ds + after + post;
    assert before[..|before| - 1] == "shorter than";
    NumberPatternFound(pre, before, ds, after, post);
  }

  /** "at least N words" sets the lower word-count bound to N. */
  lemma AtLeastWordsPattern(pre: string, ds: string, post: string)
    requires ds != [] && forall i :: 0 <= i < |ds| ==> IsDigit(ds[i])
    requires !Includes(pre + "at least", "at least ")
    ensures var f := ParseLowered(pre + "at least " + ds + " word" + post);
      f.minWordCount.Some? && f.minWordCount.value == DecimalValue(ds)
  {
    var before, after := AtLeastWords.before, AtLeastWords.after;
    assert before[..|before| - 1] == "at least";
    NumberPatternFound(pre, before, ds, after, post);
  }

  /** "at most N words" sets the upper word-count bound to N. */
  lemma AtMostWordsPattern(pre: string, ds: string, post: string)
    requires ds != [] && forall i :: 0 <= i < |ds| ==> IsDigit(ds[i])
    requires !Includes(pre + "at most", "at most ")
    ensures var f := ParseLowered(pre + "at most " + ds + " word" + post);
      f.maxWordCount.Some? && f.maxWordCount.value == DecimalValue(ds)
  {
    var before, after := AtMostWords.before, AtMostWords.after;
    assert before[..|before| - 1] == "at most";
    NumberPatternFound(pre, before, ds, after, post);
  }

  /** "containing the letter c" sets `contains_character` to the one character `c`. */
  lemma LetterPattern(pre: string, c: char, post: string)
    requires IsWordChar(c)
    requires !Includes(pre + "containing the letter", "containing the letter ")
    ensures ParseLowered(pre + "containing the letter " + [c] + post).containsCharacter == Some([c])
  {
    assert ContainingLetter.before[..|ContainingLetter.before| - 1] == "containing the letter";
    LetterPatternFound(pre, c, post);
  }

  datatype NlError = MissingQuery | UnparsableQuery

  /** Reading the `query` parameter: missing or empty is rejected, a query no pattern
      recognizes is rejected, anything else yields its filters. */
  function Interpret(query: Option<string>): (r: Result<NlFilters, NlError>)
    ensures (query.None? || query.value == "") ==> r == Failure(MissingQuery)
    ensures r.Success? ==> !r.value.IsEmpty()
    ensures query.Some? && query.value != "" ==>
      (r == Failure(UnparsableQuery) <==> ParseLowered(LowerCase(query.value)).IsEmpty())
    ensures r.Success? ==> r.value == ParseLowered(LowerCase(query.value))
  {
    if query.None? || query.value == "" then Failure(MissingQuery)
    else
      var filters := ParseLowered(LowerCase(query.value));
      if filters.IsEmpty() then Failure(UnparsableQuery) else Success(filters)
  }

  /** The query is lower-cased before it is matched, so a parsed `contains_character` is always
      one word character that is not an upper-case ASCII letter; the filter that uses it is
      case-sensitive. */
  lemma NlLetterIsLowerWordChar(q: Option<string>)
    requires Interpret(q).Success? && Interpret(q).value.containsCharacter.Some?
    ensures var cc := Interpret(q).value.containsCharacter.value;
      |cc| == 1 && IsWordChar(cc[0]) && !('A' <= cc[0] <= 'Z')
  {
    var lower := LowerCase(q.value);
    var i :| LeftmostMatch(lower, ContainingLetter, 0) == Some(i);
    assert lower[i + |ContainingLetter.before|] == Lower(q.value[i + |ContainingLetter.before|]);
  }

  /** A text cannot occur in a string that lacks one of its characters. */
  lemma MissingCharacter(s: string, sub: string, c: char)
    requires c in sub
    ensures c !in s ==> forall i: nat :: !OccursAt(s, sub, i)
  {
    forall i: nat | OccursAt(s, sub, i) ensures c in s {
      var k :| 0 <= k < |sub| && sub[k] == c;
      assert s[i + k] == s[i..i + |sub|][k];
    }
  }

  /** Nor can a pattern whose leading text holds a character the string lacks. */
  lemma NoMatchWithout(s: string, p: Pattern, c: char)
    requires c in p.before
    ensures c !in s ==> Search(s, p).None?
  {
    MissingCharacter(s, p.before, c);
    if c !in s {
      assert LeftmostMatch(s, p, 0).None?;
    }
  }

  /** A lower-cased query without 'a', 'p' or 'r' matches none of the seven patterns. */
  lemma NothingParsedWithout(lower: string)
    requires 'a' !in lower && 'p' !in lower && 'r' !in lower
    ensures ParseLowered(lower).IsEmpty()
  {
    MissingCharacter(lower, "palindromic", 'p');
    MissingCharacter(lower, "single word", 'r');
    NoMatchWithout(lower, AtLeastWords, 'a');
    NoMatchWithout(lower, AtMostWords, 'a');
    NoMatchWithout(lower, LongerThan, 'a');
    NoMatchWithout(lower, ShorterThan, 'a');
    NoMatchWithout(lower, ContainingLetter, 'a');
  }

  /** The characters `x` and `y` stand side by side at position `j` of `s`. */
  predicate PairAt(s: string, j: int, x: char, y: char) {
    0 <= j && j + 1 < |s| && s[j] == x && s[j + 1] == y
  }

  /** `x` is never directly followed by `y` in `s`. */
  predicate LacksPair(s: string, x: char, y: char) {
    forall j :: 0 <= j < |s| ==> !PairAt(s, j, x, y)
  }

  /** Two texts that lack a pair, joined where the pair does not form, still lack it. */
  lemma LacksPairConcat(a: string, b: string, x: char, y: char)
    requires LacksPair(a, x, y) && LacksPair(b, x, y)
    requires a == [] || b == [] || a[|a| - 1] != x || b[0] != y
    ensures LacksPair(a + b, x, y)
  {
    var s := a + b;
    forall j | 0 <= j < |s| ensures !PairAt(s, j, x, y) {
      if j + 1 < |a| {
        assert s[j] == a[j] && s[j + 1] == a[j + 1] && !PairAt(a, j, x, y);
      } else if j + 1 == |a| {
        assert s[j] == a[j] && (j + 1 < |s| ==> s[j + 1] == b[0]);
      } else if j + 1 < |s| {
        assert s[j] == b[j - |a|] && s[j + 1] == b[j + 1 - |a|] && !PairAt(b, j - |a|, x, y);
      }
    }
  }

  /** A text cannot occur where two of its adjacent characters never stand side by side. */
  lemma MissingPair(s: string, sub: string, k: nat, x: char, y: char)
    requires k + 1 < |sub| && sub[k] == x && sub[k + 1] == y
    requires forall j :: k <= j <= |s| - |sub| + k ==> !PairAt(s, j, x, y)
    ensures forall i: nat :: !OccursAt(s, sub, i)
    ensures !Includes(s, sub)
  {
    forall i: nat ensures !OccursAt(s, sub, i) {
      if i + |sub| <= |s| {
        assert s[i..i + |sub|][k] == s[i + k] && s[i..i + |sub|][k + 1] == s[i + k + 1];
        assert !PairAt(s, i + k, x, y);
      }
    }
  }

  /** Nor can a pattern whose leading text has such a pair. */
  lemma NoMatchWithoutPair(s: string, p: Pattern, k: nat, x: char, y: char)
    requires k + 1 < |p.before| && p.before[k] == x && p.before[k + 1] == y
    requires LacksPair(s, x, y)
    ensures Search(s, p).None?
  {
    MissingPair(s, p.before, k, x, y);
    assert LeftmostMatch(s, p, 0).None?;
  }

  /** Lower-case letters other than 'w', digits and spaces: text that lower-casing leaves alone. */
  predicate PlainLower(s: string) {
    forall i :: 0 <= i < |s| ==> (('a' <= s[i] <= 'z' && s[i] != 'w') || s[i] == ' ' || IsDigit(s[i]))
  }

  lemma PlainLowerConcat(a: string, b: string)
    requires PlainLower(a) && PlainLower(b)
    ensures PlainLower(a + b)
  {
    var s := a + b;
    forall i | 0 <= i < |s| ensures ('a' <= s[i] <= 'z' && s[i] != 'w') || s[i] == ' ' || IsDigit(s[i]) {
      if i < |a| {
        assert s[i] == a[i];
      } else {
        assert s[i] == b[i - |a|];
      }
    }
  }

  lemma PlainLowerUnchanged(s: string)
    requires PlainLower(s)
    ensures LowerCase(s) == s && 'w' !in s
  {
  }

  /** The pairs that rule out the patterns the example query does not use: "le" (at least),
      "mo" (at most), "sh" (shorter than), "co" (containing the letter) and "lo" (longer than). */
  predicate ExamplePiece(s: string) {
    && PlainLower(s)
    && LacksPair(s, 'l', 'e') && LacksPair(s, 'm', 'o') && LacksPair(s, 's', 'h') && LacksPair(s, 'c', 'o')
  }

  lemma ExamplePieceConcat(a: string, b: string)
    requires ExamplePiece(a) && ExamplePiece(b) && a != [] && b != [] && a[|a| - 1] == ' '
    ensures ExamplePiece(a + b)
  {
    PlainLowerConcat(a, b);
    LacksPairConcat(a, b, 'l', 'e');
    LacksPairConcat(a, b, 'm', 'o');
    LacksPairConcat(a, b, 's', 'h');
    LacksPairConcat(a, b, 'c', 'o');
  }

  /** The five pieces of the example query, each checked on its own. */
  lemma ExamplePieceA(s: string)
    requires s == "strings that are "
    ensures ExamplePiece(s) && LacksPair(s, 'l', 'o')
  {
  }

  lemma ExamplePieceB(s: string)
    requires s == "palindromic "
    ensures ExamplePiece(s) && LacksPair(s, 'l', 'o')
  {
  }

  lemma ExamplePieceC(s: string)
    requires s == "and "
    ensures ExamplePiece(s) && LacksPair(s, 'l', 'o')
  {
  }

  lemma ExamplePieceD(s: string)
    requires s == "longer than "
    ensures ExamplePiece(s)
  {
  }

  lemma ExamplePieceE(s: string)
    requires s == "5 characters"
    ensures ExamplePiece(s)
  {
  }

  /** The example query, assembled from its pieces. */
  lemma ExampleQueryFacts(q: string, pre: string)
    requires q == "strings that are palindromic and longer than 5 characters"
    requires pre == "strings that are palindromic and "
    ensures q == pre + "longer than " + "5" + " character" + "s"
    ensures ExamplePiece(q) && LowerCase(q) == q && 'w' !in q
    ensures Includes(q, "palindromic")
    ensures forall j :: 0 <= j <= |pre| - 1 ==> !PairAt(pre + "longer than", j, 'l', 'o')
  {
    ExampleSplit(q, pre);
    ExamplePrefix(pre, "strings that are ", "palindromic ", "and ");
    ExampleWhole(q, pre, "longer than ", "5 characters");
    ExamplePalindromic(q, pre);
    LongerThanFirst(pre);
  }

  lemma ExampleSplit(q: string, pre: string)
    requires q == "strings that are palindromic and longer than 5 characters"
    requires pre == "strings that are palindromic and "
    ensures pre == "strings that are " + "palindromic " + "and "
    ensures q == pre + "longer than " + "5 characters"
    ensures q == pre + "longer than " + "5" + " character" + "s"
  {
    ExampleSplitTail(q, pre);
    assert "5 characters" == "5" + " character" + "s";
  }

  lemma ExampleSplitTail(q: string, pre: string)
    requires q == "strings that are palindromic and longer than 5 characters"
    requires pre == "strings that are palindromic and "
    ensures q == pre + "longer than " + "5 characters"
  {
  }

  lemma ExampleWhole(q: string, pre: string, d: string, e: string)
    requires ExamplePiece(pre) && pre != [] && pre[|pre| - 1] == ' '
    requires d == "longer than " && e == "5 characters" && q == pre + d + e
    ensures ExamplePiece(q) && LowerCase(q) == q && 'w' !in q
  {
    ExamplePieceD(d);
    ExamplePieceE(e);
    ExamplePieceConcat(pre, d);
    ExamplePieceConcat(pre + d, e);
    PlainLowerUnchanged(q);
  }

  lemma ExamplePrefix(pre: string, a: string, b: string, c: string)
    requires a == "strings that are " && b == "palindromic " && c == "and " && pre == a + b + c
    ensures ExamplePiece(pre) && LacksPair(pre, 'l', 'o') && pre != [] && pre[|pre| - 1] == ' '
  {
    ExamplePieceA(a);
    ExamplePieceB(b);
    ExamplePieceC(c);
    ExamplePieceConcat(a, b);
    ExamplePieceConcat(a + b, c);
    LacksPairConcat(a, b, 'l', 'o');
    LacksPairConcat(a + b, c, 'l', 'o');
  }

  lemma ExamplePalindromic(q: string, pre: string)
    requires pre == "strings that are palindromic and " && q == pre + "longer than " + "5" + " character" + "s"
    ensures Includes(q, "palindromic")
  {
    var head, rest := "strings that are ", " and " + "longer than " + "5" + " character" + "s";
    assert pre == head + "palindromic" + " and ";
    assert q == head + "palindromic" + rest;
    OccursBetween(head, "palindromic", rest);
  }

  /** A text occurs in a concatenation right after what precedes it. */
  lemma OccursBetween(a: string, b: string, c: string)
    ensures OccursAt(a + b + c, b, |a|)
  {
    assert (a + b + c)[|a|..|a| + |b|] == b;
  }

  /** In `pre + "longer than"`, "lo" first stands where "longer" starts. */
  lemma LongerThanFirst(pre: string)
    requires LacksPair(pre, 'l', 'o') && pre != [] && pre[|pre| - 1] == ' '
    ensures forall j :: 0 <= j <= |pre| - 1 ==> !PairAt(pre + "longer than", j, 'l', 'o')
  {
    var t := pre + "longer than";
    forall j | 0 <= j <= |pre| - 1 ensures !PairAt(t, j, 'l', 'o') {
      assert t[j] == pre[j];
      if j + 1 < |pre| {
        assert t[j + 1] == pre[j + 1] && !PairAt(pre, j, 'l', 'o');
      }
    }
  }

  /** "strings that are palindromic and longer than 5 characters" is read as
      `is_palindrome = true` and `min_length = 6`, and nothing else. */
  lemma PalindromicLongerExample(q: string)
    requires q == "strings that are palindromic and longer than 5 characters"
    ensures Interpret(Some(q)) == Success(NlFilters(Some(true), None, None, None, Some(6), None, None))
  {
    var pre := "strings that are palindromic and ";
    ExampleQueryFacts(q, pre);
    ExampleWordFilters(q);
    ExampleSizeFilters(q, pre);
  }

  lemma ExampleWordFilters(q: string)
    requires ExamplePiece(q) && Includes(q, "palindromic") && 'w' !in q
    ensures var f := ParseLowered(q);
      f.isPalindrome == Some(true) && f.wordCount.None? && f.minWordCount.None? && f.maxWordCount.None?
  {
    MissingCharacter(q, "single word", 'w');
    NoMatchWithoutPair(q, AtLeastWords, 3, 'l', 'e');
    NoMatchWithoutPair(q, AtMostWords, 3, 'm', 'o');
  }

  lemma ExampleSizeFilters(q: string, pre: string)
    requires ExamplePiece(q) && q == pre + "longer than " + "5" + " character" + "s"
    requires forall j :: 0 <= j <= |pre| - 1 ==> !PairAt(pre + "longer than", j, 'l', 'o')
    ensures var f := ParseLowered(q);
      f.minLength == Some(6) && f.maxLength.None? && f.containsCharacter.None?
  {
    NoMatchWithoutPair(q, ShorterThan, 0, 's', 'h');
    NoMatchWithoutPair(q, ContainingLetter, 0, 'c', 'o');
    ExampleLongerThan(q, pre);
  }

  lemma ExampleLongerThan(q: string, pre: string)
    requires q == pre + "longer than " + "5" + " character" + "s"
    requires forall j :: 0 <= j <= |pre| - 1 ==> !PairAt(pre + "longer than", j, 'l', 'o')
    ensures NumberFound(q, LongerThan) == Some(5)
  {
    MissingPair(pre + "longer than", "longer than ", 0, 'l', 'o');
    assert LongerThan.before[..|LongerThan.before| - 1] == "longer than";
    assert "5"[0] == '5';
    NumberPatternFound(pre, LongerThan.before, "5", LongerThan.after, "s");
    assert DecimalValue("5") == 5;
  }

  /** "show me something cool" matches none of the seven patterns and is rejected as unparsable. */
  lemma UnparsableExample(q: string)
    requires q == "show me something cool"
    ensures Interpret(Some(q)) == Failure(UnparsableQuery)
  {
    var lower := LowerCase(q);
    forall i | 0 <= i < |q| ensures lower[i] != 'a' && lower[i] != 'p' && lower[i] != 'r' {
      assert q[i] in "show me somethingcl";
    }
    NothingParsedWithout(lower);
  }

  /** The filters the natural-language path applies, in its order: the palindrome and
      word-count filters, then the length and letter filters. */
  function NlConstraints(f: NlFilters): seq<Constraint> {
    NlCountConstraints(f) + NlSizeConstraints(f)
  }

  function NlCountConstraints(f: NlFilters): seq<Constraint> {
    OptionalStep(f.isPalindrome.Some?, PalindromeIs(f.isPalindrome.Some? && f.isPalindrome.value))
    + (OptionalStep(f.wordCount.Some?, WordsExactly(Int(if f.wordCount.Some? then f.wordCount.value else 0)))
    + (OptionalStep(f.minWordCount.Some?, WordsAtLeast(Int(if f.minWordCount.Some? then f.minWordCount.value else 0)))
    + OptionalStep(f.maxWordCount.Some?, WordsAtMost(Int(if f.maxWordCount.Some? then f.maxWordCount.value else 0)))))
  }

  function NlSizeConstraints(f: NlFilters): seq<Constraint> {
    OptionalStep(f.minLength.Some?, LengthAtLeast(Int(if f.minLength.Some? then f.minLength.value else 0)))
    + (OptionalStep(f.maxLength.Some?, LengthAtMost(Int(if f.maxLength.Some? then f.maxLength.value else 0)))
    + OptionalStep(f.containsCharacter.Some?, ValueIncludes(if f.containsCharacter.Some? then f.containsCharacter.value else "")))
  }

  /** What a record must satisfy under parsed filters, field by field; the exact,
      lower and upper word-count bounds apply independently. */
  predicate MatchesNl(r: StringRecord, f: NlFilters) {
    && (f.isPalindrome.Some? ==> r.properties.isPalindrome == f.isPalindrome.value)
    && (f.wordCount.Some? ==> r.properties.wordCount == f.wordCount.value)
    && (f.minWordCount.Some? ==> r.properties.wordCount >= f.minWordCount.value)
    && (f.maxWordCount.Some? ==> r.properties.wordCount <= f.maxWordCount.value)
    && (f.minLength.Some? ==> r.properties.length >= f.minLength.value)
    && (f.maxLength.Some? ==> r.properties.length <= f.maxLength.value)
    && (f.containsCharacter.Some? ==> Includes(r.value, f.containsCharacter.value))
  }

  lemma NlCountMeaning(f: NlFilters, r: StringRecord)
    ensures AllHold(NlCountConstraints(f), r) <==>
      && (f.isPalindrome.Some? ==> r.properties.isPalindrome == f.isPalindrome.value)
      && (f.wordCount.Some? ==> r.properties.wordCount == f.wordCount.value)
      && (f.minWordCount.Some? ==> r.properties.wordCount >= f.minWordCount.value)
      && (f.maxWordCount.Some? ==> r.properties.wordCount <= f.maxWordCount.value)
  {
    var t4 := OptionalStep(f.maxWordCount.Some?, WordsAtMost(Int(if f.maxWordCount.Some? then f.maxWordCount.value else 0)));
    var t3 := OptionalStep(f.minWordCount.Some?, WordsAtLeast(Int(if f.minWordCount.Some? then f.minWordCount.value else 0))) + t4;
    var t2 := OptionalStep(f.wordCount.Some?, WordsExactly(Int(if f.wordCount.Some? then f.wordCount.value else 0))) + t3;
    AllHoldStep(f.maxWordCount.Some?, WordsAtMost(Int(if f.maxWordCount.Some? then f.maxWordCount.value else 0)), r);
    AllHoldPrefix(f.minWordCount.Some?, WordsAtLeast(Int(if f.minWordCount.Some? then f.minWordCount.value else 0)), t4, r);
    AllHoldPrefix(f.wordCount.Some?, WordsExactly(Int(if f.wordCount.Some? then f.wordCount.value else 0)), t3, r);
    AllHoldPrefix(f.isPalindrome.Some?, PalindromeIs(f.isPalindrome.Some? && f.isPalindrome.value), t2, r);
  }

  lemma NlSizeMeaning(f: NlFilters, r: StringRecord)
    ensures AllHold(NlSizeConstraints(f), r) <==>
      && (f.minLength.Some? ==> r.properties.length >= f.minLength.value)
      && (f.maxLength.Some? ==> r.properties.length <= f.maxLength.value)
      && (f.containsCharacter.Some? ==> Includes(r.value, f.containsCharacter.value))
  {
    var t7 := OptionalStep(f.containsCharacter.Some?, ValueIncludes(if f.containsCharacter.Some? then f.containsCharacter.value else ""));
    var t6 := OptionalStep(f.maxLength.Some?, LengthAtMost(Int(if f.maxLength.Some? then f.maxLength.value else 0))) + t7;
    AllHoldStep(f.containsCharacter.Some?, ValueIncludes(if f.containsCharacter.Some? then f.containsCharacter.value else ""), r);
    AllHoldPrefix(f.maxLength.Some?, LengthAtMost(Int(if f.maxLength.Some? then f.maxLength.value else 0)), t7, r);
    AllHoldPrefix(f.minLength.Some?, LengthAtLeast(Int(if f.minLength.Some? then f.minLength.value else 0)), t6, r);
  }

  /** The natural-language filters, applied one after another, keep a record exactly when it meets every parsed filter. */
  lemma NlConstraintsMeaning(f: NlFilters, r: StringRecord)
    ensures AllHold(NlConstraints(f), r) <==> MatchesNl(r, f)
  {
    AllHoldConcat(NlCountConstraints(f), NlSizeConstraints(f), r);
    NlCountMeaning(f, r);
    NlSizeMeaning(f, r);
  }

  /** The `data` of the natural-language path. */
  function FilterNl(s: seq<StringRecord>, f: NlFilters): seq<StringRecord> {
    KeepAll(s, NlConstraints(f))
  }

  /** Appending one record to the list adds it to the natural-language result exactly when it
      matches, at the end, and leaves the earlier matches as they were. */
  lemma NlFilterAppend(s: seq<StringRecord>, r: StringRecord, f: NlFilters)
    ensures FilterNl(s + [r], f) == FilterNl(s, f) + (if MatchesNl(r, f) then [r] else [])
  {
    KeepAllIsSelect(s + [r], NlConstraints(f));
    KeepAllIsSelect(s, NlConstraints(f));
    SelectAppend(s, [r], NlConstraints(f));
    SelectCons(r, [], NlConstraints(f));
    assert [r] + [] == [r];
    NlConstraintsMeaning(f, r);
  }

  /** The natural-language path keeps, in order, exactly the records meeting every parsed filter. */
  lemma NlFilterSpec(s: seq<StringRecord>, f: NlFilters)
    ensures FilterNl(s, f) == Select(s, NlConstraints(f))
    ensures IsSubsequence(FilterNl(s, f), s)
    ensures forall r :: r in FilterNl(s, f) <==> r in s && MatchesNl(r, f)
  {
    KeepAllIsSelect(s, NlConstraints(f));
    SelectKeepsExactly(s, NlConstraints(f));
    forall r ensures AllHold(NlConstraints(f), r) <==> MatchesNl(r, f) {
      NlConstraintsMeaning(f, r);
    }
  }
}
