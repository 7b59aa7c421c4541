/**
 * The routes of index.js as transitions of the service state: the record store
 * and the module-level `strings` array, which the routes update side by side.
 */
module Service {
  import opened Wrappers
  import opened JsStrings
  import opened Analyzer
  import opened Store
  import opened Records
  import opened Query

  /** `strings.findIndex((s) => s.value === value)`: the first record with exactly this raw value, or -1. */
  function FindIndex(strings: seq<StringRecord>, value: string): (r: int)
    ensures -1 <= r < |strings|
    ensures r == -1 <==> forall i :: 0 <= i < |strings| ==> strings[i].value != value
    ensures r >= 0 ==> strings[r].value == value && forall i :: 0 <= i < r ==> strings[i].value != value
  {
    if strings == [] then -1
    else if strings[0].value == value then 0
    else
      var k := FindIndex(strings[1..], value);
      if k == -1 then -1 else k + 1
  }

  /** `strings.splice(start, 1)`: a negative start counts from the end (clamped to 0),
      a start past the end removes nothing. */
  function SpliceOne<T>(s: seq<T>, start: int): seq<T> {
    var k := if start < 0 then (if |s| + start < 0 then 0 else |s| + start)
             else (if start > |s| then |s| else start);
    if k < |s| then s[..k] + s[k + 1..] else s
  }

  /** Splicing at a valid index removes exactly that element; at -1 it removes the last one. */
  lemma SpliceOneRemoves<T>(s: seq<T>, start: int)
    ensures 0 <= start < |s| ==> SpliceOne(s, start) == s[..start] + s[start + 1..]
    ensures start == -1 && s != [] ==> SpliceOne(s, start) == s[..|s| - 1]
    ensures -|s| <= start < |s| ==> |SpliceOne(s, start)| == |s| - 1
  {
    if 0 <= start < |s| {
      assert SpliceOne(s, start) == s[..start] + s[start + 1..];
    } else if -|s| <= start < 0 {
      var k := |s| + start;
      assert 0 <= k < |s|;
      assert SpliceOne(s, start) == s[..k] + s[k + 1..];
      if start == -1 {
        assert s[k + 1..] == [];
        assert s[..k] + [] == s[..|s| - 1];
      }
    }
  }

  /** What `DELETE /strings/:value` does to `strings`: it removes the first record with
      exactly this raw value, or, when none has it, the last record. */
  function RemoveByValue(strings: seq<StringRecord>, value: string): (r: seq<StringRecord>)
    ensures strings != [] ==> |r| == |strings| - 1
    ensures FindIndex(strings, value) == -1 && strings != [] ==> r == strings[..|strings| - 1]
    ensures FindIndex(strings, value) >= 0 ==>
      var k := FindIndex(strings, value); r == strings[..k] + strings[k + 1..]
  {
    SpliceOneRemoves(strings, FindIndex(strings, value));
    SpliceOne(strings, FindIndex(strings, value))
  }

  /** A record as POST builds it: its properties are the analysis of its raw value and its id is their hash. */
  ghost predicate WellFormed(r: StringRecord, sha: string -> Digest) {
    r.properties == Analysis(r.value, sha) && r.id == r.properties.sha256Hash
  }

  /** Every stored record is well formed and filed under its own id. */
  ghost predicate StoreWellFormed(entries: map<Digest, StringRecord>, sha: string -> Digest) {
    forall h {:trigger WellFormed(entries[h], sha)} :: h in entries ==> entries[h].id == h && WellFormed(entries[h], sha)
  }

  lemma SaveKeepsWellFormed(entries: map<Digest, StringRecord>, r: StringRecord, sha: string -> Digest)
    requires StoreWellFormed(entries, sha) && WellFormed(r, sha)
    ensures StoreWellFormed(entries[r.id := r], sha)
  {
    var m := entries[r.id := r];
    forall h | h in m ensures m[h].id == h && WellFormed(m[h], sha) {
      if h != r.id {
        assert m[h] == entries[h] && WellFormed(entries[h], sha);
      }
    }
  }

  lemma DeleteKeepsWellFormed(entries: map<Digest, StringRecord>, h: Digest, sha: string -> Digest)
    requires StoreWellFormed(entries, sha)
    ensures StoreWellFormed(entries - {h}, sha)
  {
    var m := entries - {h};
    forall k | k in m ensures m[k].id == k && WellFormed(m[k], sha) {
      assert m[k] == entries[k] && WellFormed(entries[k], sha);
    }
  }

  ghost predicate ListWellFormed(strings: seq<StringRecord>, sha: string -> Digest) {
    forall i {:trigger WellFormed(strings[i], sha)} :: 0 <= i < |strings| ==> WellFormed(strings[i], sha)
  }

  lemma AppendKeepsWellFormed(strings: seq<StringRecord>, r: StringRecord, sha: string -> Digest)
    requires ListWellFormed(strings, sha) && WellFormed(r, sha)
    ensures ListWellFormed(strings + [r], sha)
  {
    var s := strings + [r];
    forall i | 0 <= i < |s| ensures WellFormed(s[i], sha) {
      if i < |strings| {
        assert s[i] == strings[i] && WellFormed(strings[i], sha);
      }
    }
  }

  lemma SpliceKeepsWellFormed(strings: seq<StringRecord>, start: int, sha: string -> Digest)
    requires ListWellFormed(strings, sha)
    ensures ListWellFormed(SpliceOne(strings, start), sha)
  {
    var r := SpliceOne(strings, start);
    forall i | 0 <= i < |r| ensures WellFormed(r[i], sha) {
      assert r[i] in strings;
      var j :| 0 <= j < |strings| && strings[j] == r[i];
      assert WellFormed(strings[j], sha);
    }
  }

  /** What DELETE leaves behind still satisfies the service invariant: well-formed records, filed
      under their ids, and as many entries in `strings` as in the store. */
  lemma DeleteKeepsInvariant(entries: map<Digest, StringRecord>, strings: seq<StringRecord>, h: Digest, value: string, sha: string -> Digest)
    requires StoreWellFormed(entries, sha) && ListWellFormed(strings, sha)
    requires |strings| == |entries| && h in entries
    ensures StoreWellFormed(entries - {h}, sha)
    ensures ListWellFormed(RemoveByValue(strings, value), sha)
    ensures |RemoveByValue(strings, value)| == |entries - {h}|
  {
    DeleteKeepsWellFormed(entries, h, sha);
    SpliceKeepsWellFormed(strings, FindIndex(strings, value), sha);
    assert (entries - {h}).Keys == entries.Keys - {h};
  }

  /** "a " and "a" have the same trim, so they hash alike. */
  lemma TrailingSpaceTrimmed(padded: string, bare: string)
    requires padded == "a " && bare == "a"
    ensures Trim(padded) == bare == Trim(bare)
  {
    assert !IsWhitespace(bare[0]) && IsWhitespace(padded[1]);
    assert TrimStart(bare) == bare && TrimEnd(bare) == bare;
    assert TrimStart(padded) == padded;
    assert padded[..1] == bare;
    assert TrimEnd(padded) == TrimEnd(bare);
  }

  /** After storing "a " and then "b", deleting "a" drops the record of "a " from the store (its
      trimmed value hashes the same) but splices "b" out of `strings`, because no record has the
      raw value "a" and a splice at -1 removes the last element: the two collections then disagree. */
  lemma RemoveByValueDropsAnotherRecord(ra: StringRecord, rb: StringRecord, value: string, sha: string -> Digest)
    requires ra.value == "a " && rb.value == "b" && value == "a"
    requires ra.id == sha(Trim(ra.value)) && ra.id != rb.id
    ensures sha(Trim(value)) == ra.id
    ensures RemoveByValue([ra, rb], value) == [ra]
    ensures Without([ra.id, rb.id], sha(Trim(value))) == [rb.id]
  {
    TrailingSpaceTrimmed(ra.value, value);
    NoRawMatchSplicesLast(ra, rb, value);
    WithoutFirstKey(ra.id, rb.id);
  }

  /** Neither "a " nor "b" is the raw value "a", so `findIndex` is -1 and the last record goes. */
  lemma NoRawMatchSplicesLast(ra: StringRecord, rb: StringRecord, value: string)
    requires ra.value == "a " && rb.value == "b" && value == "a"
    ensures RemoveByValue([ra, rb], value) == [ra]
  {
    assert ra.value != value && rb.value != value;
    assert FindIndex([ra, rb], value) == -1;
  }

  /** Deleting the first of two distinct keys leaves the second. */
  lemma WithoutFirstKey(a: Digest, b: Digest)
    requires a != b
    ensures Without([a, b], a) == [b]
  {
    assert IndexOf([a, b], a) == 0;
  }

  datatype PostOutcome =
    | MissingValue            // 400
    | WrongType               // 422
    | AlreadyExists           // 409
    | Created(record: StringRecord)  // 201
  {
    function Status(): nat {
      match this
      case MissingValue => 400
      case WrongType => 422
      case AlreadyExists => 409
      case Created(_) => 201
    }
  }

  datatype DeleteOutcome = NotFound | Deleted  // 404, 204

  /** The response of `GET /strings`. */
  datatype ListResponse = ListResponse(data: seq<StringRecord>, count: nat, filtersApplied: ListParams)

  /** The response of `GET /strings/filter-by-natural-language`. */
  datatype NlResponse = NlResponse(data: seq<StringRecord>, count: nat, original: string, parsedFilters: NlFilters)

  class StringService {
    const sha: string -> Digest
    const store: Store<StringRecord>
    var strings: seq<StringRecord>

    ghost predicate Valid()
      reads this, store
    {
      && store.Valid()
      && StoreWellFormed(store.entries, sha)
      && ListWellFormed(strings, sha)
      && |strings| == |store.entries|
    }

    constructor (sha: string -> Digest)
      ensures Valid() && fresh(store)
      ensures this.sha == sha && store.entries == map[] && strings == []
    {
      this.sha := sha;
      store := new Store<StringRecord>();
      strings := [];
    }

    /** `POST /strings`: rejects a falsy value (400), a non-string (422) and a value whose
        trimmed form is already stored (409), changing nothing; otherwise analyzes the value,
        appends the record to `strings` and saves it under its hash (201). */
    method Post(value: JsValue, createdAt: Timestamp) returns (outcome: PostOutcome)
      requires Valid()
      modifies this, store
      ensures Valid()
      ensures value.Falsy() ==> outcome == MissingValue
      ensures !value.Falsy() && !value.Str? ==> outcome == WrongType
      ensures !value.Falsy() && value.Str? ==>
        var h := sha(Trim(value.s));
        if h in old(store.entries) then outcome == AlreadyExists
        else outcome == Created(StringRecord(h, value.s, Analysis(value.s, sha), createdAt))
      ensures !outcome.Created? ==>
        strings == old(strings) && store.entries == old(store.entries) && store.order == old(store.order)
      ensures outcome.Created? ==>
        && strings == old(strings) + [outcome.record]
        && store.entries == old(store.entries)[outcome.record.id := outcome.record]
        && store.order == old(store.order) + [outcome.record.id]
    {
      if value.Falsy() {
        return MissingValue;
      }
      if !value.Str? {
        return WrongType;
      }
      var analyzed := AnalyzeString(value, sha);
      var properties := analyzed.value;
      var present := store.Exists(properties.sha256Hash);
      if present {
        return AlreadyExists;
      }
      var h := properties.sha256Hash;
      var data := StringRecord(h, value.s, properties, createdAt);
      assert h == sha(Trim(value.s));
      assert WellFormed(data, sha);
      SaveKeepsWellFormed(store.entries, data, sha);
      AppendKeepsWellFormed(strings, data, sha);
      strings := strings + [data];
      store.Save(h, data);
      outcome := Created(data);
    }

    /** `GET /strings`: the stored records, in insertion order, that meet every supplied parameter. */
    method List(params: ListParams) returns (response: ListResponse)
      requires Valid()
      ensures response.data == FilterStructured(store.Values(), params)
      ensures IsSubsequence(response.data, store.Values())
      ensures forall r :: r in response.data <==> r in store.Values() && MatchesListParams(r, params)
      ensures response.count == |response.data| && response.filtersApplied == params
    {
      var data := store.GetAll();
      StructuredFilterSpec(data, params);
      var filtered := FilterStructured(data, params);
      response := ListResponse(filtered, |filtered|, params);
    }

    /** `GET /strings/filter-by-natural-language`: the records of `strings` (not of the store)
        that meet every filter parsed from the query; a missing or unrecognized query is an error. */
    method FilterByNaturalLanguage(query: Option<string>) returns (r: Result<NlResponse, NlError>)
      requires Valid()
      ensures r.Failure? <==> Interpret(query).Failure?
      ensures r.Failure? ==> r.error == Interpret(query).error
      ensures r.Success? ==>
        var f := Interpret(query).value;
        && r.value.parsedFilters == f && r.value.original == query.value
        && r.value.data == FilterNl(strings, f)
        && IsSubsequence(r.value.data, strings)
        && (forall x :: x in r.value.data <==> x in strings && MatchesNl(x, f))
        && r.value.count == |r.value.data|
    {
      var interpreted := Interpret(query);
      if interpreted.Failure? {
        return Failure(interpreted.error);
      }
      var filters := interpreted.value;
      NlFilterSpec(strings, filters);
      var results := FilterNl(strings, filters);
      r := Success(NlResponse(results, |results|, query.value, filters));
    }

    /** The key of a raw path value: the hash `analyzeString` computes for it, that of its trim. */
    method HashKey(value: string) returns (h: Digest)
      ensures h == sha(Trim(value))
    {
      var analyzed := AnalyzeString(Str(value), sha);
      h := analyzed.value.sha256Hash;
    }

    /** `GET /strings/:value`: the record stored under the hash of the trimmed value, if any (404 otherwise). */
    method Get(value: string) returns (r: Option<StringRecord>)
      requires Valid()
      ensures r.Some? <==> sha(Trim(value)) in store.entries
      ensures r.Some? ==> r.value == store.entries[sha(Trim(value))] && r.value.id == sha(Trim(value))
    {
      var h := HashKey(value);
      r := store.GetByHash(h);
      if r.Some? {
        assert WellFormed(store.entries[h], sha);
      }
    }

    /** `DELETE /strings/:value`: 404 and no change when the hash of the trimmed value is not
        stored; otherwise removes it from the store and splices `strings` at the index of the
        exact raw value, which is the last record when no record has that raw value. */
    method Delete(value: string) returns (outcome: DeleteOutcome)
      requires Valid()
      modifies this, store
      ensures Valid()
      ensures var h := sha(Trim(value));
        && (outcome == NotFound <==> h !in old(store.entries))
        && (outcome == NotFound ==>
              strings == old(strings) && store.entries == old(store.entries) && store.order == old(store.order))
        && (outcome == Deleted ==>
              store.entries == old(store.entries) - {h}
              && store.order == Without(old(store.order), h)
              && strings == RemoveByValue(old(strings), value))
    {
      var h := HashKey(value);
      var deleted := store.Delete(h);
      if !deleted {
        return NotFound;
      }
      DeleteKeepsInvariant(old(store.entries), strings, h, value, sha);
      var index := FindIndex(strings, value);
      strings := SpliceOne(strings, index);
      outcome := Deleted;
    }
  }
}
