# String analyzer service: a Dafny model

This project models the core of a small HTTP service that analyzes text strings and keeps the
results in memory. The model covers three parts:

- **The analyzer** (`analyzeString`). It trims a string and computes these properties of the
  trimmed text: its length, a case-insensitive palindrome flag, the number of distinct
  characters, the word count, a content hash and a character frequency map.
- **The two listing paths.**
  - `GET /strings` filters the stored records by optional structured query parameters.
  - `GET /strings/filter-by-natural-language` first reads a free-text query with seven fixed
    patterns. It then filters the records by the constraints it found.
- **The service state.** This is the `Map` from hash to record kept by the store module, plus the
  module-level `strings` array of the route handlers. Five routes use it: `POST /strings`,
  `GET /strings/:value`, `DELETE /strings/:value` and the two listings.

The modules follow the source files:

| module (file) | models |
|---|---|
| `Wrappers` (wrappers.dfy) | `Option` and `Result` for absent values and error paths |
| `JsStrings` (js_strings.dfy) | the JavaScript string built-ins the code relies on: `trim`, `toLowerCase`, `split("").reverse().join("")`, `split(/\s+/)`, `includes` |
| `Analyzer` (analyzer.dfy) | `utils/analyzer.js` |
| `Records` (records.dfy) | the record `{ id, value, properties, created_at }` that `POST /strings` builds in `index.js` |
| `Store` (store.dfy) | `data/store.js`, as a class `Store<V>` with a map field |
| `Query` (query.dfy) | the filter chains and the natural-language parser of `index.js` |
| `Service` (service.dfy) | the routes of `index.js`, as a class `StringService` holding the store and `strings` |

Two behaviours of the source are modelled as written, not corrected:

- **Different record lists.** The natural-language path filters `strings`, while the structured
  path filters the store's values.
- **DELETE can remove the wrong record.** DELETE finds the record by the hash of the *trimmed*
  path value. It then splices `strings` at the index of the first record whose *raw* value equals
  the path value. When no record has that raw value, that index is -1, and the splice removes the
  last element. `Service.RemoveByValueDropsAnotherRecord` shows one case: the store loses the
  record of `"a "` while `strings` loses the record of `"b"`. The count of records stays equal in
  both collections.

Three more behaviours of the code are worth stating, because they are easy to miss:

- **400 on POST.** The handler tests `!value` (index.js:30). Its error message reads
  `Missing "value" field` (index.js:31), but every falsy `value` gets it, not only a missing one.
  So `""`, `0`, `false` and `null` are 400. A truthy non-string, including `[]` and `{}`, is 422.
- **Empty `is_palindrome`.** In `GET /strings`, the `is_palindrome` filter runs whenever the
  parameter is not `undefined` (index.js:77). So a present but empty parameter still filters: it
  selects the non-palindromes. The other four parameters are tested for truthiness
  (index.js:83-95), so an empty one is ignored.
- **Equal trims, equal hashes.** The hash is computed from the trimmed text (index.js:39,
  utils/analyzer.js:26-29). So two values with the same trim get the same hash
  (`Analyzer.HashOfTrim`). The converse would need SHA-256 to have no collisions, and the model
  does not claim it.

Strings are `seq<char>`. Each element is a Unicode scalar value, so a lone surrogate cannot be
represented, and a character outside the Basic Multilingual Plane is one element.

## Model

| member | source | states |
|---|---|---|
| `JsStrings.Trim` | utils/analyzer.js:14 | the result is the input with its leading and trailing white space cut off, and it neither starts nor ends with white space |
| `JsStrings.TrimIdempotent` | utils/analyzer.js:14 | trimming a trimmed string changes nothing |
| `JsStrings.TrimOfTrimmed` | utils/analyzer.js:14 | a string without white space at either end is its own trim |
| `JsStrings.Reverse` | utils/analyzer.js:19 | the reversal has the same length, and position i holds the character from position n-1-i |
| `JsStrings.Split` | utils/analyzer.js:24 | `split(/\s+/)` returns at least one piece; no piece holds white space; the first piece is empty exactly when the text is empty or starts with white space |
| `JsStrings.SplitCountsRuns` | utils/analyzer.js:24 | the non-empty pieces of `split(/\s+/)` are as many as the maximal runs of non-white-space characters |
| `JsStrings.RunCountZero` | utils/analyzer.js:24 | there are no runs exactly when every character is white space |
| `JsStrings.RunCountAtMostLength` | utils/analyzer.js:24 | there are never more runs than characters |
| `JsStrings.Includes` | index.js:96 | `includes` holds exactly when the text occurs at some position |
| `Analyzer.AnalyzeString` | utils/analyzer.js:8-45 | a non-string is rejected with an error; a string yields the analysis of its trimmed form, with the frequency map built by the loop |
| `Analyzer.CharacterFrequencyMap` | utils/analyzer.js:32-35 | the loop's keys are the characters of the text, and each is mapped to its number of occurrences |
| `Analyzer.AnalysisOfTrim` | utils/analyzer.js:14-44 | analyzing a string and analyzing its trim give the same properties |
| `Analyzer.HashOfTrim` | utils/analyzer.js:26-29 | two strings with the same trim get the same hash |
| `Analyzer.LengthIsTrimmedLength` | utils/analyzer.js:14-17 | `length` is the trimmed length and at most the input's length |
| `Analyzer.PalindromeMirror` | utils/analyzer.js:19-20 | the palindrome flag holds exactly when every character matches its mirror, up to ASCII case |
| `Analyzer.EmptyIsPalindrome` | utils/analyzer.js:19-20 | a string that trims to nothing is a palindrome |
| `Analyzer.RacecarIsPalindrome` | utils/analyzer.js:19-20 | "Racecar" is a palindrome |
| `Analyzer.HelloIsNotPalindrome` | utils/analyzer.js:19-20 | "hello" is not a palindrome |
| `Analyzer.WordCountIsRunCount` | utils/analyzer.js:24 | `word_count` is the number of maximal non-white-space runs of the trimmed value |
| `Analyzer.WordCountBounds` | utils/analyzer.js:24 | `word_count` is 0 exactly when the trimmed value is empty, and never exceeds `length` |
| `Analyzer.ThreeWordsExample` | utils/analyzer.js:24 | "  a  b   c " has three words |
| `Analyzer.FrequencyCounts` | utils/analyzer.js:32-35 | the keys of the frequency map are the characters of the trimmed value; each count is its number of occurrences, at least 1 |
| `Analyzer.FrequencyTotal` | utils/analyzer.js:32-35 | the counts of the frequency map add up to the trimmed length |
| `Analyzer.AabFrequencies` | utils/analyzer.js:32-35 | "aab" has the frequency map {a: 2, b: 1} |
| `Analyzer.UniqueIsKeyCount` | utils/analyzer.js:22 | `unique_characters` equals the number of keys of the frequency map |
| `Analyzer.DistinctAtMostLength` | utils/analyzer.js:22 | there are never more distinct characters than characters |
| `Store.IndexOf` | data/store.js:10 | the first position of a key in the insertion order, or -1 exactly when the key is absent |
| `Store.Without` | data/store.js:45 | removing a key from a duplicate-free key order keeps every other key, stays duplicate-free, and shortens the order by one when the key was there |
| `Store.ValuesOf` | data/store.js:26-28 | one value per listed key, in the order of the keys |
| `Store.ValuesAfterInsert` | data/store.js:10 | a new key's value is listed last, after the earlier values unchanged |
| `Store.ValuesAfterDelete` | data/store.js:45 | deleting a key removes its value from the listing and keeps the others in order |
| `Store.Store.constructor` | data/store.js:2 | the store starts empty |
| `Store.Store.Values` | data/store.js:26-28 | the values number as many as the keys, and position i holds the value of the i-th inserted key |
| `Store.Store.Save` | data/store.js:9-11 | `saveString`: the key maps to the new value and other entries are unchanged; a new key goes last in the order and its value is listed last; an existing key keeps its place |
| `Store.Store.GetByHash` | data/store.js:18-20 | `getStringByHash`: the stored value, or none when the key is absent |
| `Store.Store.GetAll` | data/store.js:26-28 | `getAllStrings`: the values in first-insertion order |
| `Store.Store.Exists` | data/store.js:35-37 | `stringExists` holds exactly when the key is present |
| `Store.Store.Delete` | data/store.js:44-46 | `deleteString` reports whether the key was present; afterwards it is absent, the other entries are untouched, and its value leaves the listing with the rest kept in order |
| `Query.Select` | index.js:74-97 | the reference one-pass filter never lengthens the list, and keeps it whole exactly when every record passes |
| `Query.SelectKeepsExactly` | index.js:74-97 | the reference filter keeps exactly the records meeting every constraint, as a subsequence of the input |
| `Query.KeepAllIsSelect` | index.js:74-97 | a chain of `filter` calls equals one filter by the conjunction of their conditions |
| `Query.ListConstraintsMeaning` | index.js:77-97 | the structured chain requires exactly these: the palindrome flag equals "is the parameter the literal `true`" when the parameter is present; inclusive length bounds and an exact word count when the parameter is non-empty; containment in the untrimmed value when `contains_character` is non-empty |
| `Query.StructuredFilterSpec` | index.js:74-101 | `GET /strings` returns an order-preserving subsequence of the stored records, holding exactly those that meet every supplied parameter |
| `Query.LengthWindowExample` | index.js:83-89 | of records of lengths 3, 5 and 10, `min_length=4&max_length=9` keeps only the record of length 5 |
| `Query.DigitRunEnd` | index.js:129-140 | the greedy `\d+` stops at the first character after the start that is not a digit |
| `Query.LeftmostMatch` | index.js:129-143 | the position found is the leftmost at which the pattern matches, or there is none at all |
| `Query.SearchFindsFirst` | index.js:129-143 | when a pattern's leading text first appears where the pattern matches, `match` returns that match |
| `Query.NumberPatternFound` | index.js:129-140 | a leading text, then digits, then the trailing text yields that number |
| `Query.AtLeastWordsPattern` | index.js:129-130 | "at least N words" sets `min_word_count` to N |
| `Query.AtMostWordsPattern` | index.js:132-133 | "at most N words" sets `max_word_count` to N |
| `Query.LongerThanPattern` | index.js:136-137 | "longer than N characters" sets `min_length` to N+1 |
| `Query.ShorterThanPattern` | index.js:139-140 | "shorter than N characters" sets `max_length` to N-1 |
| `Query.LetterPattern` | index.js:143-144 | "containing the letter c" sets `contains_character` to the one word character c |
| `Query.NlLetterIsLowerWordChar` | index.js:120-144 | because the query is lower-cased before matching, a parsed `contains_character` is always one word character and never an upper-case ASCII letter, so "containing the letter A" looks for "a" |
| `Query.Interpret` | index.js:117-149 | a missing or empty query is rejected; otherwise the query is rejected as unparsable exactly when no pattern matched, and a success holds at least one filter |
| `Query.PalindromicLongerExample` | index.js:120-144 | "strings that are palindromic and longer than 5 characters" yields exactly `is_palindrome = true` and `min_length = 6` |
| `Query.UnparsableExample` | index.js:146-149 | "show me something cool" is rejected as unparsable |
| `Query.NlConstraintsMeaning` | index.js:152-183 | the natural-language chain requires every parsed filter at once, the exact, lower and upper word counts independently, and containment in the untrimmed value |
| `Query.NlFilterSpec` | index.js:152-187 | the natural-language path returns an order-preserving subsequence of its input, holding exactly the records that meet every parsed filter |
| `Query.NlFilterAppend` | index.js:53 | appending a record to `strings` adds it to a natural-language result exactly when it matches, at the end |
| `Service.FindIndex` | index.js:226 | `findIndex`: the first record whose raw value equals the given value, or -1 exactly when none does |
| `Service.SpliceOneRemoves` | index.js:228 | `splice(i, 1)` at a valid index removes that element; at -1 it removes the last; either way the list shrinks by one |
| `Service.RemoveByValue` | index.js:226-228 | DELETE's splice removes the first record with the raw value or, when there is none, the last record |
| `Service.DeleteKeepsInvariant` | index.js:216-231 | after DELETE, every record is still well formed and filed under its id, and `strings` and the store still hold equally many records |
| `Service.RemoveByValueDropsAnotherRecord` | index.js:221-228 | after storing "a " and "b", deleting "a" removes "a " from the store but "b" from `strings` |
| `Service.StringService.constructor` | index.js:21 | the service starts with an empty store and an empty `strings` |
| `Service.StringService.Post` | index.js:27-59 | a falsy value is 400 and a non-string is 422; a value whose trimmed hash is stored is 409; in these three cases nothing changes; otherwise the record of the untrimmed value, filed under the hash of its trim, is appended to `strings` and saved, and the state stays well formed |
| `Service.StringService.List` | index.js:65-110 | `GET /strings` returns the filtered store values with their count and an echo of the parameters |
| `Service.StringService.FilterByNaturalLanguage` | index.js:116-193 | the natural-language route filters `strings`, not the store; it returns the matches, their count, the query and the parsed filters, or the parse error |
| `Service.StringService.HashKey` | index.js:200-202 | the key of a path value is the hash of its trim |
| `Service.StringService.Get` | index.js:199-210 | `GET /strings/:value` returns the record stored under the hash of the trimmed value, or not-found |
| `Service.StringService.Delete` | index.js:216-231 | DELETE is not-found and changes nothing when the hash is absent; otherwise it removes the hash from the store and splices `strings` as `RemoveByValue` says |

## Left out

- HTTP plumbing is not modelled: Express, `cors`, `dotenv`, `app.listen`, JSON serialisation and
  the welcome route (index.js:1-19, 233-250). Each route returns its outcome as a datatype, and
  `PostOutcome.Status` gives the HTTP status code.
- The `catch` branch of POST (500) is not modelled, because it cannot be reached. `analyzeString`
  throws only for a non-string, and POST has already answered 422 for those.
- SHA-256 is not modelled. It is a function parameter `sha` applied to the trimmed text.
- Analyzer.HashOfTrim: states only that equal trims give equal hashes. The converse would need
  SHA-256 to be injective, which no model of a hash can claim.
- `created_at` (`new Date().toISOString()`) is not modelled; it is a `Timestamp` parameter of `Post`.
- `Number(...)` on query parameters is not modelled. Each numeric parameter arrives already
  converted, as `Given(Int(n))` or `Given(NaN)`. Fractional numbers, `Infinity` and `-Infinity`
  (for example `Number("1e400")`) and the text-to-number conversion are not modelled.
- `parseInt` of a long digit run gives a rounded floating-point value in JavaScript. The model
  gives the exact integer.
- A query parameter given several times is not modelled. Express then passes an array, and
  `query.toLowerCase()` throws. Every parameter is modelled as a string.
- `toLowerCase` is modelled for ASCII letters only. Other characters are left unchanged.
- `trim` and `\s` use JavaScript's WhiteSpace and LineTerminator characters as a fixed list.
- The difference between UTF-16 code units and code points is not modelled. Each element of a
  model string is one Unicode scalar value, which is what `new Set(str)` and `for…of` iterate.
  So `unique_characters` and the frequency map agree with the source. A character outside the
  Basic Multilingual Plane is two code units in JavaScript, though, and one element in the model.
  For such strings, three fields differ from the source: `length`, the reversal of
  `split("").reverse().join("")` (which splits the surrogate pair), and so the palindrome flag.
  Strings holding lone surrogates cannot be represented at all.
- Store.Store.GetByHash: returns none only for an absent key. `store.get(hash) || null` would
  also turn a falsy stored value into `null`, but the service only stores record objects, which
  are never falsy.
- Concurrency is not modelled. The source runs each request to completion on one thread.
