# String analyser core in Dafny

A model of the string-analysis core of a small Express service. `POST`
takes a string, trims it and fingerprints it with SHA-256. It then either
rejects a duplicate or appends an entry to an in-memory list. The entry
records the string's length, palindrome flag, distinct-character count,
word count, digest and character-frequency map. `GET /:value` trims and
hashes its path value and looks the entry up by that id.

Layout, one module per concern:

- `text.dfy` (`Text`) models the runtime string operations the code relies on: `trim`, `toLowerCase`, `split`, `join` and the `split("").reverse().join("")` reversal. Each comes with its characterising lemmas.
- `utils.dfy` (`Utils`) models `isPalindrome` and the SHA-256 helper. The helper is a `Hasher` parameter, a function `string -> string`, so equal inputs give equal ids by construction.
- `analysis.dfy` (`Analysis`) holds the `properties` record, the frequency-map reducer, and `Describes`. `Describes` is an independent description of correct properties that every built record satisfies.
- `store.dfy` (`Store`) models the ordered entry list and `find` by id.
- `js_values.dfy` (`JsValues`) models the request values a handler may receive, with JavaScript truthiness and the `typeof` string test.
- `strings_controller.dfy` (`StringsController`) models `analyzeString` and `getSpecificString` as pure functions. `analyzeString` returns `(reply, next list)`. `getSpecificString` returns only the reply, because it never writes the list. The module also holds the list invariant and the round-trip lemmas.

Points about the code's behaviour that are easy to get wrong:

- The code trims the input but does not lower-case it (`controllers/stringsController.js:27`, `:104`). So `"Abc"` and `"abc"` are different entries.
- A successful `POST` answers 200 (`controllers/stringsController.js:73`), the same status as a successful lookup.
- The strings controller has no filter, natural-language query or delete handler; only `analyzeString` and `getSpecificString` exist.

Parameters stand in for the parts the model does not compute:

- The digest function.
- The `created_at` clock reading.
- The outcome of `fs.writeFileSync`.

The in-memory append happens before the write. So a failed write answers 500 while the entry stays stored, and a retry of the same value then gets 409. `AnalyzeString` and `AnalyzeTwice` state this.

## Model

| member | source | states |
|---|---|---|
| Text.TrimStart | controllers/stringsController.js:27 | the result is a suffix of the input, every character dropped is whitespace, and the result does not start with whitespace |
| Text.TrimEnd | controllers/stringsController.js:27 | the result is a prefix of the input, every character dropped is whitespace, and the result does not end with whitespace |
| Text.Trim | controllers/stringsController.js:27 | the trimmed value has no whitespace at either end and is no longer than the input |
| Text.TrimIsSlice | controllers/stringsController.js:27 | the trimmed value is a contiguous slice of the input, and everything outside that slice is whitespace |
| Text.TrimStartAt | controllers/stringsController.js:27 | leading whitespace is cut exactly up to the first non-whitespace character |
| Text.TrimEndAt | controllers/stringsController.js:27 | trailing whitespace is cut exactly from just after the last non-whitespace character |
| Text.TrimOfSlice | controllers/stringsController.js:27 | reference characterisation by position: if only whitespace lies outside `s[i..j]` and that slice has no whitespace at its ends, trimming `s` gives exactly that slice |
| Text.TrimOfPadded | controllers/stringsController.js:27 | reference characterisation: a string with no whitespace at either end, padded with whitespace on both sides, trims back to itself |
| Text.TrimIdempotent | controllers/stringsController.js:104 | trimming an already trimmed value changes nothing |
| Text.Lower | utils/index.js:4 | lower-casing keeps the length and maps each character through the ASCII lower-case map |
| Text.LowerIdempotent | utils/index.js:4 | lower-casing twice equals lower-casing once |
| Text.Join | utils/index.js:4 | a character occurs in the join exactly when it occurs in some part, or in the separator when there are at least two parts |
| Text.Reverse | utils/index.js:5 | reversal keeps the length and puts character `i` at position `n-1-i` |
| Text.MirrorIsReverse | utils/index.js:5-7 | a string equals its reverse exactly when each position `i` matches position `n-1-i` |
| Text.ReverseInvolution | utils/index.js:5 | reversing twice gives the input back |
| Text.Remove | utils/index.js:4 | removing `d` leaves no `d`, and the length drops by the number of `d`s |
| Text.RemoveReverse | utils/index.js:4-5 | removing spaces commutes with reversal |
| Text.Split | controllers/stringsController.js:50 | `split` yields at least one piece, no piece contains the separator, and joining the pieces with the separator restores the input |
| Text.SplitJoin | controllers/stringsController.js:50 | round trip: splitting the join of separator-free pieces gives the same pieces back |
| Text.SplitLength | controllers/stringsController.js:50 | the number of pieces is the number of separators plus one |
| Text.SplitJoinEmpty | utils/index.js:4 | `split(" ").join("")` deletes exactly the `' '` characters |
| Utils.Folded | utils/index.js:4 | `toLowerCase().split(" ").join("")` is the lower-cased input with exactly its `' '` characters deleted |
| Utils.IsPalindrome | utils/index.js:3-8 | `isPalindrome` holds iff the lower-cased text without `' '` reads the same at positions `i` and `n-1-i` |
| Utils.PalindromeIgnoresCase | utils/index.js:4 | the verdict for a string equals the verdict for its lower-cased form |
| Utils.PalindromeIgnoresSpace | utils/index.js:4 | inserting a `' '` anywhere never changes the verdict |
| Utils.PalindromeReverse | utils/index.js:3-8 | a string and its reverse get the same verdict |
| Utils.TrivialPalindromes | utils/index.js:4-7 | the empty string, all-space strings and one-character strings are palindromes |
| Utils.OnlySpaceIsStripped | utils/index.js:4-7 | only `' '` is stripped: `"a "` is a palindrome and `"a\t"` is not |
| Analysis.TotalBump | controllers/stringsController.js:53 | one reducer step raises the sum of the map's counts by exactly one |
| Analysis.Bump | controllers/stringsController.js:53 | one reducer step gives the character one more occurrence, adds it as a key if new, and leaves every other count unchanged |
| Analysis.FrequencyFrom | controllers/stringsController.js:52-55 | after the reduce, the keys are the old keys plus the string's characters, and each count rises by that character's number of occurrences |
| Analysis.FrequencyFromTotal | controllers/stringsController.js:52-55 | after the reduce, the total of the counts rises by the string's length |
| Analysis.CharacterFrequency | controllers/stringsController.js:52-55 | the frequency map has exactly the value's distinct characters as keys, each mapped to its number of occurrences |
| Analysis.ComputeProperties | controllers/stringsController.js:46-56 | the record describes its value: length, palindrome verdict, distinct characters, `' '`-count plus one words, digest, and frequency map (keys are exactly the characters, counts are occurrences). The map has `unique_characters` keys whose counts sum to `length`, and the word count is at least 1 |
| Store.FindIndex | controllers/stringsController.js:32-34 | `find` reaches the first entry with the id, or reports that no entry has it |
| Store.Find | controllers/stringsController.js:107-109 | `find` answers nothing exactly when no entry has the id; otherwise it answers the first entry of the list carrying that id |
| Store.FindAfterAppend | controllers/stringsController.js:61 | after appending an entry with a fresh id, `find` by that id reaches it and every other id finds what it found before |
| Store.FindUnique | controllers/stringsController.js:32-34 | with distinct ids, `find` returns the one entry carrying the id |
| JsValues.Truthy | controllers/stringsController.js:12 | `!value` rejects exactly the seven falsy values `undefined`, `null`, `false`, `0`, `NaN`, `0n` and `""` |
| JsValues.IsString | controllers/stringsController.js:19 | `typeof value === "string"` holds exactly for strings, and a string passes the `!value` check exactly when it is non-empty |
| StringsController.NewEntry | controllers/stringsController.js:43-58 | the new entry holds the value, its digest as both `id` and `sha256_hash`, properties describing the value, and the given timestamp |
| StringsController.AnalyzeString | controllers/stringsController.js:8-83 | falsy input answers 400 and a non-string answers 422, both leaving the list unchanged. A taken id answers 409 with the first entry holding it, list unchanged. Otherwise exactly one entry for the trimmed value is appended and all earlier entries are kept; the reply is 200 with the entry, or 500 with the write error while the entry stays stored |
| StringsController.GetSpecificString | controllers/stringsController.js:85-128 | falsy input answers 400 and a non-string answers 422. Otherwise the reply is 200 exactly when some entry's id is the digest of the trimmed value, carrying the first such entry, and 404 "String not found" otherwise |
| StringsController.AnalyzeAppended | controllers/stringsController.js:32-61 | the list changes exactly when the request is a non-empty string whose trimmed digest is unused, and then it grows by exactly that string's entry |
| StringsController.AppendPreservesConsistency | controllers/stringsController.js:32-61 | appending an entry with an unused id, addressed by its own trimmed value and describing it, keeps the list invariant: ids pairwise distinct, each id the digest of its value, properties describing the value |
| StringsController.AnalyzePreservesConsistency | controllers/stringsController.js:8-83 | every reply of `analyzeString`, error or success, keeps that list invariant |
| StringsController.ConsistentValuesDistinct | controllers/stringsController.js:32-41 | in a consistent list no string is stored twice |
| StringsController.ConsistentIdsAreHex | utils/index.js:10-12 | if the digest always yields 64 lower-case hex digits, so does every stored id |
| StringsController.AnalyzeThenGet | controllers/stringsController.js:104-118 | round trip: posting a non-empty string whose trimmed digest is unused appends its entry, and then a lookup with any non-empty value that trims to the same string answers 200 with that entry |
| StringsController.GetStored | controllers/stringsController.js:89-118 | in a consistent list, looking up a stored value by its own text answers 200 with its entry; only a stored empty string is refused with 400 |
| StringsController.GetAppended | controllers/stringsController.js:107-118 | a lookup whose digest is the id of a freshly appended entry answers 200 with that entry |
| StringsController.AnalyzeTwice | controllers/stringsController.js:32-41 | posting a new string appends its entry; posting it again answers 409 with that entry and leaves the list unchanged. This holds even when the first post's write failed |
| StringsController.ConflictAgreesWithGet | controllers/stringsController.js:35-41 | when the trimmed digest is already stored, `analyzeString` answers 409, and the entry it carries is exactly the entry a lookup of the same value returns |

## Left out

- Text.Lower: lower-cases ASCII `A`-`Z` only. JavaScript's `toLowerCase` is Unicode-aware; a full case table is out of scope.
- Utils.IsPalindrome: the model reverses Unicode scalar values (`Text.Reverse`), while `split("").reverse().join("")` (`utils/index.js:5`) reverses UTF-16 code units and so splits every surrogate pair. A string that still holds an astral character after folding is never a palindrome in the code, but can be one in the model: `TrivialPalindromes` makes `"\u{1F600}"` a palindrome, where the code answers false.
- Analysis.ComputeProperties: assumes the value contains no surrogate pairs. `value.length` and `split("")` count UTF-16 code units, while `new Set(value)` counts code points; the model counts Unicode scalar values for all three.
- Persistence (`controllers/stringsController.js:64-71`) is left out: serialising the list to a file is I/O. Only the write's outcome is modelled, as the `WriteOutcome` parameter.
- The `created_at` timestamp (`controllers/stringsController.js:57`) is a clock reading, taken as a parameter.
- SHA-256 itself is a library call, kept abstract as the `Hasher` parameter. `ValidHasher` states the digest's shape; the model does not state collision resistance.
- Store.Db: the stored list is assumed to be an array. The code guards both lookups with `(stringsDb || [])` (`controllers/stringsController.js:32`, `:107`). When the list is missing, the lookup finds nothing, `stringsDb.push(data)` (`:61`) throws, and `POST` answers 500 with the `TypeError` message and stores nothing; `GET` answers 404. When the list is a non-array object, `.find` throws and both handlers answer 500. Neither case is modelled.
- The `catch` branches (`controllers/stringsController.js:74-82`, `:119-127`) are modelled only for a failed file write. Once the list is an array, nothing else in the modelled steps throws for the modelled inputs.
- JavaScript numbers are modelled as reals plus `NaN`. Infinities, objects, arrays, functions and symbols collapse into `Other`, since all of them are truthy non-strings and the handlers treat them alike.
- Express routing, the JSON envelope's `status: "error"` field, the profile endpoint, the fact-fetching service and configuration are left out: they are plumbing or unrelated to the string core. `index.js` does not even mount the strings routes.
- In `getSpecificString`, the 400 and 422 branches cannot arise under Express, whose path parameters are non-empty strings. They are kept because the code has them.
- Structured filters, natural-language query parsing, delete and lower-case canonicalisation are not modelled: the strings controller has no handler for any of them.
- The insertion order of keys in the frequency map is not significant and is not modelled (a `map`).
