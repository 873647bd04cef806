# fantasy-names-generator: the name post-processing, in Dafny

The command-line tool trains a Markov name generator on a list of place
names and prints the generated names that are new. It takes that list
from a text file, or from a city dataset filtered by country code. This
project models the tool's own logic, which lives in `src/main.ts`. The
Markov generator is a library, so the project does not model it.

- **`generateNames`**: the post-processing of the generator's raw
  candidates. It trims each candidate, sorts the list, removes duplicates
  with lodash `uniq`, and drops the candidates that collide with an entry
  of the training corpus. A candidate collides when it equals the entry
  after both are lower-cased and trimmed. It also collides when it is at
  Levenshtein distance exactly 1 from the entry, with both taken as they
  are. The source does not drop a candidate whose first colliding entry is
  the empty string; see "## Findings" (module `NameFilter`, file
  `names.dfy`).
- **`generateFromCountries`**: the corpus selection. It keeps the cities
  whose `country_code` is one of the requested codes and maps them to their
  `name` (module `Cities`, file `cities.dfy`).

The project also models the JavaScript built-ins and library functions
these two rely on:

- `trim`, `toLowerCase` and the default string order of `sort`: module
  `JsString`, file `strings.dfy`.
- `Array.prototype.sort`, `filter` and `find`, and lodash `uniq`: module
  `Lists`, file `lists.dfy`.
- The `distance` function of fastest-levenshtein: module `Levenshtein`,
  file `levenshtein.dfy`. It has a recursive definition, a dynamic-
  programming method proved equal to it, and a proof that distance 1 means
  exactly one insertion, deletion or substitution.

The generator's output is a parameter, `candidates`: any list of strings.

## Model

| member | source | states |
|---|---|---|
| JsString.TrimStart | src/main.ts:62 | what is removed is a run of whitespace at the front, and what is left does not start with whitespace |
| JsString.TrimEnd | src/main.ts:62 | what is removed is a run of whitespace at the end, and what is left does not end with whitespace |
| JsString.Trim | src/main.ts:62 | the result of `trim` has no leading or trailing whitespace and is no longer than the input |
| JsString.TrimOfPadded | src/main.ts:62 | trimming whitespace + m + whitespace, with m trimmed, gives exactly m, so `trim` removes the surrounding whitespace and nothing else |
| JsString.TrimSplits | src/main.ts:62 | every string is its trimmed form with a whitespace run on each side |
| JsString.TrimIdempotent | src/main.ts:62 | trimming twice is the same as trimming once |
| JsString.ToLower | src/main.ts:69 | `toLowerCase` keeps the length, turns each letter A-Z into its own lower-case letter, and changes no other character |
| JsString.LowerTrimCommute | src/main.ts:69 | lower-casing then trimming, as the collision test does, is the same as trimming then lower-casing |
| JsString.LessIsLexBefore | src/main.ts:63 | the order used by `sort` holds exactly when `a` is a proper prefix of `b` or `a` has the smaller character at the first difference, both directions |
| JsString.LessIrreflexive | src/main.ts:63 | no string sorts before itself |
| JsString.LessTransitive | src/main.ts:63 | the sort order is transitive |
| JsString.LessTotal | src/main.ts:63 | any two different strings are ordered one way or the other |
| JsString.LessAsymmetric | src/main.ts:63 | two strings are never each before the other |
| Lists.Insert | src/main.ts:63 | inserting into a sorted list gives a sorted list with one more copy of the element |
| Lists.Sort | src/main.ts:63 | `sort` returns a sorted permutation of its input, same multiset |
| Lists.SortedUnique | src/main.ts:63 | two sorted lists with the same multiset are equal, so the result of `sort` does not depend on the algorithm |
| Lists.Find | src/main.ts:67-71 | `find` returns nothing exactly when no element passes the test; otherwise it returns the first element that passes |
| Lists.Filter | src/main.ts:65-72 | `filter` keeps exactly the elements that pass the test and never lengthens the list |
| Lists.FilterDistributes | src/main.ts:65-72 | filtering a concatenation is the concatenation of the filtered parts, so order and repeats are kept |
| Lists.FilterOne | src/main.ts:65-72 | one element is kept exactly when it passes the test |
| Lists.FilterOfStrictlySorted | src/main.ts:65-72 | filtering a strictly increasing list gives a strictly increasing list |
| Lists.FilterKeepingAll | src/main.ts:65-72 | filtering with a test every element passes changes nothing |
| Lists.Uniq | src/main.ts:65 | `uniq` returns a list with no repeats, holding exactly the values of its input |
| Lists.UniqKeepsFirstOccurrenceOrder | src/main.ts:65 | `uniq` lists values in the order of their first occurrences in the input |
| Lists.UniqOfDistinct | src/main.ts:65 | `uniq` leaves a list with no repeats unchanged |
| Lists.UniqOfSortedIsStrictlySorted | src/main.ts:63-65 | `uniq` after `sort` gives a strictly increasing list |
| Lists.StrictlySortedIsDistinct | src/main.ts:63-65 | a strictly increasing list has no two equal elements |
| Lists.StrictlySortedUnique | src/main.ts:63-65 | two strictly increasing lists with the same elements are equal |
| Levenshtein.Distance | src/main.ts:70 | the edit distance is at most the longer length and at least the difference of the lengths |
| Levenshtein.DistanceZeroIff | src/main.ts:70 | the distance is 0 exactly when the strings are equal |
| Levenshtein.DistanceSymmetric | src/main.ts:70 | the distance does not depend on argument order |
| Levenshtein.DistanceOneIff | src/main.ts:70 | the distance is 1 exactly when one substitution, deletion or insertion turns one string into the other, both directions |
| Levenshtein.EditDistance | src/main.ts:70 | the row-by-row dynamic-programming computation returns the recursive distance |
| NameFilter.TrimAll | src/main.ts:62 | mapping `trim` keeps the length and position of every candidate, and every resulting name is trimmed |
| NameFilter.TrimAllIdempotent | src/main.ts:62 | mapping `trim` over already trimmed names changes nothing |
| NameFilter.GenerateNames | src/main.ts:57-73 | the output is strictly increasing and holds exactly the trimmed candidates that collide with no corpus entry; each output name is trimmed, matches no corpus entry after lower-casing and trimming, and is not at distance 1 from any entry |
| NameFilter.GenerateNamesAsWritten | src/main.ts:57-73 | the source's `!data.find(...)` version is strictly increasing and keeps exactly the trimmed candidates for which `find` returns nothing or a falsy entry |
| NameFilter.GenerateNamesIsDetermined | src/main.ts:57-73 | any strictly increasing list holding exactly the novel trimmed candidates is the output |
| NameFilter.GenerateNamesIdempotent | src/main.ts:57-73 | running the post-processing on its own output against the same corpus returns that output |
| NameFilter.GenerateNamesWithEmptyCorpus | src/main.ts:63-72 | with an empty corpus the output is the sorted, de-duplicated trimmed candidates |
| NameFilter.EmptyCorpusKeepsEveryCandidate | src/main.ts:62-65 | with an empty corpus every trimmed candidate appears, so de-duplication is case-sensitive |
| NameFilter.NearMissIsRejected | src/main.ts:70 | a name one substitution, deletion or insertion away from a corpus entry never appears in the output |
| NameFilter.AsWrittenAgreesWithoutEmptyEntries | src/main.ts:66-71 | when no corpus entry is empty, the source's test and the intended test give the same output |
| NameFilter.AsWrittenKeepsNearDuplicateOfEmptyEntry | src/main.ts:66-71 | with corpus `[""]` the source keeps the candidate "a", which is at distance 1 from "", while the intended pipeline drops it |
| NameFilter.KeptNextToEmptyEntry | src/main.ts:66-71 | the same for every trimmed one-character candidate |
| NameFilter.EmptyFirstEntryHidesCollisions | src/main.ts:38-42 | with `""` as the first corpus entry, as the sort at line 38 places it, the source keeps every trimmed one-character name whatever the other entries are, and the intended test rejects it |
| Cities.SelectByCountries | src/main.ts:48-50 | the result names exactly the cities whose country code is requested, and is no longer than the city list |
| Cities.SelectDistributes | src/main.ts:48-50 | selecting from a concatenation is the concatenation of the selections, so order is kept |
| Cities.SelectOne | src/main.ts:48-50 | one city contributes its name exactly when its code is requested |
| Cities.SelectAllRequested | src/main.ts:48-50 | when every city is from a requested country, the result is every name, position by position |
| Cities.SelectNoCountries | src/main.ts:48-50 | with no requested codes nothing is selected |

## Left out

- The Markov `NameGenerator` (src/main.ts:4, 58, 61). Its source is not part of this model and its output is random. The model takes its output as the `candidates` parameter, whatever the arguments `200, 5, 12` are.
- The command line (src/main.ts:11-34). This is `commander` wiring and dispatch.
- File and JSON reading (src/main.ts:75-89) and all console output (src/main.ts:38-43, 51, 54). These are I/O. `Cities.City` keeps only the `name` and `country_code` fields of src/types.ts; the other fields are never read.
- JsString.ToLower: lower-cases only the ASCII letters A-Z. JavaScript `toLowerCase` applies the full Unicode case mapping, which is not modelled.
- JsString.Less: compares characters as Unicode code points. JavaScript `sort` and fastest-levenshtein work on UTF-16 code units. The two orders differ only for characters outside the Basic Multilingual Plane.
- Levenshtein.EditDistance: a plain dynamic-programming method proved equal to the recursive definition. It is not the bit-parallel algorithm of fastest-levenshtein, whose source is not part of this model; only the value it returns is modelled. Strings are sequences of code points here, while fastest-levenshtein counts edits on UTF-16 code units; the two distances differ only for characters outside the Basic Multilingual Plane.
- `Array.prototype.sort` sorts in place. The model returns a new list. At src/main.ts:63 the old list is never used again. At src/main.ts:38 the in-place sort reorders the corpus before it reaches `generateNames`, so the `corpus` parameter stands for the sorted list in that path; see "## Findings".

## Findings

| source | as written | input that shows it | evidently intended | confidence | as-written member | corrected member |
|---|---|---|---|---|---|---|
| src/main.ts:66-71 | `!data.find(...)` negates the corpus entry that `find` returns. An empty entry `""` is falsy, so a candidate whose first colliding entry is `""` is kept. | candidates `["a"]`, corpus `[""]`. The edit distance from "a" to "" is 1, yet the output is `["a"]`. A data file ending in a newline gives `""` as a line; src/main.ts:38 sorts the corpus in place before src/main.ts:42 passes it on, so `""` becomes the first entry and `find` returns it ahead of any other colliding entry. | reject every candidate that collides with some entry: the output is `[]` | not executed; the behaviour follows from JavaScript truthiness. It only matters for candidates of length 0 or 1 and a corpus that contains `""`. | NameFilter.GenerateNamesAsWritten, NameFilter.AsWrittenKeepsNearDuplicateOfEmptyEntry, NameFilter.KeptNextToEmptyEntry, NameFilter.EmptyFirstEntryHidesCollisions | NameFilter.GenerateNames |
