# Shopping list: item store, frequency suggestions and client-side autocomplete

This project models the logic of a small shopping-list application. A Flask
backend keeps a list of item records. It appends to that list on `POST /items`
and filters it by id on `DELETE /items`. `GET /suggestions` returns up to five
item names ranked by how often they occur, ignoring case. A browser client
normalises what the user types, filters the suggestions it receives by
prefix, capitalises names for display, and refuses to submit blank names.

Modules:

- `Text` (text.dfy): ASCII case mapping, trimming by a whitespace predicate,
  and `StartsWith`. Both halves of the application use it.
- `Wrappers` (wrappers.dfy): `Option` and an order-preserving subsequence
  predicate.
- `PyInt` (pyint.dfy): Python's `int(...)` applied to the `id` query
  argument.
- `Items` (items.dfy): the item record, the DELETE filter and its error
  path, and `ItemStore`. `ItemStore` is a class whose `items` field POST
  appends to and DELETE reassigns.
- `Suggestions` (suggestions.dfy): the frequency loop (a method updating the
  ordered dict in place), Python's stable descending sort, the top-five slice
  and `str.capitalize`, with the ranking properties proved.
- `Frontend` (frontend.dfy): query normalisation, the prefix filter,
  `capitalize` and the empty-input guards.
- `EndToEnd` (endtoend.dfy): what the client shows when both halves work
  together.

Facts about the code that the model keeps:

- `/suggestions` ignores the `q` argument the client sends
  (frontend/script.js:225); its ranking depends only on the stored names.
- POST stores only `id`, `name` and `date_added`. The client reads
  `item.purchased` (frontend/script.js:184), which the backend never sets.
- Ids can repeat: a new id is `len(items) + 1`, which can equal an id still
  in the list after a delete (`Items.IdsCanCollide`).

## Model

| member | source | states |
|---|---|---|
| `Text.Lower` | backend/app.py:50 | lower-casing keeps the length and maps each character on its own (ASCII letters only) |
| `Text.TrimSlice` | frontend/script.js:23 | the trimmed string is a contiguous slice; everything removed before and after it is whitespace; its first and last characters are not |
| `Text.TrimEmpty` | frontend/script.js:146-147 | the trimmed string is empty exactly when every character is whitespace |
| `Text.TrimIdempotent` | frontend/script.js:23 | trimming twice equals trimming once |
| `Text.TrimPadded` | backend/app.py:41 | padding a string with whitespace on both sides leaves its trim unchanged |
| `PyInt.ParseInt` | backend/app.py:40-41 | an absent `id` argument and the empty string are not integers (TypeError / ValueError) |
| `PyInt.ParseIntRoundTrip` | backend/app.py:41 | `int(str(n)) == n`, so every stored id can be named in a DELETE (no digit limit, see Left out) |
| `PyInt.ParseIntIgnoresSpaces` | backend/app.py:41 | whitespace around the argument does not change the parsed id |
| `PyInt.ParseIntKeepsSeparators` | backend/app.py:41 | `int()` does not skip the information separators U+001C..U+001F, so `"\x1c1"` is refused |
| `PyInt.ParseIntRejectsLetters` | backend/app.py:41 | text holding any character other than whitespace, a sign, a digit or `_` is refused |
| `Items.Truthy` | backend/app.py:30 | an absent or null `item` and the empty string are falsy; every non-empty string, whitespace only included, is truthy |
| `Items.Without` | backend/app.py:41 | DELETE keeps exactly the records whose id differs from the given one, each with its original multiplicity, as an order-preserving subsequence; with no such record the list is unchanged |
| `Items.WithoutIdempotent` | backend/app.py:41 | deleting an id twice equals deleting it once |
| `Items.WithoutCommutes` | backend/app.py:41 | deleting two ids in either order gives the same list |
| `Items.DeleteOutcome` | backend/app.py:39-43 | the request fails exactly when the list is non-empty and the id is absent or not an integer literal (no digit limit, see Left out), and then nothing changes; otherwise exactly the records with that id are removed, every other record is kept with its multiplicity and in order |
| `Items.IdsCanCollide` | backend/app.py:32 | after a delete, `len(items) + 1` can equal an id still in the list |
| `Items.ItemStore.constructor` | backend/app.py:24 | the store starts as the loaded snapshot |
| `Items.ItemStore.Post` | backend/app.py:28-37 | a truthy `item` appends exactly one record with id old length + 1, that name and the given timestamp, leaving earlier records unchanged; a falsy one changes nothing and gets no response |
| `Items.ItemStore.Delete` | backend/app.py:39-43 | the new list and status are those of `DeleteOutcome` on the old list; a record survives only if it was there before |
| `Suggestions.FirstOccurrences` | backend/app.py:51 | the dict's keys are the distinct names, each once, ordered by the position of each name's first occurrence |
| `Suggestions.Frequency` | backend/app.py:48-52 | the loop leaves the keys in first-occurrence order and each key's value is the number of items with that lower-cased name, so `frequency.items()` is the reference histogram of the names |
| `Suggestions.CountIsNumberOfItems` | backend/app.py:48-51 | a key's count equals the size of the set of item positions whose lower-cased name is that key |
| `Suggestions.HistogramTotal` | backend/app.py:48-51 | the counts sum to the number of items |
| `Suggestions.HistogramEntries` | backend/app.py:48-52 | an entry is in the histogram exactly when its key is a lower-cased name and its value is that name's count; every count is at least 1 |
| `Suggestions.InsertDesc` | backend/app.py:52 | inserting into a descending list keeps it descending and adds exactly that entry |
| `Suggestions.SortDesc` | backend/app.py:52 | the sort is non-increasing by count and a permutation of its input |
| `Suggestions.SortDescStable` | backend/app.py:52 | for every count, the entries with that count appear in the same order as in the input |
| `Suggestions.SortUnique` | backend/app.py:52 | two descending lists with the same per-count order are equal, so these properties define Python's stable reverse sort |
| `Suggestions.Take` | backend/app.py:53 | `[:5]` is a prefix of the sorted entries, of length the smaller of five and their number |
| `Suggestions.TakeWithCount` | backend/app.py:53 | truncation keeps, for every count, a prefix of that count's entries |
| `Suggestions.TakeIsTop` | backend/app.py:53 | in a descending list, an entry left out of the prefix has a count no greater than any kept entry |
| `Suggestions.PyCapitalize` | backend/app.py:53 | `str.capitalize` keeps the length, upper-cases the first character and lower-cases the rest, so it changes a name only in case |
| `Suggestions.PyCapitalizeLowerInverse` | backend/app.py:53 | lower-casing the capitalised form of a lower-case key gives back the key |
| `Suggestions.Suggest` | backend/app.py:45-54 | the handler returns the capitalised keys of the top five histogram entries in stable descending order of count |
| `Suggestions.SuggestionsOf` | backend/app.py:45-54 | the JSON list holds, in rank order, the capitalised key of each kept entry, at most five |
| `Suggestions.SuggestionsLength` | backend/app.py:52-53 | the number of suggestions is the smaller of 5 and the number of distinct lower-cased names, and it is zero exactly when there are no items |
| `Suggestions.RankedSorted` | backend/app.py:52 | the kept entries are non-increasing by count, and each is a lower-cased name with its true count |
| `Suggestions.RankedIsTop` | backend/app.py:52-53 | a name that is not suggested occurs no more often than any suggested one |
| `Suggestions.RankedTies` | backend/app.py:52-53 | among names with equal counts, the suggested ones come first in first-occurrence order, and in that order |
| `Suggestions.RankedKeysLower` | backend/app.py:50 | every suggested key is the lower-cased name of some item, and is lower-case |
| `Suggestions.RankedKeysDistinct` | backend/app.py:50-53 | no lower-cased name is suggested twice |
| `Suggestions.SuggestionsDistinct` | backend/app.py:50-53 | the suggestions are pairwise distinct, and lower-casing each gives back its key |
| `Frontend.JsTrim` | frontend/script.js:23 | `trim()` never lengthens the text, is empty exactly when the text is all whitespace, and otherwise neither starts nor ends with whitespace |
| `Frontend.Query` | frontend/script.js:219 | the query is lower-case, no longer than the input, and empty exactly when the input is all whitespace |
| `Frontend.FetchSuggestions` | frontend/script.js:219-225 | the list is cleared with no request exactly when the input is all whitespace; otherwise the request carries the trimmed, lower-cased, non-empty query |
| `Frontend.QueryNormalised` | frontend/script.js:219 | the query is lower-case and has nothing left to trim, so normalising it again changes nothing |
| `Frontend.FilterSuggestions` | frontend/script.js:228 | a suggestion is kept exactly when its lower-case form starts with the query; the result is an order-preserving subsequence of the input |
| `Frontend.FilterSuggestionsMultiplicity` | frontend/script.js:228 | like `Array.prototype.filter`, every copy of a matching suggestion is kept and no copy of any other |
| `Frontend.FilterSuggestionsLength` | frontend/script.js:228 | the filter never returns more suggestions than it received |
| `Frontend.FilterSuggestionsIdempotent` | frontend/script.js:228 | filtering an already filtered list changes nothing |
| `Frontend.Capitalize` | frontend/script.js:271-273 | `capitalize` keeps the length, upper-cases the first character and leaves the rest unchanged; the empty string maps to itself |
| `Frontend.CapitalizeSameLower` | frontend/script.js:271-273 | capitalising changes a name only in case |
| `Frontend.CapitalizeIdempotent` | frontend/script.js:271-273 | capitalising twice equals capitalising once |
| `Frontend.AddItemOnClick` | frontend/script.js:22-27 | an item is submitted exactly when the input has a non-whitespace character, and the value submitted is the trimmed input |
| `Frontend.AddItemOnKeypress` | frontend/script.js:30-38 | an item is submitted exactly when the key is Enter and the input has a non-whitespace character, and the value submitted is the trimmed input |
| `Frontend.SaveEdit` | frontend/script.js:145-156 | saving is refused with a warning and no request exactly when the name is blank; otherwise the trimmed name is sent |
| `Frontend.SubmittedNameIsTrimmed` | frontend/script.js:23-25 | a submitted value, entered again, is submitted unchanged |
| `EndToEnd.MatchingKeys` | frontend/script.js:228 | the matching keys are exactly those starting with the query, as an order-preserving subsequence of the ranked keys |
| `EndToEnd.MatchingKeysMultiplicity` | frontend/script.js:228 | every copy of a matching key is kept and no copy of any other |
| `EndToEnd.AutocompleteShowsMatchingTopNames` | frontend/script.js:218-229 | for an input with a non-whitespace character a request is sent, and the client shows exactly the backend's top keys that start with the normalised query, capitalised, in rank order |
| `EndToEnd.CapitalizeAgreesOnLower` | frontend/script.js:271-273 | on lower-case names the client's `capitalize` equals Python's `str.capitalize` |
| `EndToEnd.CapitalizeVariantsDiffer` | frontend/script.js:271-273 | on "aB" the two give "AB" and "Ab" |
| `EndToEnd.SubmittedItemsAreTruthy` | frontend/script.js:23-25 | whatever the client submits is truthy for the backend's POST check |

## Left out

- Flask routing, request and response marshalling, and CORS setup (backend/app.py:1-7, 56-57) are framework glue.
- The GET branch (backend/app.py:25-26) returns the list unchanged and is not modelled separately.
- Loading and saving the JSON file, including the fallback when the file is missing (backend/app.py:11-20), is I/O. Each request works on an in-memory list: the snapshot before and the list after.
- `date_added` reads the clock (backend/app.py:34). It is a string parameter of `Items.ItemStore.Post`.
- `Items.ItemStore.Post` treats `item` as an optional string. JSON numbers, lists or objects in that field, and a request body that is not JSON, are not modelled.
- `Text.Lower`, `Text.LowerChar` and `Text.UpperChar` map only ASCII letters. Python's and JavaScript's Unicode case tables are not modelled. That includes multi-character mappings such as "ß" to "SS", and the title-case first character of Python's `capitalize`.
- `Suggestions.SuggestionsDistinct` and `Suggestions.PyCapitalizeLowerInverse` hold because case mapping is ASCII only. Under Python's Unicode tables, distinct keys such as "ſa" and "sa" both capitalise to "Sa", so the real handler can return the same name twice.
- `PyInt.ParseInt` and `Items.DeleteOutcome` do not model the digit limit on integer conversion (4300 digits by default, `sys.get_int_max_str_digits()`), which Python has in 3.11 and later and in the 3.10.7, 3.9.14, 3.8.14 and 3.7.14 security releases. The repository does not pin a Python version. Under such a version, `DELETE /items?id=` with more than 4300 digits on a non-empty list raises ValueError, so the request answers 500 and the list is unchanged. The model parses the id and answers `Removed`. `PyInt.ParseIntRoundTrip` likewise holds there only below 10^4300, because `str(n)` raises above it.
- `PyInt.ParseInt` accepts only ASCII digits and skips only the ASCII whitespace `int()` skips (space, tab, line feed, vertical tab, form feed, carriage return). Python's `int` also accepts Unicode decimal digits and skips non-ASCII Unicode whitespace.
- `Frontend.JsTrim` and the other frontend functions work on code points, not UTF-16 code units.
- The client's DOM updates, `fetch` promise chains, the Bootstrap modal, notifications, `loadItems` and the `debounce` timer (frontend/script.js:5-216, 237-283) are UI and asynchronous I/O. The model keeps only each handler's decision.
- The client's PUT `/items/{id}`, PATCH `/toggle_purchased/{id}` and DELETE `/items/{id}` calls (frontend/script.js:95, 115, 152) target routes this backend does not define. The model keeps only the blank-name guard before the PUT.
- debug.py is an HTTP fetch and HTML scrape with printing. It is not part of this model.
