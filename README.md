# Quote generator: the quote store

A Dafny model of the quote store inside the quote generator page
(`dom-manipulation/script.js`). The page keeps one ordered, mutable list of
`{ text, category }` records. It seeds the list on start-up when nothing is
stored. A quote typed into the form is added after both fields are trimmed.
The list of category options is derived from the records. The displayed
quote is drawn from the whole list or from one category. A JSON file can be
imported. Every sync pass appends the server's records that are not yet
present.

Layout:

- `wrappers.dfy` (`Wrappers`): `Option`.
- `sequences.dfy` (`Sequences`): `Distinct`, the distinct elements of a
  sequence in first-seen order (what `[...new Set(xs)]` yields). Also
  `FirstIndex` and `NoDuplicates`.
- `jsstring.dfy` (`JsString`): ECMAScript `String.prototype.trim`, over the
  ECMAScript WhiteSpace and LineTerminator code points.
- `quotes.dfy` (`Quotes`): the `Quote` record and the seed list. Also the
  pure parts of the page: validating a new quote, the category options,
  filtering, the choice of the displayed quote, and `Merge`, the list a sync
  pass leaves, with its reference form `local + Distinct(NotIn(server, local))`.
- `store.dfy` (`Store`): class `QuoteStore`. It holds the in-memory list and
  the copy last saved to local storage. Its methods change the list in place:
  `AddQuote`, `ImportFromJsonFile`, and `SyncQuotes`, whose loop is proved
  against `Merge`.

Edge cases of the code that the model keeps as they are:

- A stored `lastCategory` naming a category that no longer exists is kept:
  line 82 falls back to "all" only when nothing, or an empty string, is
  stored.
- Corrupt stored data is not treated as absent: `JSON.parse` at line 4
  throws on it. The model takes the already-parsed stored value.
- Import fails only when the parsed value cannot be spread into the list
  (line 122); it does not check that the value is an array. The model takes
  the parsed records or a failure.
- "all" is prepended outside the `Set` (line 71). A record whose category is
  literally "all" therefore makes "all" appear twice among the options.
  `Quotes.CategoriesNoDuplicatesIff` states exactly when this happens.

## Model

| member | source | states |
|---|---|---|
| JsString.Trim | dom-manipulation/script.js:38-39 | the trimmed string is a slice of the input with only whitespace outside it; it neither starts nor ends with whitespace; it is empty exactly when the input is all whitespace |
| JsString.TrimIdempotent | dom-manipulation/script.js:38-39 | trimming a trimmed string changes nothing |
| Quotes.NewQuote | dom-manipulation/script.js:38-46 | the input is accepted exactly when neither field is all whitespace; an accepted record holds the trimmed text and the trimmed category |
| Quotes.NewQuoteIsClean | dom-manipulation/script.js:38-46 | an accepted record has non-empty fields that are already trimmed |
| Quotes.Categories | dom-manipulation/script.js:71 | the option list starts with "all" and continues with the distinct categories of the records |
| Quotes.CategoriesContents | dom-manipulation/script.js:71 | after "all", each option is the category of some record, every record's category is among them, and none repeats |
| Quotes.CategoriesFirstSeenOrder | dom-manipulation/script.js:71 | the options after "all" are ordered by the first record that carries each category |
| Quotes.CategoriesNoDuplicatesIff | dom-manipulation/script.js:71 | the whole option list is duplicate-free if and only if no record has the category "all" |
| Quotes.CategoriesScenario | dom-manipulation/script.js:71 | records of categories X, Y, X give the options "all", "X", "Y" |
| Sequences.Distinct | dom-manipulation/script.js:71 | the spread Set holds no duplicates and has the same elements as the category column |
| Sequences.DistinctFirstSeenOrder | dom-manipulation/script.js:71 | the spread Set lists its elements in the order of their first occurrences |
| Quotes.MatchingCategory | dom-manipulation/script.js:96 | the filter keeps a record if and only if it is in the list and has the requested category |
| Quotes.MatchingCategoryIsMatchingIndices | dom-manipulation/script.js:96 | the filter's result is the records at exactly the matching positions, in ascending order |
| Quotes.Filtered | dom-manipulation/script.js:93-97 | "all" selects the whole list; any other category selects exactly the records of that category |
| Quotes.DisplayRandomQuote | dom-manipulation/script.js:23-30 | an empty list gives "No quotes available" and nothing else does; otherwise the shown record is the one at the drawn index, which lies below the length |
| Quotes.EveryQuoteCanBeShown | dom-manipulation/script.js:28-29 | every record of the list is shown for some draw |
| Quotes.FilterQuotes | dom-manipulation/script.js:89-97 | a shown record comes from the list and, under a category other than "all", has that category; nothing is shown exactly when no record passes the filter |
| Quotes.Merge | dom-manipulation/script.js:164-170 | the old list is a prefix of the merged list; every server record is in the merged list; every appended record comes from the server |
| Quotes.MergeIsLocalPlusNew | dom-manipulation/script.js:164-170 | the merged list is the old list followed by the server records missing from it, each once, in server order |
| Quotes.MergeAppendsOnlyNew | dom-manipulation/script.js:165-170 | the appended records are pairwise different and none of them was already in the list, so duplicates within the server batch are suppressed |
| Quotes.MergeAllPresent | dom-manipulation/script.js:165-170 | a server list whose records are all present leaves the list as it is |
| Quotes.MergeIdempotent | dom-manipulation/script.js:165-170 | merging the same server list twice gives the same list as merging it once |
| Quotes.MergeGrowsIff | dom-manipulation/script.js:164-172 | the list grows if and only if some server record was not in it |
| Quotes.SyncScenario | dom-manipulation/script.js:164-170 | a local "Be kind"/Ethics list synced with that record plus "Dream big"/Motivation gains only the second record |
| Store.HasEqual | dom-manipulation/script.js:166 | the field-wise text and category test holds exactly when the record is in the list |
| Store.QuoteStore.constructor | dom-manipulation/script.js:4-8 | the list is the stored list when one is stored (also an empty one), otherwise the three seed quotes |
| Store.QuoteStore.Save | dom-manipulation/script.js:60-62 | the stored copy becomes the current list; the list is unchanged |
| Store.QuoteStore.AddQuote | dom-manipulation/script.js:37-48 | a rejected input leaves the list and the stored copy unchanged; an accepted one appends exactly the trimmed record after the unchanged old list and saves |
| Store.QuoteStore.ImportFromJsonFile | dom-manipulation/script.js:119-129 | parsed records are appended in order after the old list and saved; a parse failure changes nothing |
| Store.QuoteStore.SyncQuotes | dom-manipulation/script.js:161-173 | the new list is Merge of the old list and the server list; updated is true exactly when the list grew; the list is saved only then |
| Store.SyncTwice | dom-manipulation/script.js:161-173 | a second sync against an unchanged server list reports no update and does not save; the first reports one exactly when some server record was new, and the stored copy is the merged list exactly then |

## Left out

- Rendering and the form: `innerHTML`, `createElement`, `alert`, `createAddQuoteForm`, clearing the inputs (lines 53-54). This is UI.
- The refresh calls after a change (`displayRandomQuote`, `populateCategories`) are left out. The model states the list they would read.
- `Math.random` (line 28) is floating point. The draw is an index parameter bounded by the list's length, which `Math.floor(Math.random() * n)` respects.
- `sessionStorage` "lastQuote" (lines 11 and 31) is advisory browser storage, written once a quote is shown.
- The "lastCategory" key (lines 82 and 91) and setting the selector's value are local-storage UI state. No existence fallback is modelled, because the code has none.
- The page writes the whole list with `JSON.stringify` to local storage. The model keeps only that snapshot, `QuoteStore.saved`.
- Store.QuoteStore.Save: a failing write is not modelled; `Save` always succeeds. In the page, `localStorage.setItem` (line 61) can throw, for instance when the storage quota is exceeded. The list has already been changed by then (lines 47, 122 and 167), so it stays changed in memory while the stored copy keeps its old value. During an import the throw is caught at lines 127-129 and the user is told "Invalid JSON file." although the records were appended. In `addQuote` (line 48) and `syncQuotes` (line 173) the throw escapes the handler and the remaining refresh steps are skipped.
- `JSON.parse` is a foreign call. The stored list and the imported file arrive already parsed. A corrupt stored value would throw at line 4; that is not modelled.
- `ImportFromJsonFile`: a parsed value is either a list of records or a failure. Two cases are outside that: spreading an iterable that is not an array (a JSON string is pushed one character at a time), and array elements without `text` or `category`.
- `FileReader`, the file picker, and `exportToJsonFile` (lines 103-112) are browser file I/O.
- `fetchQuotesFromServer` and `postQuotesToServer` are network I/O. The server list is an input of `SyncQuotes`. The post after an add is not modelled.
- `setInterval` and the overlap of asynchronous `syncQuotes` runs are timer and concurrency concerns. Each sync is modelled as one uninterrupted pass.
