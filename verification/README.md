# jrlgen reading-list generator — Dafny model

jrlgen is a single-page tool for building a comic-book reading list. It loads a
newline-separated index of book paths and lists them under a search box. Each
keystroke filters the list, and neighbouring results are shaded in alternating
groups. Clicking a result appends it to the reading list, which is exported as
`{items: [{uri, type: 'book'}, ...]}`.

This project models the pure logic of `jrlgen.js` as total functions over
`seq<string>` and proves what that logic guarantees:

- `js_string.dfy` (module `JsString`): the JavaScript string built-ins the page
  relies on. These are `indexOf`, `lastIndexOf`, `substring`, `charAt`,
  `toLowerCase`, `split` with a one-character separator (with `Join`, its
  inverse, used to state what `split` returns), and the string order used by
  `sort()`. Each keeps the built-in's edge cases: the empty needle is found
  at 0, and positions past the end clamp or give `''`.
- `file_names.dfy` (module `FileNames`): `extractFilename` and
  `extractCommonPrefix`.
- `filter_engine.dfy` (module `FilterEngine`): `populateFullList`. It splits
  the query into terms, runs the chained `indexOf` test per path, and computes
  the `even`/`odd` shading marker of every kept path.
- `index_loader.dfy` (module `IndexLoader`): the text pipeline of
  `createAllFilesAsync`. It splits on `\r?\n`, drops the last segment, sorts,
  and prefixes each line with `/data/`.
- `reading_list.dfy` (module `ReadingList`): `addBookToList`, `onAddAll`,
  `onClear`, the `splice(index, 1)` of `onReadingListClick`, and the JSON model
  built in `renderCurrentReadingList`.
- `session.dfy` (module `Session`): the page state (index, listed rows,
  reading list) and the event handlers wired in `init`, as a step function.
  A reading-list click away from an entry's `data-index` span is its own
  event: `parseInt` gives NaN there, and `splice` treats NaN as 0.

The term matcher is modelled as written. `matchedIndex` is found in
`file.substring(matchedIndex)`, so it is relative to that rest. The next term
then uses it as an absolute start in the whole path, so the cursor can move
backwards, and an empty term (from two adjacent spaces) resets it to 0.
`FilterEngine.MatchesInOrderFrom` is a reference matcher that keeps an
absolute cursor instead. The model proves that the page accepts every path that
reference accepts (`InOrderImpliesMatches`). It also shows a path the page
accepts although its terms do not occur in order (`CursorReuseAcceptsOutOfOrder`).

Two consequences of the code are worth stating. The cursor can move
backwards, as described above. `splice(index, 1)` is a no-op for an index at
or past the end of the reading list, and a negative index counts from the end.

## Model

| member | source | states |
|---|---|---|
| `JsString.IndexOf` | jrlgen.js:137 | `indexOf` returns the first position where the needle occurs, or -1 exactly when it occurs nowhere; the empty needle is found at 0 |
| `JsString.LastIndexOf` | jrlgen.js:101 | `lastIndexOf('/')` is the position of a `/` with none after it, or -1 exactly when the string has no `/` |
| `JsString.Substring` | jrlgen.js:102 | `substring(start)` is the suffix from `start`, the whole string for a start at or below 0, and empty past the end |
| `JsString.CharAt` | jrlgen.js:114-115 | `charAt(i)` is the one character at `i` inside the string and `''` outside it |
| `JsString.Lower` | jrlgen.js:130 | lower-casing keeps the length and maps each character on its own (ASCII `A`-`Z` to `a`-`z`) |
| `JsString.Split` | jrlgen.js:130 | `split(' ')` gives one more piece than the string has spaces, no piece holds a space, and joining the pieces with spaces gives back the string |
| `JsString.SplitJoinRoundTrip` | jrlgen.js:130 | `split(' ')` has pieces free of the separator that join back to the string, and splitting a join of separator-free pieces returns them |
| `FileNames.ExtractFilename` | jrlgen.js:100-103 | the name is the longest suffix without `/`: preceded by a `/` when shorter than the path, the whole path when it has no `/` |
| `FileNames.ExtractFilenameOfJoin` | jrlgen.js:100-103 | for `dir + "/" + name` with a `/`-free name the result is exactly `name` |
| `FileNames.ExtractCommonPrefix` | jrlgen.js:110-121 | the result is a prefix of both strings, and where it is shorter than both their next characters differ (the `i > path2.length` test never cuts it short) |
| `FileNames.CommonPrefixIsLongest` | jrlgen.js:110-121 | a prefix of length `k` is shared by both strings exactly when `k` is at most the result's length |
| `FileNames.CommonPrefixSymmetric` | jrlgen.js:110-121 | the common prefix does not depend on the argument order |
| `FilterEngine.QueryTerms` | jrlgen.js:130 | there is one term per space in the query plus one |
| `FilterEngine.QueryTermsArePieces` | jrlgen.js:130 | the terms contain no space and, joined with single spaces, give back the lower-cased query |
| `FilterEngine.EmptyQueryTerms` | jrlgen.js:126-130 | the empty (default) query is the single empty term |
| `FilterEngine.SingleTermMatch` | jrlgen.js:134-145 | with one term a path is kept exactly when its lower-cased text contains the term |
| `FilterEngine.MatchesFrom` | jrlgen.js:134-142 | the chained `indexOf` test (at cursor 0 it is `Matches`): a path it keeps contains every term in its lower-cased text |
| `FilterEngine.EmptyTermsMatchEverything` | jrlgen.js:136-141 | terms that are all empty keep every path, because each is found at 0 |
| `FilterEngine.CursorNotAfterMatch` | jrlgen.js:137 | when a term occurs at or after an absolute position, the search from a cursor at or before it finds the term, and the relative position found never lies after that occurrence |
| `FilterEngine.InOrderImpliesMatches` | jrlgen.js:134-145 | a path whose terms occur in order under an absolute cursor is kept |
| `FilterEngine.CursorReuseAcceptsOutOfOrder` | jrlgen.js:137 | `"xcxab"` with terms `a b c` is kept although `c` does not follow `b`: the cursor goes 3, then 1 |
| `FilterEngine.NextMarker` | jrlgen.js:147-154 | the marker flips exactly when there is a non-empty previous name and the two names do not begin with the same 6 characters |
| `FilterEngine.Filter` | jrlgen.js:133-161 | every listed row is a path of the index that passes the term test, and there are no more rows than index paths |
| `FilterEngine.FilterIsOrderedSubsequence` | jrlgen.js:133-161 | the k-th listed path is the index entry at a strictly increasing position, and an entry is listed exactly when it matches |
| `FilterEngine.FilterNoDuplication` | jrlgen.js:133-161 | no path is listed more often than it occurs in the index |
| `FilterEngine.FilterShading` | jrlgen.js:131-154 | the first listed path is odd; each later one changes marker exactly when the previous file name is non-empty and the two names share fewer than 6 leading characters |
| `FilterEngine.EmptyQueryKeepsAll` | jrlgen.js:126-145 | the empty query lists the whole index in its order |
| `FilterEngine.TwoTermExample` | jrlgen.js:130-145 | `"a b"` over `/x/ab1`, `/x/ba2`, `/x/cd3` lists only `/x/ab1` |
| `FilterEngine.ShadingExample` | jrlgen.js:147-154 | names `alpha1.cbr`, `alpha2.cbr`, `beta1.cbr` are shaded odd, even, odd |
| `IndexLoader.SplitLinesCharacterisation` | jrlgen.js:32 | splitting at `\r?\n` is splitting at line feeds after turning each `\r\n` into `\n`: one more segment than line feeds, none holding a line feed |
| `IndexLoader.SplitLines` | jrlgen.js:32 | `split(/\r?\n/)` gives one more line than the text has line feeds |
| `IndexLoader.SplitLinesFromIsSplit` | jrlgen.js:32 | scanning for `\r\n` or `\n` from any partial line gives the same lines as scanning for `\n` after turning each `\r\n` into `\n` |
| `IndexLoader.Sort` | jrlgen.js:34 | `sort()` returns an ascending permutation of its input |
| `IndexLoader.SortedPermutationUnique` | jrlgen.js:34 | any two ascending permutations of the same strings are equal, so every correct sort agrees with `sort()` |
| `IndexLoader.ParseIndex` | jrlgen.js:31-35 | one entry per line feed of the text, each `/data/` followed by a line free of line feeds |
| `IndexLoader.ParseIndexContract` | jrlgen.js:31-35 | one entry per line feed (an unterminated last line is lost), each `/data/` followed by a line without a line feed, ascending, and equal to the rooted lines sorted |
| `IndexLoader.ParseIndexExample` | jrlgen.js:31-35 | `"a.cbr\nb.cbr\n"` loads as `/data/a.cbr`, `/data/b.cbr` |
| `ReadingList.AddBook` | jrlgen.js:14-16 | the book is appended after the unchanged list |
| `ReadingList.AddAll` | jrlgen.js:44-46 | pushing each filtered path in turn appends the whole filtered list in order |
| `ReadingList.SpliceStart` | jrlgen.js:83 | the start of `splice` is clamped into the list: a start in range is kept, a negative one counts from the end, and one outside either bound becomes 0 or the length |
| `ReadingList.Splice` | jrlgen.js:83 | `splice(start, deleteCount)` keeps everything before the clamped start and the tail of the list after it, removes `min(deleteCount, rest)` elements, and none for a count of 0 or less |
| `ReadingList.Clear` | jrlgen.js:50-51 | `splice(0, length)` leaves the list empty |
| `ReadingList.RemoveAt` | jrlgen.js:80-83 | `splice(index, 1)` removes exactly the element at `index` and keeps the rest in order (negative indices count from the end), and changes nothing at or past the end |
| `ReadingList.RemovedAtMultiset` | jrlgen.js:83 | a removal takes away exactly one copy of the removed entry |
| `ReadingList.ExportItems` | jrlgen.js:165-169 | one `{uri, type: 'book'}` record per entry, with the entry as uri, in list order |
| `ReadingList.Export` | jrlgen.js:165-169 | the document has the record `{uri: entry, type: 'book'}` for each entry, in list order |
| `ReadingList.ExportRoundTrip` | jrlgen.js:165-169 | the uris of the export are exactly the reading list |
| `ReadingList.ExportAddBook` | jrlgen.js:165-169 | appending a book appends exactly one record for it to the export |
| `ReadingList.SelectionExample` | jrlgen.js:80-83 | adding `/a` and `/b` and removing position 0 leaves `/b`, exported as one book record |
| `ReadingList.ClearExportsNothing` | jrlgen.js:50-54 | after clearing, the export has no records |
| `Session.KeyUpQuery` | jrlgen.js:88-93 | ESC (key code 27) filters with the empty query; any other key filters with the box's text |
| `Session.Init` | jrlgen.js:191-202 | after loading, the whole index is listed and the reading list is empty |
| `Session.Load` | jrlgen.js:24-35 | the loaded state lists exactly the parsed index |
| `Session.Step` | jrlgen.js:74-94 | no event changes the index; only key presses change the listed rows, and key presses leave the reading list alone; a click on a listed row appends its path, "add all" appends every listed path in order, and "clear" empties the reading list |
| `Session.InitValid` | jrlgen.js:191-202 | initially every listed row and reading-list entry is an index path |
| `Session.StepValid` | jrlgen.js:74-94 | every event keeps the listed rows and the reading list inside the index |
| `Session.EscListsEverything` | jrlgen.js:88-94 | ESC lists the whole index again, in order |
| `Session.UnindexedClickRemovesFirst` | jrlgen.js:80-83 | a reading-list click away from any `data-index` span gives `splice(NaN, 1)`, which drops the first entry |
| `Session.AddAllExport` | jrlgen.js:44-48 | after "add all", the export's uris are the old entries followed by every listed path |

## Left out

- DOM work is not modelled: element lookup, `innerHTML`, `createElement`/`append`, CSS classes, the per-row HTML with its trailing commas, focus and scroll restoration, and listener wiring. Only the data the page renders is modelled (rows with markers, the export records).
- Fetching the index (`XMLHttpRequest`, the `Promise`, `.then`/`.catch`/`alert`) is not modelled. `Session.Load` takes the response text as a parameter, and the failed load that leaves the page inert is not modelled.
- `onDone` is not modelled: its `JSON.parse`/`JSON.stringify` pretty-printing and the `window.open`/`document.write` output. `ReadingList.Export` is the data it prints.
- `JsString.Lower` maps only ASCII `A`-`Z`. Full Unicode `toLowerCase` can change a string's length and so shift positions, and it is not modelled.
- `JsString.LexLe` orders strings by Dafny characters (Unicode scalar values). JavaScript's `sort()` compares UTF-16 code units, which differs only for characters outside the Basic Multilingual Plane.
- `Session.Step` assumes that a click on the result list lands on a listed row and that the row's `textContent` is its path, so `FullListClick` appends `rows[row].file` and a row number outside the list changes nothing. The page instead appends the `textContent` of whatever was clicked. The row's markup is built by putting the raw path into `innerHTML`, so a path holding markup or a character reference (`<i>`, `&amp;`) appends a different string. A click on the list container itself appends the text of every row run together. Neither case is modelled.
- `FilterEngine.Filter` states in its own contract only that rows are matching index paths and that there are no more rows than paths. Order, completeness and markers are stated by `FilterIsOrderedSubsequence`, `FilterNoDuplication`, `FilterShading` and `EmptyQueryKeepsAll`.
- `JsString` and `FilterEngine.NextMarker` count positions and lengths in Dafny characters (Unicode scalar values), while JavaScript counts UTF-16 code units. For text outside the Basic Multilingual Plane, `indexOf`, `substring` and `charAt` positions differ, and so does the `prefix.length < 6` test. For example, JavaScript sees 6 shared code units in the names `😀😀😀a` and `😀😀😀b` and keeps the marker, while the model sees 3 shared characters and flips it.
