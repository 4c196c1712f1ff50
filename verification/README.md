# openinapp upload page and route guard, modelled in Dafny

openinapp is a small Next.js dashboard. A signed-in user picks a CSV file
with the columns `id`, `links`, `prefix` and `select tags`. The upload page
parses the file into rows, and for each row shows the candidate tags that
the row lists in its `select tags` cell. The user selects some of those tags
per row and can remove them again. A route guard in front of the dashboard
sends requests for the upload page to the sign-in page when no session token
is present.

This project models two parts of that behaviour:

- **The upload page** (`app/dashboard/upload/page.tsx`):
  - the row transform from parsed CSV records into displayed rows, which splits the tag cell at commas and trims each piece;
  - the per-row tag selection: select, remove, and which tags are still on offer;
  - the page state as a class whose handlers change it in place: choosing a file, uploading it, and removing it.
- **The route guard** (`middleware.ts`): the protected-path prefix test, and the decision to redirect or continue.

Layout:

- `wrappers.dfy`: `Option`, which stands for a value that may be `undefined`/`null`.
- `seqs.dfy`: `Array.prototype.filter` as `Filter`, plus subsequence, duplicate-freedom and element-count facts about it.
- `js_string.dfy`: the JavaScript string operations the core calls:
  - `trim`, with the ECMAScript white-space and line-terminator set;
  - `split` on a one-character separator;
  - `startsWith`.

  It also defines `Join`, which the core never calls. `Join` serves only as the inverse of `Split` in the round-trip lemmas: split and join undo each other, and trim is idempotent.
- `upload_rows.dfy`: the CSV record and displayed-row types, and the row transform.
- `tag_selection.dfy`: the pure per-row selection operations and the lemmas that relate them.
- `upload_page.dfy`: class `UploadPageState`. Its fields are the page's `file`, `uploadedData` and `selectedTags` state, and its methods are the event handlers. It also holds walkthroughs built from the handlers.
- `route_guard.dfy`: the middleware decision as a pure function of the path and whether a token was found.

The code resets the tag selections only in `handleRemoveFile`. Choosing a new
file (`handleFileChange`) and uploading it (`handleUpload`) leave
`selectedTags` as it is, so a row of a new file whose `id` was used before
starts out with the old row's selection. The model follows the code, and
`UploadPage.NewFileKeepsSelectionScenario` shows the consequence: a
candidate tag of the new row is hidden because the earlier row selected it.

## Model

| member | source | states |
|---|---|---|
| Seqs.Filter | app/dashboard/upload/page.tsx:96 | `filter` keeps exactly the elements that pass the predicate and never grows the array |
| Seqs.FilterIsSubsequence | app/dashboard/upload/page.tsx:96 | `filter` keeps the survivors in their original relative order |
| Seqs.FilterCount | app/dashboard/upload/page.tsx:96 | `filter` keeps every copy of a passing element and no copy of a failing one |
| Seqs.FilterAppend | app/dashboard/upload/page.tsx:96 | filtering a concatenation is the concatenation of the filtered parts |
| Seqs.FilterKeepsAll | app/dashboard/upload/page.tsx:101 | when every element passes, `filter` returns the array unchanged |
| Seqs.FilterNoDup | app/dashboard/upload/page.tsx:96 | filtering a duplicate-free array leaves it duplicate-free |
| JsString.LeadingWhiteSpace | app/dashboard/upload/page.tsx:62 | the length of the leading run of white space: everything before it is white space, and the next character is not |
| JsString.TrimStart | app/dashboard/upload/page.tsx:62 | the result is a suffix of the input, the removed part is all white space, and the result does not start with white space |
| JsString.TrimEnd | app/dashboard/upload/page.tsx:62 | the result is a prefix of the input, the removed part is all white space, and the result does not end with white space |
| JsString.Trim | app/dashboard/upload/page.tsx:62 | `trim` returns the contiguous slice of the input between the leading and the trailing white space, and neither end of the result is white space |
| JsString.TrimOfTrimmed | app/dashboard/upload/page.tsx:62 | trimming a string with no white space at either end changes nothing |
| JsString.TrimPadded | app/dashboard/upload/page.tsx:62 | trimming white-space padding off a trimmed string gives back that string |
| JsString.TrimIdempotent | app/dashboard/upload/page.tsx:62 | trimming twice is the same as trimming once |
| JsString.Split | app/dashboard/upload/page.tsx:62 | `split(",")` gives one more piece than there are commas, and no piece contains a comma |
| JsString.JoinThree | app/dashboard/upload/page.tsx:62 | a helper for the split round trip, not a source operation: joining three pieces puts the separator between each neighbouring pair |
| JsString.JoinSplit | app/dashboard/upload/page.tsx:62 | joining the pieces of a split with the same separator gives back the original string |
| JsString.SplitWithoutSeparator | app/dashboard/upload/page.tsx:62 | a string without the separator splits into itself alone |
| JsString.SplitAtSeparator | app/dashboard/upload/page.tsx:62 | splitting at the first separator gives the part before it, followed by the split of the rest |
| JsString.SplitJoin | app/dashboard/upload/page.tsx:62 | splitting a join of separator-free pieces gives back those pieces |
| JsString.StartsWith | middleware.ts:15 | `startsWith` holds exactly when the prefix is no longer than the string and equals its first characters |
| UploadRows.TrimEach | app/dashboard/upload/page.tsx:62 | `.map((tag) => tag.trim())` keeps the length and trims each piece at its own position |
| UploadRows.ParseTags | app/dashboard/upload/page.tsx:61-63 | an absent or empty cell gives no tags. Otherwise there is one tag per comma-separated piece, the comma count plus one, including empty pieces, and each tag is that piece trimmed, with no comma and no outer white space |
| UploadRows.ParseRows | app/dashboard/upload/page.tsx:57-64 | one row per parsed record, in the same order. Each row's `id`, `link` and `prefix` are the record's `id`, `links` and `prefix`, and its tags are the parsed tag cell |
| UploadRows.ParseRowsAppend | app/dashboard/upload/page.tsx:57-64 | the transform works record by record: parsing two batches one after the other gives the same rows as parsing them together |
| UploadRows.ParseTagsJoin | app/dashboard/upload/page.tsx:61-63 | when every comma-separated piece of a nonempty cell is already trimmed, joining the tags with commas gives back the cell |
| UploadRows.ParseTagsOfJoin | app/dashboard/upload/page.tsx:61-63 | a nonempty cell written as comma-free fields joined by commas parses into those fields, each trimmed |
| UploadRows.ParseTagsJoinRoundTrip | app/dashboard/upload/page.tsx:61-63 | a nonempty list of trimmed, comma-free tags written out with commas parses back into the same list |
| UploadRows.ParseTagsOfThreeFields | app/dashboard/upload/page.tsx:61-63 | the cell `x,y,z` parses into `x`, `y` and `z`, each trimmed |
| UploadRows.TrimEachStripsPadding | app/dashboard/upload/page.tsx:62 | trimming each of three pieces removes white-space padding around the middle piece |
| UploadRows.ParseTagsTrimsFields | app/dashboard/upload/page.tsx:61-63 | white space around a field of the cell does not reach the tag |
| UploadRows.ParseTagsSpacedExample | app/dashboard/upload/page.tsx:61-63 | the cell `a, b ,c` parses into `a`, `b`, `c` |
| UploadRows.ParseTagsKeepsEmptyPieces | app/dashboard/upload/page.tsx:61-63 | the cell `a,,b` parses into `a`, an empty tag, and `b`: empty pieces are kept |
| TagSelection.AddTag | app/dashboard/upload/page.tsx:85-88 | selecting a tag keeps the old selection as a prefix, adds at most one element, and afterwards the tag is selected; the other members are exactly the old ones. A tag already selected leaves the selection as it was |
| TagSelection.RemoveAll | app/dashboard/upload/page.tsx:96 | the tag is gone, every other tag keeps its count, and the rest keep their relative order |
| TagSelection.Available | app/dashboard/upload/page.tsx:101 | exactly the candidates that are not selected, in candidate order, with every copy of a repeated unselected candidate kept and no copy of a selected one |
| TagSelection.AddTagIdempotent | app/dashboard/upload/page.tsx:85-88 | selecting the same tag twice is the same as selecting it once |
| TagSelection.AddTagKeepsNoDup | app/dashboard/upload/page.tsx:85-88 | selecting keeps a duplicate-free selection duplicate-free |
| TagSelection.RemoveAllKeepsNoDup | app/dashboard/upload/page.tsx:96 | removing keeps a duplicate-free selection duplicate-free |
| TagSelection.RemoveAllAbsent | app/dashboard/upload/page.tsx:96 | removing a tag that is not selected changes nothing |
| TagSelection.RemoveUndoesAdd | app/dashboard/upload/page.tsx:83-98 | removing a tag just selected, one that was not selected before, restores the earlier selection exactly |
| TagSelection.AddAfterRemove | app/dashboard/upload/page.tsx:83-98 | selecting a tag after removing it puts it at the end of the selection |
| TagSelection.AvailableDisjoint | app/dashboard/upload/page.tsx:101 | no tag on offer is selected |
| TagSelection.AvailableComplement | app/dashboard/upload/page.tsx:101 | when the selection is drawn from the candidates, the offered and the selected tags together are the candidates, as sets |
| TagSelection.AvailableNothingSelected | app/dashboard/upload/page.tsx:101 | with nothing selected, every candidate is offered, in candidate order |
| TagSelection.AvailableAfterRemove | app/dashboard/upload/page.tsx:93-102 | after a removal, the tags on offer are the earlier ones plus the removed tag when it is a candidate |
| TagSelection.AvailableAfterAdd | app/dashboard/upload/page.tsx:83-102 | after selecting a tag, the tags on offer are the earlier offer without that tag, in the same order |
| UploadPage.UploadPageState.constructor | app/dashboard/upload/page.tsx:22-27 | the page starts with no file, no rows and no selections |
| UploadPage.UploadPageState.SelectedFor | app/dashboard/upload/page.tsx:85 | `selectedTags[rowId] \|\| []`: the stored selection for the row id, or nothing when the id has no entry; on a valid page it has no duplicates |
| UploadPage.UploadPageState.GetAvailableTags | app/dashboard/upload/page.tsx:100-102 | the row's candidates that are not selected for its id, in candidate order, every copy of a repeated unselected candidate kept. A row id never touched counts as nothing selected |
| UploadPage.UploadPageState.HandleFileChange | app/dashboard/upload/page.tsx:31-36 | a picked file replaces the current one, and no pick keeps it. Rows and selections are untouched |
| UploadPage.UploadPageState.HandleUpload | app/dashboard/upload/page.tsx:48-75 | with a file chosen, a completed parse replaces the rows with the transformed records. A parse error, or no file, leaves the rows. Selections are untouched |
| UploadPage.UploadPageState.HandleTagSelect | app/dashboard/upload/page.tsx:83-91 | the row's selection gets the tag appended when it is absent and stays the same when it is present. The entry is written either way, no other row's entry changes, and selections stay duplicate-free |
| UploadPage.UploadPageState.RemoveTag | app/dashboard/upload/page.tsx:93-98 | needs an existing entry for the row. Afterwards the tag is absent from that row's selection and the remaining tags keep their order. No other row's entry changes, and selections stay duplicate-free |
| UploadPage.UploadPageState.HandleRemoveFile | app/dashboard/upload/page.tsx:38-46 | the file, the rows and every selection are cleared, so every row is offered all of its candidate tags |
| UploadPage.RedBlueTags | app/dashboard/upload/page.tsx:61-63 | the cell `red,blue` gives the tags `red` and `blue` |
| UploadPage.RedBlueUpload | app/dashboard/upload/page.tsx:57-64 | a one-record file whose row `1` has the tag cell `red,blue` becomes one row with those two candidate tags, whatever its link and prefix |
| UploadPage.RedBlueSelection | app/dashboard/upload/page.tsx:83-102 | selecting `red` from nothing gives `[red]`, removing it gives nothing, and `blue` alone stays on offer while `red` is selected |
| UploadPage.SelectThenRemove | app/dashboard/upload/page.tsx:83-102 | on a page with one row offering `red` and `blue`: selecting `red` shows `red` and offers only `blue`, and removing it offers both again and shows nothing |
| UploadPage.SelectThenRemoveScenario | app/dashboard/upload/page.tsx:31-102 | the same walkthrough from a fresh page, through choosing and uploading the file |
| UploadPage.UploadKeepsSelection | app/dashboard/upload/page.tsx:31-75 | on a page where row `1` has `red` selected, choosing and uploading a file whose row `1` lists `red,blue` shows `red` as selected and offers only `blue` |
| UploadPage.NewFileKeepsSelectionScenario | app/dashboard/upload/page.tsx:31-91 | after selecting `red` on row `1`, choosing and uploading a new file whose row `1` lists `red,blue` still shows `red` as selected and offers only `blue` |
| RouteGuard.SomeIsPrefix | middleware.ts:14-16 | `.some(path => pathname.startsWith(path))` holds exactly when some listed path is a prefix of the pathname |
| RouteGuard.PathIsProtected | middleware.ts:5-16 | a path is protected exactly when it starts with `/dashboard/upload`, character for character |
| RouteGuard.Middleware | middleware.ts:4-26 | the guard redirects exactly when the path is protected and no token was found, and a redirect always goes to `/signin` |
| RouteGuard.TokenAlwaysContinues | middleware.ts:18-25 | with a token the request continues, whatever the path |
| RouteGuard.ProtectedWithoutTokenRedirectsToSignIn | middleware.ts:18-22 | a protected path without a token redirects to `/signin`, whatever path was requested |
| RouteGuard.ProtectedIsClosedUnderExtension | middleware.ts:14-16 | anything appended to a protected path is protected too |
| RouteGuard.RawPrefixExamples | middleware.ts:14-16 | `/dashboard/uploads` and `/dashboard/upload/x` are protected. `/dashboard` is not, and neither is `/Dashboard/upload`, since matching is case sensitive |

## Left out

- Papa.parse itself is not modelled: tokenising the CSV text, using the first line as the header, and reading the file. Its `results.data` is an input: a sequence of records with string fields.
- `dynamicTyping: true` is not modelled. With it, Papa.parse turns numeric-looking cells into numbers, so `id` may not be a string and a numeric tag cell has no `split`. Every cell is taken to be a string here.
- Whether the parse completes or fails is an input to `HandleUpload` (`ParseOutcome`). The asynchronous callback, the `console` logging and the `isLoading` flag are not modelled.
- `fileInputRef`, the click on the hidden file input, and all rendering are not modelled. Neither is clearing the file input's value in `handleRemoveFile`.
- A file is represented by its name.
- UploadPage.UploadPageState.HandleTagSelect: the source pushes onto the array already stored in the previous state, so it mutates that array in place. The model builds a new sequence instead. The resulting state is the same, and no other holder of the old array is modelled.
- UploadPage.UploadPageState.RemoveTag: the source throws when the row has no entry, because `undefined` has no `filter`. The model requires the entry instead.
- UploadPage.UploadPageState.SelectedFor: `selectedTags` is a plain JavaScript object in the source, and the model makes it a map. A row id that names an inherited `Object.prototype` member (`constructor`, `toString`, `__proto__`, `hasOwnProperty`, ...) reads the inherited value in the source. Then `includes` is not a function, and both rendering the row and selecting a tag for it throw. The model gives such an id an empty selection, so it offers every candidate.
- Rows are keyed by `id` alone, as in the source, so two rows with the same `id` share one selection. The model inherits that.
- The middleware's token lookup (`getToken`, JWT decoding, the secret) is not modelled. It is the boolean input `hasToken`.
- Building the redirect URL against the request URL is not modelled. The redirect carries only the path `/signin`.
- The `matcher` config that limits where the middleware runs is not modelled: the guard is defined for every path.
- The sign-in form, the authentication configuration, the landing and dashboard redirects, and the presentational components (sidebar, top bar, theme toggle, layout) are not part of this model.
