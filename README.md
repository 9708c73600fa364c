# Site roster of the administration panel, in Dafny

The page script `js/script.js` keeps an ordered list of site records,
`allSites`, each with a display name, a safe name, a URL, a status and a
creation date. It offers four actions on that list: a filter box that narrows
the table, a delete action per row, a rename action per row, and a create form
that asks the backend for a new site and then reloads the list. Two counters
under the table show how many rows are displayed and the creation date of the
last one.

This project models that roster and the handlers that change it:

- `prelude.dfy` (`Prelude`): `Option`, and the subsequence relation used to state "same order".
- `text.dfy` (`Text`): the JavaScript string operations the script relies on.
  - `trim` and the `\s` class are modelled with ECMAScript's exact WhiteSpace and LineTerminator set.
  - `toLowerCase` is modelled on ASCII letters only.
  - `includes` and `indexOf` are modelled as leftmost occurrence.
  - `replace` with a string pattern is modelled as first occurrence only, with the `$` patterns of GetSubstitution.
- `roster.dfy` (`Roster`): the `Site` record and the pure list transformations, with their lemmas:
  - safe-name normalisation;
  - the filter;
  - delete by safe name;
  - the rename map;
  - the counters.
- `controller.dfy` (`SiteList`): the page state as the class `Controller`.
  - Its fields are the roster, the filter box, the name box, the table, the counters and the form message.
  - Each event handler is a method that states the whole new state.
  - Dialog answers and server replies are parameters of the handlers.
  - The invariant `Valid` says the table shows the roster as the filter box selects it, and the counters describe the table.
- `scenarios.dfy` (`Scenarios`): general forms of the worked rename examples.
  - "Acme" with URL "https://acme/" renamed to "Acme Two" gives "acmetwo" and "https://acmetwo/".
  - What a `$&` in a new safe name does.

`replace` with a string pattern treats `$&`, `$$`, `` $` `` and `$'` in the
replacement as patterns (the GetSubstitution operation of ECMA-262).
Normalisation keeps `$`, and `Roster.Renamed` models this exactly as the script
runs it. `Scenarios.DollarAmpersandRename` shows the consequence: renaming a
site so that its safe name becomes `$&` stores that safe name but leaves the URL
as it was. `Roster.RenamedUrlFirst` states the literal rewrite for safe names
without `$`.

## Model

| member | source | states |
|---|---|---|
| Roster.Normalize | js/script.js:115 | the safe name has no white space and no upper-case letter |
| Roster.NormalizeIdempotent | js/script.js:115 | normalising a safe name again gives the same safe name |
| Roster.NormalizeOfTrim | js/script.js:114-115 | normalising the trimmed new name equals normalising the raw one |
| Roster.QueryOfSpec | js/script.js:61 | the compared query has no capital letter, the trimmed text's length, no white space at either end, and is empty exactly when the box holds only white space |
| Roster.MatchesIff | js/script.js:64-65 | a record matches exactly when the query occurs somewhere in its lower-cased name or its lower-cased URL |
| Roster.Filter | js/script.js:61-67 | the shown list is never longer than the roster, and with a non-blank query every shown record matches it |
| Roster.KeepMatching | js/script.js:63-66 | `filter` with the matching test keeps at most the roster's records, and only matching ones |
| Roster.FilterBlankQuery | js/script.js:61-67 | a query of only white space shows the whole roster, same elements, same order |
| Roster.FilterIsKeepMatching | js/script.js:61-67 | the empty-query shortcut agrees with filtering by the empty query, so the filter is one rule for every query |
| Roster.FilterSpec | js/script.js:61-66 | the shown list is an order-preserving subsequence of the roster; it holds a record exactly when its lower-cased name or URL contains the trimmed, lower-cased query, and as often as the roster does |
| Roster.FilterEmptyIff | js/script.js:61-68 | the table is empty exactly when no record matches |
| Roster.KeepMatchingSpec | js/script.js:63-66 | `filter` with the test keeps order and keeps exactly the matching records with their multiplicity |
| Roster.KeepMatchingLast | js/script.js:63-66 | the final kept record is the last matching record of the roster |
| Roster.StatsOf | js/script.js:31-36 | the total is the list's length; "last created" is the dash exactly for the empty list, otherwise the date of its final element |
| Roster.FilterStatsLast | js/script.js:31-36 | after filtering, "last created" is the date of the last matching record |
| Roster.FilterStatsBounds | js/script.js:31-36 | after filtering the total is at most the roster's size, and the dash is shown exactly when nothing matches |
| Roster.RemoveBySafe | js/script.js:84 | delete never lengthens the roster, and no kept record has the deleted safe name |
| Roster.RemoveBySafeSpec | js/script.js:84 | delete keeps the other records in their order and with their multiplicity, and removes every record of the safe name |
| Roster.RemoveBySafeAbsent | js/script.js:84 | deleting a safe name no record carries leaves the roster unchanged |
| Roster.RemoveBySafeIdempotent | js/script.js:84 | deleting twice is deleting once |
| Roster.RemoveBySafeCanonical | js/script.js:84 | deletion keeps every safe name equal to the normalisation of its display name |
| Roster.Renamed | js/script.js:111-118 | one record's rename keeps status and date, leaves a record of another safe name as it is, and makes a matched record canonical: its safe name is the normalisation of its new display name |
| Roster.RenameAll | js/script.js:110-119 | renaming keeps the roster's length |
| Roster.RenameAllAt | js/script.js:110-119 | each position holds the renamed or untouched record from the same position |
| Roster.RenameAllFields | js/script.js:110-119 | records of other safe names are unchanged; matched ones keep status and date and take the trimmed name, its safe name and the rewritten URL |
| Roster.RenameAllAbsent | js/script.js:110-119 | with no record of the old safe name, renaming changes nothing |
| Roster.RenameAllCanonical | js/script.js:110-119 | renaming keeps a canonical roster canonical |
| Roster.RenamedUrlAbsent | js/script.js:116 | a URL that does not contain the old safe name is kept as it is |
| Roster.RenamedUrlFirst | js/script.js:116 | for a new safe name without `$` (the general case is Text.ReplaceFirst): only the first occurrence of the old safe name is rewritten, and everything around it is kept, later copies included |
| Text.Trim | js/script.js:61 | the trimmed string neither starts nor ends with white space |
| Text.TrimBounds | js/script.js:61 | trimming removes only white space, and only at the two ends |
| Text.TrimEmptyIff | js/script.js:129-130 | a string trims to empty exactly when it is all white space |
| Text.TrimIdempotent | js/script.js:114-115 | trimming twice is trimming once |
| Text.ToLowerAt | js/script.js:61-65 | `toLowerCase` keeps the length and works character by character, lower-casing the ASCII capitals |
| Text.StripSpaces | js/script.js:115 | removing `\s` never lengthens the string |
| Text.StripSpacesCount | js/script.js:115 | removing `\s` drops every white-space character and keeps every other with its count |
| Text.StripSpacesOrder | js/script.js:115 | removing `\s` keeps the other characters in order |
| Text.StripSpacesClean | js/script.js:115 | a string without white space is kept whole |
| Text.ContainsIff | js/script.js:64-65 | `includes` holds exactly when the query occurs at some position |
| Text.IndexOf | js/script.js:64-65 | the result is the leftmost occurrence of the pattern, or there is none |
| Text.ReplaceFirst | js/script.js:116 | without an occurrence the string is kept; otherwise the text before the leftmost occurrence is kept, and the occurrence becomes the substituted replacement followed by the text after it |
| Text.ReplaceFirstAt | js/script.js:116 | `replace` rewrites the leftmost occurrence and keeps the text before and after it |
| Text.ReplaceFirstAbsent | js/script.js:116 | without an occurrence nothing is replaced |
| Text.Substitution | js/script.js:116 | a replacement without `$` is inserted as it is |
| SiteList.RenameAccepted | js/script.js:100 | the rename validator accepts a value exactly when it holds a character that is not white space |
| SiteList.RenameIssued | js/script.js:102 | no request for a cancelled dialog or an empty answer; for an answer the validator accepts, a request goes out exactly when the trimmed answer differs from the old name |
| SiteList.CreateName | js/script.js:129-130 | there is no name to send exactly when the input is all white space; otherwise the name is the non-empty trimmed input |
| SiteList.RenameErrorText | js/script.js:123 | the rename error dialog shows the non-empty message the thrown error or the error body carries, and "Impossible de renommer." otherwise; it is never empty |
| SiteList.CreateMessage | js/script.js:139-146 | an ok reply shows the backend's message, or empties the line when there is none; a failed reply shows its non-empty message, else "Erreur"; a thrown request shows "Erreur réseau" |
| SiteList.BlankQueryOfEmpty | js/script.js:61 | the empty filter box at load selects the whole roster |
| SiteList.Controller.constructor | js/script.js:16-29 | the roster starts empty and both boxes are taken to be empty, then the first fetch runs, and the table agrees with the roster |
| SiteList.Controller.FetchSites | js/script.js:19-29 | on success the roster is replaced and shown whole with its counters; on failure only the error row is shown and the roster and counters are kept |
| SiteList.Controller.ApplyFilter | js/script.js:61-69 | the table and counters become the filter of the unchanged roster by the current box, re-run after a delete or a rename |
| SiteList.Controller.OnFilterInput | js/script.js:60-70 | the table and counters become the filter of the unchanged roster by the typed query |
| SiteList.Controller.OnNameInput | js/script.js:129 | typing into the name box changes nothing else, and the table stays consistent with the roster |
| SiteList.Controller.OnClickDelete | js/script.js:72-90 | no confirmation: no change; a failed reply: the error dialog and no change; otherwise the safe name's records are removed, the filter is re-applied, and the table stays consistent |
| SiteList.Controller.OnClickEdit | js/script.js:92-125 | a missing, empty or unchanged name: no change; a failed reply: the backend's message or the fallback and no change; otherwise the records are renamed and the filter is re-applied |
| SiteList.Controller.OnSubmitCreate | js/script.js:127-148 | a blank name: nothing changes; otherwise the message reports the reply; a successful reply clears both boxes and reloads the roster; a failed one keeps the roster and the input |
| Scenarios.TwoWordsSafeName | js/script.js:114-115 | the safe name of "w1 w2" is the two words run together and lower-cased |
| Scenarios.RenameTwoWords | js/script.js:110-119 | renaming the one record of a safe name to "w1 w2" gives that name, "w1w2" lower-cased, and the URL with its first copy of the old safe name replaced |
| Scenarios.DollarSafeName | js/script.js:115 | the safe name of "$&" is "$&" |
| Scenarios.DollarAmpersandRename | js/script.js:116 | a new safe name "$&" leaves the URL as it was |

## Left out

- Rendering of the table, the placeholder rows and the counters' text (js/script.js:27, 39-58). The model keeps what is shown as a value: the list of rows or the load-error row.
- Rebinding of the row handlers and the event wiring (js/script.js:56-57, 60, 127). Handlers are methods called with the row's safe name. The rename handler also gets the displayed name, which its no-op test compares against (js/script.js:95, 102). The delete handler reads the displayed name only to title its confirmation dialog (js/script.js:75), which is left out, so OnClickDelete takes only the safe name.
- The SweetAlert dialogs. The user's answer is an input: a confirmation flag, or an optional string for the rename prompt. The notice a handler ends with is its result.
- `fetch` and JSON decoding. A reply is an input: thrown with a message, or a response with its `ok` flag and optional `message`. The fetched list is an input too. A JSON body that decodes to something other than an array is not modelled.
- The detection of the API base from `window.location` (js/script.js:2-6). It is environment input and affects no roster state.
- `Date` parsing and French date formatting (js/script.js:34-35, 49). `createdAt` is opaque text, and the counter holds the raw date of the last row.
- Interleaving of handlers that wait on the network. Each handler is modelled as one atomic step, with the reply already known.
- The transient "Création en cours…" message (js/script.js:131), which the reply's message always overwrites.
- HTML escaping in the templates, and reading the display name back from the DOM. The name shown in a row is passed in as it was stored.
- Text.ToLower: ASCII letters only. The full Unicode case mapping of `toLowerCase` is not modelled.
- JavaScript strings are UTF-16 code units. Here a string is a sequence of Unicode scalar values, so surrogate pairs are not modelled.
- The counters before the first fetch come from the page's HTML, which is not part of this model. They are taken to be the counters of the empty list.
- SiteList.Controller.constructor: both boxes are taken to be empty at load. Their first values come from the page's HTML, or from the browser restoring form values on a reload, and neither is modelled. Nothing in the script empties the filter box at load; only a successful create clears it (js/script.js:142).
- SiteList.Controller.FetchSites: `Valid` is promised only while the filter box trims to empty. The script shows the whole fetched roster even when the box holds a query (js/script.js:23-25). On its two call paths, page load and create (which clears the box first), this does not arise under the empty-boxes assumption above and with atomic handlers.
