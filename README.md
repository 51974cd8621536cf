# CursorRulesHub, modelled in Dafny

CursorRulesHub is a catalogue of GitHub repositories that ship a
`.cursorrules` file. It has two parts, and the model covers both:

- **The collector** (`scripts/github_api.py`, module `Collector`, file `collector.dfy`).
  - It runs one repository search, `filename:.cursorrules`, sorted by stars, descending.
  - It walks the results up to the cap `MAX_REPOSITORIES`.
  - It asks for the API quota before each item and stops at the first denial. A denial first sleeps until the quota resets.
  - It skips items whose attributes cannot be read.
  - It writes the snapshot file only when at least one record was gathered.
  - `main` turns the outcome into the exit status.
- **The browser catalogue** (`src/js/main.js`, class `CursorRulesHub`).
  - It loads the snapshot, narrows the records by a language filter and a case-insensitive search, and sorts them by stars or by update time.
  - It shows 12 records per page and draws a pagination bar with `...` markers.
  - It derives the options of the language selector from the records' languages.
  - It defines `getLanguageIcon`, which turns a language name into icon markup. Nothing in the code calls it; it is modelled as a standalone function.
  - The pure list and string logic is in module `Catalogue` (`catalogue.dfy`), with the string operations in module `Text` (`text.dfy`).
  - The object whose fields the event handlers reassign is the class `Hub.CursorRulesHub` (`hub.dfy`). Its invariant `Valid()` ties three fields to pure functions of the records, the filter, the query, the sort option and the page: `filteredRepositories`, `shownRepositories` (the page slice) and `pagination` (the bar). `LoadData`'s contract fixes the fourth display field, `languageOptions`.
  - The record shared by both sides is `Records.Record` (`records.dfy`).

The external world enters the collector as parameters:

- **The search** is a sequence of hits. Each hit is readable, unreadable (reading it raised, so it is skipped), or failed to fetch (this raises out of the loop).
- **The quota probe** is an oracle from the probe's index to a reading `Quota(remaining, reset, now)` or `ProbeFailed`.
- **The cap** is `Option<int>`, where `None` means the environment value does not parse.
- **The clock** for `last_updated` is a parameter.
- **The file write** is the returned `Option<Snapshot>`.
- **The sleep** is the returned number of seconds waited.

In the browser, what would be DOM content is kept in three fields: `shownRepositories` (the cards), `pagination` (the bar) and `languageOptions` (the appended `<option>`s). A finished fetch enters as `LoadData(Some(records))` and a failed fetch or parse as `LoadData(None)`.

The collector runs one query, `filename:.cursorrules`, sorted by stars, descending. It keeps duplicate hits as the search returns them and writes the records in search order, with no sort before the write. After a rate-limit wait it does not check again: the check returns false after sleeping and the loop ends. It overwrites the snapshot file directly, with no temporary file and no rename.

## Model

| member | source | states |
|---|---|---|
| Text.LowerChar | src/js/main.js:48 | an ASCII upper-case letter becomes its own lower-case letter (code point plus 32); every other character stays, and no upper-case letter is left |
| Text.Lower | src/js/main.js:48 | lowering keeps the length and lowers each character as `LowerChar` does |
| Text.LowerIgnoresCase | src/js/main.js:98-99 | two strings that differ only in the case of ASCII letters lower to the same string, which makes the search case-insensitive |
| Text.LowerIdempotent | src/js/main.js:98-99 | lowering twice equals lowering once, and the result has no upper-case letter, so the stored query compares against lowered names as intended |
| Text.Contains | src/js/main.js:98-99 | `includes`: the query is a prefix of the string or is contained in its tail (its meaning is fixed by `ContainsIffOccurs`) |
| Text.ContainsIffOccurs | src/js/main.js:98-99 | `includes` holds exactly when the query occurs at some position of the string |
| Text.ReplaceChar | src/js/main.js:120-122 | `replace(/c/g, rep)`: each occurrence of the character becomes the replacement and every other character stays, in order (its properties are the `ReplaceChar*` lemmas) |
| Text.ReplaceCharRemoves | src/js/main.js:120-122 | a global one-character replace leaves no occurrence of that character when the replacement holds none |
| Text.ReplaceCharKeepsOut | src/js/main.js:120-122 | a character absent from the input and from the replacement is absent from the result |
| Text.ReplaceCharNoUpper | src/js/main.js:119-122 | replacing in a lower-case string with a lower-case replacement keeps it lower-case |
| Text.ReplaceCharAbsent | src/js/main.js:120-122 | a string without the character is unchanged by the replace |
| Text.ReplaceCharSingle | src/js/main.js:120-122 | on one character, the replace gives the replacement if it matches and the character itself otherwise |
| Text.ReplaceCharAppend | src/js/main.js:120-122 | replacing distributes over concatenation |
| Text.LexLess | src/js/main.js:78 | the order of the default `sort()` on strings: lexicographic by character, a proper prefix first (a strict total order by the three lemmas below) |
| Text.LexLessIrreflexive | src/js/main.js:78 | the default string order is irreflexive |
| Text.LexLessTransitive | src/js/main.js:78 | the default string order is transitive |
| Text.LexLessTotal | src/js/main.js:78 | of two distinct strings one sorts before the other |
| Catalogue.MatchesLanguage | src/js/main.js:96 | the language test: the filter is empty or equals the record's language |
| Catalogue.MatchesSearch | src/js/main.js:97-99 | the search test: the query is empty, or the lowered name contains it, or the description is present, non-empty and its lowered text contains it |
| Catalogue.Matches | src/js/main.js:95-101 | the filter callback: both the language test and the search test pass |
| Catalogue.FilterRecords | src/js/main.js:95-101 | the filtered list is no longer than the records |
| Catalogue.FilterRecordsSpec | src/js/main.js:95-101 | each record occurs in the filtered list exactly as often as in the records if it passes the language and search tests, and not at all otherwise; every kept record passes both tests |
| Catalogue.Insert | src/js/main.js:104-110 | one step of the sort: the record goes after every record whose key is at least its own; the result is one longer |
| Catalogue.InsertSpec | src/js/main.js:104-110 | inserting adds exactly the new record to the multiset and brings in nothing else |
| Catalogue.InsertSorted | src/js/main.js:104-110 | inserting into a list sorted by the key keeps it sorted |
| Catalogue.SortRecords | src/js/main.js:104-110 | the sort keeps the length |
| Catalogue.SortRecordsPermutes | src/js/main.js:104-110 | the sorted list holds exactly the records of its input, each as often |
| Catalogue.SortRecordsSorted | src/js/main.js:104-110 | in the sorted list no record precedes one with a larger key (stars, or update time) |
| Catalogue.InsertStable | src/js/main.js:104-110 | inserting behind every record of key at least its own keeps the order among equal keys |
| Catalogue.SortStable | src/js/main.js:104-110 | records with equal keys keep their relative order |
| Catalogue.FilterAppend | src/js/main.js:95-101 | filtering distributes over concatenation |
| Catalogue.FilterWithKey | src/js/main.js:95-101 | the filter keeps the records' order: the kept records of any one sort key are, in order, the matches among that key's records of `repositories` |
| Catalogue.WithKeyAppend | src/js/main.js:104-110 | selecting the records of one key distributes over concatenation |
| Catalogue.View | src/js/main.js:95-110 | `filteredRepositories` after `filterAndRenderRepositories`: the filtered records, sorted by stars when the option is `stars` and by update time otherwise |
| Catalogue.ViewKeepsExactlyMatches | src/js/main.js:95-110 | the sorted filtered list holds each matching record as often as the records do, and a record is in it exactly when it is a record that matches |
| Catalogue.ViewUnfilteredIsPermutation | src/js/main.js:96-97 | with an empty filter and an empty query the list is a permutation of all records |
| Catalogue.ViewStable | src/js/main.js:95-110 | records with equal sort keys appear in the visible list in the order they have in `repositories` |
| Catalogue.ViewOrder | src/js/main.js:104-110 | with option `stars` the list is non-increasing in stars; with any other option, non-increasing in update time |
| Catalogue.TotalPages | src/js/main.js:155 | the page count is the least number of 12-record pages that holds every record |
| Catalogue.SliceIndex | src/js/main.js:133 | a slice bound falls within the list |
| Catalogue.Slice | src/js/main.js:133 | `slice(start, end)`: the elements between the two resolved indices, or nothing when the start is not before the end |
| Catalogue.PageSlice | src/js/main.js:131-133 | the page holds at most 12 records; for a page number of at least 1 it is exactly the records at indices `[(page-1)*12, page*12)` that exist |
| Catalogue.PageHoldsElement | src/js/main.js:131-133 | each record appears on the page its index falls in, at the offset its index gives, and that page is within the page count |
| Catalogue.PageBeyondLastIsEmpty | src/js/main.js:131-133 | a page past the last one shows nothing |
| Catalogue.Shown | src/js/main.js:164-168 | a page gets a button when it is the first, the last, or within one of the current page |
| Catalogue.IsPageList | src/js/main.js:154-173 | the bar is empty for at most one page; otherwise it starts with page 1 and ends with the last page, its numbers increase within range, it lists exactly the shown pages, adjacent buttons are consecutive, and each marker sits between two buttons across a gap |
| Catalogue.NoAdjacentEllipses | src/js/main.js:170-172 | a pagination bar never holds two markers side by side |
| Catalogue.NormalizeLanguage | src/js/main.js:119-122 | the lowered language with `+`, `#` and `.` replaced, in that order, by `plus`, `sharp` and `dot` |
| Catalogue.IconClass | src/js/main.js:119-125 | `si-` followed by the normalised language name |
| Catalogue.LanguageIcon | src/js/main.js:116-128 | the icon markup is empty exactly when the language is missing or empty; otherwise it is an `<i>` element whose class is the language's icon class |
| Catalogue.NormalizedHasNoSpecials | src/js/main.js:119-122 | the normalised language name has no `+`, `#` or `.` |
| Catalogue.NormalizedIsLowerCase | src/js/main.js:119-122 | the normalised language name has no upper-case letter |
| Catalogue.NormalizeOneChar | src/js/main.js:119-122 | the three replacements turn one lowered character into `plus`, `sharp`, `dot` or itself |
| Catalogue.NormalizeIsCharwise | src/js/main.js:119-122 | the chain of replacements acts on each character independently |
| Catalogue.NormalizeEachExamples | src/js/main.js:119-122 | character by character, `C++` becomes `cplusplus` and `C#` becomes `csharp` |
| Catalogue.IconClassExamples | src/js/main.js:116-127 | the icon class of `C++` is `si-cplusplus` and that of `C#` is `si-csharp`, and their icon markup is `<i class="si-cplusplus"></i>` and `<i class="si-csharp"></i>` |
| Catalogue.PresentLanguages | src/js/main.js:77 | the mapped and truthy-filtered languages are exactly the non-empty languages some record has |
| Catalogue.Distinct | src/js/main.js:77 | the set spread has the same members as its input and no duplicates |
| Catalogue.InsertString | src/js/main.js:78 | inserting a string adds exactly it to the multiset and to the members |
| Catalogue.SortStrings | src/js/main.js:78 | the string sort is a permutation with the same members |
| Catalogue.InsertStringAscending | src/js/main.js:78 | inserting a new string into an ascending list keeps it ascending |
| Catalogue.SortStringsAscending | src/js/main.js:78 | sorting a duplicate-free list gives a strictly ascending list |
| Catalogue.LanguageOptions | src/js/main.js:77-78 | the present languages, deduplicated and sorted in the default string order |
| Catalogue.LanguageOptionsSpec | src/js/main.js:77-78 | the language options are strictly ascending, hence distinct, and are exactly the non-empty languages present in the records |
| Hub.PushPage | src/js/main.js:164-169 | appending the button of a page to be shown keeps the bar a well-formed bar for the pages seen so far |
| Hub.PushEllipsis | src/js/main.js:170-171 | appending a marker for a skipped page after a button keeps the bar well formed |
| Hub.SkipPage | src/js/main.js:170 | a skipped page right after a marker adds nothing and keeps the bar well formed |
| Hub.PushKeepsBuilt | src/js/main.js:162-173 | one loop step over page i (a button, a gap marker, or nothing) keeps every property of the bar built so far, now up to page i |
| Hub.PushedIsBuilt | src/js/main.js:162-173 | the bar after the first k loop steps has every property of a bar built up to page k |
| Hub.BuiltIsPageList | src/js/main.js:162-173 | the bar built over all pages starts at page 1 and ends at the last page; its numbers increase and lie in range; it lists every page to be shown; adjacent buttons are consecutive; each marker sits between two buttons and stands for a gap |
| Hub.RenderPagination | src/js/main.js:154-173 | the bar is empty for at most one page; otherwise it has every shape property just listed, including every page in the window around the current page |
| Hub.CursorRulesHub.constructor | src/js/main.js:2-9 | the initial state: no records, page 1, empty filter and query, sort by stars; the display invariant holds |
| Hub.CursorRulesHub.FilterAndRender | src/js/main.js:93-114 | after the redraw, the filtered list, the shown page and the bar agree with the records, filter, query, sort option and page, and nothing else changes |
| Hub.CursorRulesHub.OnSearchInput | src/js/main.js:47-51 | the query is stored lowered: it becomes the lowered input, the page becomes 1, only that field of the inputs changes, and the display agrees |
| Hub.CursorRulesHub.OnLanguageChange | src/js/main.js:53-57 | the language filter becomes the selected value, the page becomes 1, no other input changes, and the display agrees |
| Hub.CursorRulesHub.OnSortChange | src/js/main.js:59-63 | the sort option becomes the selected value, the page becomes 1, no other input changes, and the display agrees |
| Hub.CursorRulesHub.GoToPage | src/js/main.js:189-191 | the page becomes the requested one, filters, query and sort stay, and the filtered list is the same list as before |
| Hub.CursorRulesHub.LoadData | src/js/main.js:66-91 | a failed load changes nothing; a successful one replaces the records, appends the sorted distinct language options, keeps the inputs and page, and redraws |
| Collector.WaitTime | scripts/github_api.py:47-48 | the wait reaches the reset instant, and is zero or ends exactly at the reset |
| Collector.CheckRateLimit | scripts/github_api.py:39-55 | it allows exactly when more than 10 requests remain; otherwise it sleeps the positive part of `reset - now` and denies; a failing probe raises |
| Collector.RepoInfo | scripts/github_api.py:57-67 | the rules URL is the repository URL followed by `/blob/master/.cursorrules`, and the stars are the stargazer count |
| Collector.RepoInfoRoundTrip | scripts/github_api.py:57-67 | every other attribute is copied unchanged: the repository can be read back from its record |
| Collector.Normalized | scripts/github_api.py:91-97 | gathering yields no more records than hits |
| Collector.Proceeds | scripts/github_api.py:84-89 | item k goes on to normalisation: it is within the results and the cap, it was fetched, and its quota probe read more than 10 remaining |
| Collector.StopPoint | scripts/github_api.py:84-89 | the loop ends at the first item that is past the results or the cap, fails to fetch, or fails its rate check, and every earlier item passed |
| Collector.StopPointIs | scripts/github_api.py:84-89 | the first item that does not proceed is the stop point |
| Collector.StopPointPast | scripts/github_api.py:84-89 | an item up to which every item proceeds is before the stop point |
| Collector.Written | scripts/github_api.py:82-116 | the reference outcome: nothing when the cap does not parse, an item raised before the stop point, or no record was gathered; otherwise a snapshot of the records of the readable hits before the stop point, in search order, stamped with the run's time |
| Collector.Waited | scripts/github_api.py:84-89 | the reference wait: the seconds the rate check at the stop point sleeps when it denies, and zero otherwise |
| Collector.CollectData | scripts/github_api.py:69-116 | the loop writes exactly the reference snapshot and sleeps exactly the reference wait; it returns true exactly when it writes |
| Collector.RunMain | scripts/github_api.py:119-126 | the exit status is 0 when a snapshot was written and 1 otherwise |
| Collector.NormalizedAppend | scripts/github_api.py:84-93 | gathering over a split of the hits is the concatenation of the two gatherings, so records keep search order |
| Collector.NormalizedMembers | scripts/github_api.py:91-97 | a record is gathered exactly when some readable hit builds it |
| Collector.NormalizedWellFormed | scripts/github_api.py:66 | every gathered record's rules URL is its URL with the fixed suffix |
| Collector.WrittenWithinCap | scripts/github_api.py:84-86 | a written snapshot is non-empty, holds at most `max_repos` records and is stamped with the run's time |
| Collector.WrittenMembers | scripts/github_api.py:84-97 | a record is written exactly when a readable hit builds it and every item up to that hit passed its rate check within the cap |
| Collector.WrittenKeepsSearchOrder | scripts/github_api.py:84-93 | the records of every prefix of the processed hits form a prefix of the written list |
| Collector.DenialEndsCollection | scripts/github_api.py:88-89 | the first denied check ends the run: only records from earlier hits are written, and that check's wait is slept |
| Collector.StopPointIgnoresReadability | scripts/github_api.py:91-97 | whether items are readable never moves the stop point, so an unreadable item is skipped and the loop goes on |
| Collector.RaiseWritesNothing | scripts/github_api.py:99-101 | a fetch or probe that raises before any denial makes the run write nothing |

## Left out

- The DOM is not modelled. This covers element lookup, listener wiring, the HTML of the cards and of the pagination buttons (including the active button), `innerHTML`, `window.scrollTo`, `showError` and `console.error`. The handlers' state changes are modelled.
- `fetch`, `response.json()` and `Date.toUTCString` in `loadData` are not modelled. Any failure before the language options are built is `LoadData(None)`.
- A snapshot whose `repositories` field is missing is not modelled. In that case the browser stores `undefined` before failing.
- The `languageIcons` table is left out because no code path reads it.
- Dates are integers. The ISO-8601 text and `new Date` parsing are left out, and so is the inconsistent comparator an unparsable date would give.
- Text.Lower: lowers only ASCII letters, because Dafny has no Unicode case mapping. JavaScript's `toLowerCase` also lowers other scripts.
- Text.LexLess: compares characters as Unicode scalar values. JavaScript compares UTF-16 code units, and the two differ only for characters outside the Basic Multilingual Plane.
- Catalogue.SortRecords: is a stable insertion sort. JavaScript's `Array.prototype.sort` is stable and uses the same comparator, but its algorithm differs; the model keeps only its result.
- Hub.CursorRulesHub.GoToPage: takes an integer page. JavaScript numbers that are not integers are not modelled.
- The JavaScript constructor starts `loadData` itself. Here the constructor gives the state before loading, and `LoadData` is a separate method.
- Some collector machinery is not modelled:
  - PyGithub (`Github`, `search_repositories`, `get_rate_limit`), tqdm, logging, `load_dotenv` and `os.makedirs`;
  - the JSON formatting of `json.dump`;
  - the file write itself. The snapshot is returned as a value.
- An exception from opening or writing the file is not modelled. It would escape `main`, and Python would exit with status 1.
- `time.sleep` is modelled only as the number of seconds waited, and float seconds are integers.
- An exception raised again while printing the skip message is not modelled. That message reads `repo.full_name`, which could raise a second time. In the model an unreadable item is always skipped.
- Collector.CollectData: the loop condition covers both the slice `repos[:max_repos]` and the check `i >= max_repos`. For a cap of zero or less both yield no items, and so does the model.
- `int()`'s exact parsing rules for `MAX_REPOSITORIES` are not modelled. Only whether it parses is modelled, as `maxRepos` being `None`.
- `scripts/config.py` is not part of this model. It loads the environment and defines constants; the cap is a parameter.
