# address-crawler, modelled in Dafny

This project models the core of address-crawler. The tool searches Naver Map for a keyword,
walks the result list and records each place's name and jibun (parcel-number) address. A
browser page then shows the records in a paginated table and exports them to a spreadsheet.
Three parts are modelled:

- **The address pipeline** (`Text.dfy`, `Address.dfy`). This is how one list item's jibun
  address is built from the texts it shows. The basic address comes from the first block
  whose text starts with a region name. The detail is the text between "지번" and the
  nearest "복사" after the expansion click. The two are merged. The JavaScript string
  operations the pipeline uses are written out over `seq<char>`. This includes which
  characters `\s` and `trim` treat as whitespace, where a regular-expression `.` stops, and
  the fact that `replace` with a string pattern replaces only the first occurrence.
- **The traversal loop** (`Crawler.dfy`). The loop reads the rendered items, processes them
  in batches, counts rounds with no new items, and stops at the limit or after the sixth
  stall. `CrawlNaverMap` is a method with the source's nested loops. Its contract ties it to
  the recursive functions `Batch`, `Round` and `Run`, and the lemmas are about those.
- **The browser side** (`ResultTable.dfy`, `ExcelExport.dfy`). This covers the page count,
  the page slice, the row numbers, the page-control clicks, the copy-button keys and the
  export row mapping. The table component's `currentPage` and `copiedId` state is the
  class `ResultTable.Table`.

The browser is not modelled. The traversal takes the item count of each round as a
sequence `rendered`. Each item's `try` block is an oracle `items: nat -> Option<Extracted>`:
`None` means the block threw. `Crawler.ExtractFields` is that block for an item whose DOM
reads succeed, written as the address pipeline applied to an `ItemView`.

Some of what the code does is easy to misread; the model follows the code:

- The street address is always the empty string (`roadAddress: ''`, crawler.ts:195), and
  there is no next-page control: the loop reads only the one scrolled list.
- Ids come from the loop index (`id: i + 1`, crawler.ts:192), not from the number of
  records, so an item whose `try` block throws leaves a gap in the ids. See also the first
  finding.
- A stall is a round whose item count equals the previous round's count (crawler.ts:46).
  The loop stops on the sixth stall (`failCount > 5`, crawler.ts:47-48), and the counter is
  never reset.
- A JavaScript `.` does not match a line terminator, so the region match `(…).*` and with it
  the basic address end at the first line break (crawler.ts:127).
- The loop itself ends by the limit, by the stall rule, or by a throw from one of its own
  browser calls. The model has the first two; see "## Left out" for the third.

## Model

| member | source | states |
|---|---|---|
| Records.OrDash | src/components/result/ResultTable.tsx:66 | `address \|\| '-'` is never empty; a non-empty address is shown as is; the result is "-" exactly when the address is missing, empty or "-" |
| Text.Trim | src/utils/crawler.ts:126 | the result has no leading or trailing JavaScript whitespace, is no longer than the input, and a string already trimmed is unchanged; what it removes is stated by `TrimDropsOuterSpace` |
| Text.TrimDropsOuterSpace | src/utils/crawler.ts:126 | `trim` removes exactly the outer whitespace: the leading whitespace of the input is dropped, then the trailing whitespace of what remains; the result starts and ends with a non-space |
| Text.TrimJoin | src/utils/crawler.ts:168 | trimming `a + " " + b` for trimmed `a`, `b` puts exactly one space between them, and none when `b` is empty |
| Text.IndexOf | src/utils/crawler.ts:129 | `indexOf` returns the first occurrence at or after `from`, and None exactly when there is none |
| Text.Contains | src/utils/crawler.ts:175 | `includes` holds exactly when the pattern occurs somewhere |
| Text.RemoveFirst | src/utils/crawler.ts:129 | `replace(label, '')` leaves a string without the label unchanged; otherwise it cuts exactly the first occurrence, keeping everything before it and everything after it |
| Text.RemoveFirstKeepsPrefix | src/utils/crawler.ts:129 | everything before the first occurrence survives the removal |
| Text.LastToken | src/utils/crawler.ts:162-163 | the last element of `split(/\s+/)` is a suffix with no whitespace, preceded by whitespace when it is not the whole string |
| Text.ReplaceNewlines | src/utils/crawler.ts:152 | `replace(/\n/g, ' ')` keeps the length and replaces each `\n`, and only those, by a space |
| Address.FindAddressContainer | src/utils/crawler.ts:87-108 | the container is the first block text that starts with a region name, and None means no block does |
| Address.FirstRegion | src/utils/crawler.ts:127 | the region match starts at the first position where a region name occurs, and None means there is none |
| Address.BasicAddress | src/utils/crawler.ts:126-132 | the basic address read from one container: trimmed (its contract); its shape is stated by the lemmas `ContainerMatchesRegionAtStart`, `BasicAddressOnOneLine`, `BasicAddressStartsWithRegion` and `BasicAddressWithoutRegion` |
| Address.LineEnd | src/utils/crawler.ts:127 | the `.*` of the region pattern runs to the first line terminator, or to the end |
| Address.BasicAddressOfItem | src/utils/crawler.ts:124-133 | the basic address is trimmed, and it is empty when no block text starts with a region name |
| Address.ContainerMatchesRegionAtStart | src/utils/crawler.ts:126-131 | the container, chosen at line 89, starts with a region name, so after trimming the region match starts at 0 and the fallback at lines 130-131 is never taken |
| Address.BasicAddressOnOneLine | src/utils/crawler.ts:127-129 | a basic address cut from a region match holds no line terminator |
| Address.BasicAddressStartsWithRegion | src/utils/crawler.ts:127-129 | a basic address cut from a region match starts with the region name, unless the open-detail label begins inside the name |
| Address.BasicAddressWithoutRegion | src/utils/crawler.ts:130-131 | without a region match and without the label, the basic address is the trimmed text |
| Address.NearestCopy | src/utils/crawler.ts:155 | the lazy group ends at the nearest "복사" that is not behind a line terminator, and None means no such "복사" |
| Address.JibunMatch | src/utils/crawler.ts:155 | the match uses the leftmost "지번" that has a "복사" after it on the same line, with the nearest such "복사"; None means no pair exists |
| Address.JibunDetail | src/utils/crawler.ts:155-158 | the detail is trimmed |
| Address.JibunDetailBetweenLabels | src/utils/crawler.ts:151-158 | the detail is empty when the text has no "지번 … 복사" pair; otherwise it is the trimmed text between one such pair, with no "복사" in between |
| Address.NewlinesDoNotBlockDetail | src/utils/crawler.ts:152-155 | once `\n` is replaced by a space, any "지번" followed later by "복사" gives a match, provided the text has no other line terminator |
| Address.MergeJibun | src/utils/crawler.ts:161-181 | an empty basic address gives the detail, an empty detail gives the basic address, and trimmed inputs give a trimmed result |
| Address.MergeOverlap | src/utils/crawler.ts:165-168 | when the detail starts with the basic address's last word, the result is the basic address followed by the rest of the detail |
| Address.MergeDetailHoldsBasic | src/utils/crawler.ts:169-175 | without overlap, a detail that starts with or contains the basic address replaces it |
| Address.MergeJoinsWithSpace | src/utils/crawler.ts:172-173 | without overlap or containment, trimmed basic address and detail are joined with exactly one space |
| Address.MergeKeepsBasic | src/utils/crawler.ts:161-181 | a non-empty basic address always occurs in the merged address |
| Address.MergeSincheonExample | src/utils/crawler.ts:166 | "서울 송파구 신천동" merged with "신천동 20-6" gives "서울 송파구 신천동 20-6" |
| Address.JibunAddress | src/utils/crawler.ts:146-185 | the jibun address is trimmed, and it is empty when reading the expanded text threw |
| Address.JibunAddressKeepsBasic | src/utils/crawler.ts:146-181 | a non-empty basic address occurs in the jibun address |
| Crawler.FirstLine | src/utils/crawler.ts:76-77 | `split('\n')[0]` is a prefix with no `\n`, ending at the first `\n` or at the end |
| Crawler.ItemName | src/utils/crawler.ts:66-78 | the name of an item: the trimmed link text without spans, else the trimmed full link text, else the first line of the item text; its shape is stated by `ItemNameShape` |
| Crawler.ItemNameShape | src/utils/crawler.ts:67-78 | a linked name is trimmed and prefers the text outside the spans; an unlinked name is the item text up to its first line break |
| Crawler.ExtractFields | src/utils/crawler.ts:63-185 | the `try` block of an item whose DOM reads succeed: `ItemName` and `JibunAddress` of its view; what a pushed record then holds is stated by `RecordOfView` |
| Crawler.Record | src/utils/crawler.ts:191-196 | the pushed record: id `i + 1`, the computed name and jibun address, an empty street address; stated for every record by `RecordsComeFromItems` |
| Crawler.Batch | src/utils/crawler.ts:60-201 | the inner `for` loop from index `i` while `i < count` and the limit is not reached; what it appends is stated by `BatchIds`, `BatchFromItems` and `BatchLength` |
| Crawler.Round | src/utils/crawler.ts:45-58 | one pass of the `while` body: a stall round increments `failCount` and breaks above 5, any other round runs a batch from `results.length`; stated through `StallsAreBounded` |
| Crawler.Run | src/utils/crawler.ts:43-214 | the `while (results.length < limit)` loop over the observed rounds; `CrawlNaverMap` is proved equal to it, and the lemmas below state its properties |
| Crawler.CrawlNaverMap | src/utils/crawler.ts:40-214 | the nested loops return what `Run` computes from the initial state; at most `limit` records; the loop ends by the limit exactly when the limit is reached |
| Crawler.RecordsComeFromItems | src/utils/crawler.ts:60-200 | every record is the record of an item whose `try` block succeeded, with id = index + 1 and an empty street address; an item that throws leaves no record |
| Crawler.RecordOfView | src/utils/crawler.ts:63-196 | a record pushed for a rendered item carries the pipeline's name and trimmed jibun address for that item |
| Crawler.StallsAreBounded | src/utils/crawler.ts:41-49 | `failCount` never decreases and never exceeds 6; the loop stalls out exactly when it reaches 6, and ends by the limit exactly when the limit is reached |
| Crawler.StalledListStops | src/utils/crawler.ts:47-55 | rounds that keep seeing the previous count end the loop within `6 - failCount` rounds |
| Crawler.FixedListTerminates | src/utils/crawler.ts:43-56 | a list whose count never changes ends the loop within seven rounds, and a stalled run returns fewer than `limit` records |
| Crawler.NoFailuresGiveConsecutiveIds | src/utils/crawler.ts:60-196 | when no item throws, the ids are 1, 2, …, n in order |
| Crawler.LimitIsMetExactly | src/utils/crawler.ts:43-60 | when no item throws and the first round already shows `limit` items, exactly `limit` records are returned |
| Crawler.BatchIds | src/utils/crawler.ts:60-200 | a batch with room for them adds exactly the items of its range that do not throw, in index order |
| Crawler.SecondOfFiveFails | src/utils/crawler.ts:63-200 | of five items, a failing second item leaves ids 1, 3, 4, 5, and the loop then stalls out |
| Crawler.SameIdSameRecord | src/utils/crawler.ts:192 | two records with the same id are the same record |
| Crawler.RevisitedItemIsRecordedTwice | src/utils/crawler.ts:60 | with counts 3 then 4 and item 0 failing, the ids are 2, 3, 3, 4, and the same place is recorded twice |
| Crawler.FixedRunVisitsEachItemOnce | src/utils/crawler.ts:60 | with batches that start at the first unvisited index, ids strictly increase for every input |
| Crawler.FixedRunRecordsRevisitedItemOnce | src/utils/crawler.ts:60 | on the same input, the corrected loop gives ids 2, 3, 4 |
| ResultTable.TotalPages | src/components/result/ResultTable.tsx:12-14 | `ceil(n / 20)`: the fewest pages of twenty that hold all `n` records |
| ResultTable.SliceIndex | src/components/result/ResultTable.tsx:15-18 | a `slice` argument resolved against the length: within `0..len`, and unchanged when it already is |
| ResultTable.Slice | src/components/result/ResultTable.tsx:15-18 | `s.slice(start, end)` with JavaScript's clamping and negative indices; its contents for a page are stated by `PageRowsContents` |
| ResultTable.PageRows | src/components/result/ResultTable.tsx:15-18 | `currentData` for a page; its bounds and contents are stated by `PageRowsContents` |
| ResultTable.GlobalIndex | src/components/result/ResultTable.tsx:53 | the row number shown beside row `index` of a page; stated by `EveryRecordIsShownOnce` and `RowNumberIsPosition` |
| ResultTable.PageRowsContents | src/components/result/ResultTable.tsx:15-18 | page `p` shows the contiguous run of at most 20 records that starts at `(p-1)*20`, and nothing past the end |
| ResultTable.EveryRecordIsShownOnce | src/components/result/ResultTable.tsx:15-53 | record `k` is row `k % 20` of page `k / 20 + 1`, a page that exists, and is numbered `k + 1`, whatever its id |
| ResultTable.RowNumberIsPosition | src/components/result/ResultTable.tsx:53 | the row numbered `g` holds record `g - 1`, and `g` lies between 1 and the record count |
| ResultTable.PastLastPageIsEmpty | src/components/result/ResultTable.tsx:15-18 | a page beyond the last one shows no rows |
| ResultTable.PaginationThreshold | src/components/result/ResultTable.tsx:98 | the table renders (line 28) exactly when there is a page, and the controls appear exactly when there are more than 20 records |
| ResultTable.Step | src/components/result/ResultTable.tsx:101-121 | the page after a prev, next or page-button click; stated by `ClicksStayInRange` and `DisabledExactlyWhenNoMove` |
| Numbers.Max | src/components/result/ResultTable.tsx:101 | `Math.max`: the larger of the two, and one of them |
| Numbers.Min | src/components/result/ResultTable.tsx:121 | `Math.min`: the smaller of the two, and one of them |
| ResultTable.ClicksStayInRange | src/components/result/ResultTable.tsx:101-121 | from a page that exists, any sequence of prev, next and rendered page-button clicks stays on a page that exists |
| ResultTable.DisabledExactlyWhenNoMove | src/components/result/ResultTable.tsx:101-122 | prev is disabled exactly when it would not move, and so is next |
| ResultTable.CopyKeysAreDistinct | src/components/result/ResultTable.tsx:69-86 | `id*10` and `id*10+1` never collide, and each key determines its record's id |
| ResultTable.Table.constructor | src/components/result/ResultTable.tsx:11-20 | the table starts on page 1 with nothing copied, a page that exists for non-empty data |
| ResultTable.Table.PrevPage | src/components/result/ResultTable.tsx:101 | the page becomes `max(1, p-1)`, nothing else changes, and a page that existed still exists |
| ResultTable.Table.NextPage | src/components/result/ResultTable.tsx:121 | the page becomes `min(totalPages, p+1)`, nothing else changes, and a page that existed still exists |
| ResultTable.Table.GoToPage | src/components/result/ResultTable.tsx:109-113 | a rendered page button moves to its page, which exists |
| ResultTable.Table.CopyToClipboard | src/components/result/ResultTable.tsx:22-24 | the clicked key shows the check mark; data and page are unchanged |
| ResultTable.Table.ClearCopied | src/components/result/ResultTable.tsx:25 | the check mark is cleared; data and page are unchanged |
| ResultTable.Table.ReceiveData | src/components/result/ResultTable.tsx:10-11 | new data keeps the current page and the copied key |
| ResultTable.Table.ReceiveDataResettingPage | src/components/result/ResultTable.tsx:11-18 | new data with the page reset to 1 shows its first records on a page that exists |
| ResultTable.StalePageShowsNothing | src/components/result/ResultTable.tsx:11-18 | page 5 of 100 records, kept for 10 new records, shows no rows and no controls to leave it |
| ResultTable.ResetPageShowsData | src/components/result/ResultTable.tsx:15-18 | for non-empty data, page 1 exists and shows the first `min(20, n)` records |
| ExcelExport.FormatRows | src/components/common/ExcelExportButton.tsx:16-21 | one row per record, in the same order, each the row of its record |
| ExcelExport.FormatRow | src/components/common/ExcelExportButton.tsx:17-20 | the row of one record; its columns are stated by `RowColumns` |
| ExcelExport.HandleDownload | src/components/common/ExcelExportButton.tsx:12-21 | empty data exports nothing; otherwise the rows written are `FormatRows(data)`, one per record in order |
| ExcelExport.RowColumns | src/components/common/ExcelExportButton.tsx:17-20 | number and name are copied; each address column holds the address when it is non-empty and "-" otherwise, never an empty cell |
| ExcelExport.EmptyRoadAddressExportsDash | src/components/common/ExcelExportButton.tsx:20 | records with an empty street address, as the crawler makes them, export "-" in that column |

## Left out

- Browser automation is not modelled. This covers the launch, the navigation, waiting for
  the search frame and the list, scrolling, the waits, the expansion click and closing the
  browser. The item counts and the per-item outcomes are parameters. Errors before the
  loop, such as a missing frame, are not modelled.
- Crawler.CrawlNaverMap: a throw from the loop's own browser calls is not modelled. These
  calls are the `$$('ul > li')` read (crawler.ts:45) and the scroll `evaluate`s (50-53,
  204-211). In the source such a throw is rethrown (crawler.ts:218-220), so the records
  collected so far are lost. The model's loop ends only with `LimitReached`, `Stalled` or
  `Unobserved`, and always returns its records.
- The search for the expansion button (crawler.ts:91-121) and the click (136-143) are not
  modelled. They only decide whether the item expands. The text read afterwards is a
  parameter (`ItemView.expandedText`).
- The per-item outcome is a fixed function of the item index. A revisited item is assumed
  to yield the same outcome again. In the browser, the earlier expansion click may change
  what the item shows.
- Crawler.Run: the model sees only finitely many rounds. When `rendered` runs out before
  the loop ends, the result is `Unobserved`. No lemma relies on that case.
- Crawler.CrawlNaverMap models the loop as written, starting each batch at
  `results.length`. The corrected loop (`FixedRun`) is functions and lemmas only.
- The limit is an integer. The route's `parseInt` and its defaults (route.ts) are not part of
  this model. A NaN limit makes the loop stop at once; this model has no NaN limit.
- The category field is never set by the crawler, so the model always leaves it empty.
  The table's category line is not modelled.
- The clipboard write and the two-second timer are not modelled. Only their effect on
  `copiedId` is (`CopyToClipboard`, `ClearCopied`).
- All JSX rendering and styling are out of scope.
- XLSX sheet and workbook creation, the file write and the timestamped file name are not
  modelled: they are library calls and the clock.
- The fetch, the React hook (useMapCrawler.ts), the API route, the search form and the page
  shell are network and UI plumbing and are not modelled.
- JavaScript strings are UTF-16. The model works on code points. The pipeline's labels and
  region names are single code units, so nothing here depends on the difference.

## Findings

| source | as written | input that shows it | evidently intended | confidence | as-written member | corrected member |
|---|---|---|---|---|---|---|
| src/utils/crawler.ts:60 | each batch starts at `results.length`, which lags behind the items already visited once any item has thrown | counts 3 then 4, item 0 throws: ids 2, 3, 3, 4, with item 2 recorded twice | each batch starts at the first item not yet visited, so each item is recorded at most once | high (not executed) | Crawler.RevisitedItemIsRecordedTwice | Crawler.FixedRunVisitsEachItemOnce |
| src/components/result/ResultTable.tsx:11 | `currentPage` survives a change of `data`, because the table stays mounted (src/app/page.tsx:63) | 100 records, move to page 5, then a search that finds 10: page 5 of 1 is shown, with no rows and no page controls | the page is reset to 1 when new data arrives | medium (not executed) | ResultTable.StalePageShowsNothing | ResultTable.ResetPageShowsData |
