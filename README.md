# Woodhull Sentinel archive: build scripts and search page, in Dafny

This project models the parts of the newspaper archive website that turn a
corpus of OCR text files into a static site. There is one text file per
scanned page, named `<publication-slug>-<YYYYMMDD>[letter]-<NNN>.txt`.

- **The metadata build** (`build/generate-metadata.js`). It parses every file
  name into a page descriptor and groups the pages into issues. It sorts the
  pages of each issue by page number and sorts the issues by date, then by id.
  It lays out the flat page list with previous/next page and issue links. It
  buckets the issues by year and aggregates them by publication title, with
  the first and last dates printed as `YYYY Mon DD`. Finally it computes the
  date range. If no page is found, `main` exits with code 1.
- **The search-index build** (`build/generate-search-index.js`). It reads
  every file and keeps those whose names parse. It gives each kept file a
  document with the id `documents.length` and the trimmed text. It collects
  the segments that the search engine's export reports into one key map, in
  which a null payload stays null. It writes the version, the document
  count, the search configuration and that map. If no document is found, it
  exits with code 1.
- **The search page** (`src/assets/js/search.js`). It imports the non-null
  segments, then merges the per-field result lists into one document list
  where the first hit of an id wins. It then shows either "No results" or
  the count. It renders the results 24 cards per pass. A sentinel element
  after the last card and an IntersectionObserver ask for the next pass.
  When nothing remains, the observer is disconnected.

Both build scripts contain the same `parseFilename`, and one function
`Filename.Parse` models both copies. Loops that build a value step by step
are `method`s with loop invariants. Each is proved equal to a recursive
specification function, and the properties are lemmas about those
functions. Examples are `Issues.GroupIssues` against `GroupedIssue`,
`SearchIndex.ProcessTextFiles` against `Documents`, and
`SearchMerge.MergeResults` against `Merged`. The results grid is a class,
`ResultsView.ResultsView`, whose fields are the ones `renderBatch` updates:
`offset`, the grid's children and the observer's state. Each of its methods
keeps the invariant `Shown`.

Files:

- `wrappers.dfy`: `Option`.
- `strings.dfy`: digits, `toString`/`padStart`, code-point string order,
  `split`/`join` and `trim`.
- `sequences.dfy`: stable sort by an integer key, first occurrence per key
  (the insertion order of a JavaScript `Map`), keyed selections and totals.
- `filename.dfy`: `parseFilename`.
- `issues.dfy`: steps 1 to 3 of `buildMetadata`.
- `page_links.dfy`: step 4.
- `years.dfy`: steps 5 and 7.
- `publications.dfy`: step 6.
- `metadata.dfy`: `buildMetadata` as a whole, and `main`.
- `search_index.dfy`: `processTextFiles`, the export, `createAndExportIndex`
  and `main`.
- `search_merge.dfy`: the import filter and the cross-field merge.
- `results_view.dfy`: the status line and the batched rendering.

Two places where the repository's own description and its code differ. The
model follows the code in both:

- The description says page numbers are at least 1. The pattern `\d{3}`
  accepts `000`, and so does `Filename.Parse`.
- The description says the sentinel is detached once the list is exhausted.
  `renderBatch` only disconnects the observer. Its last batch is inserted
  after the sentinel, which stays in the grid (`ResultsView.PassShape`).

## Model

| member | source | states |
|---|---|---|
| Filename.StripTxt | build/generate-metadata.js:30 | the base is the name itself, or the name less a final four-character extension that is `.txt` in any letter case |
| Filename.Captures | build/generate-metadata.js:33-36 | whatever it captures matches `^(.+?)-(\d{8}[a-z]?)-(\d{3})$` and joins back to the base |
| Filename.CapturesComplete | build/generate-metadata.js:33-36 | any slug, date token and page token that match the base are exactly the captures found, so the lazy slug group is unambiguous |
| Filename.ParseAccepts | build/generate-metadata.js:29-34 | a name yields a descriptor if and only if its base matches the pattern |
| Filename.ParseNamedFile | build/generate-metadata.js:29-57 | for `slug-date-page[.txt]` the descriptor is exactly: filename the base, newspaper the capitalised slug, date `YYYY-MM-DD`, the display date, page number the digits' value, issue id `slug-date` |
| Filename.ParseWellFormed | build/generate-search-index.js:35-63 | every descriptor the second copy of the parser returns is well formed, and its filename is the name without `.txt` |
| Filename.WellFormedFacts | build/generate-metadata.js:44-56 | a descriptor's date is an ISO date, its page number is below 1000, its filename is the issue id, a hyphen and the page in three digits, and its header is fixed by its issue id |
| Filename.IssueIdHeader | build/generate-metadata.js:39-54 | the issue id determines newspaper, date and display date |
| Filename.SameIssueSameHeader | build/generate-metadata.js:105-113 | two pages with the same issue id carry the same newspaper, date and display date, so the first page's header is the issue's |
| Filename.DayText | build/generate-metadata.js:51 | `parseInt(day)` printed back drops exactly one leading zero |
| Filename.DisplayNameShape | build/generate-metadata.js:39-42 | the display name has the slug's length: hyphens become spaces and only the first letter of each word is upper-cased |
| Filename.JoinCapitalized | build/generate-metadata.js:39-42 | capitalising the words of a hyphen-split slug and joining them with spaces changes each character in place |
| Publications.DistinctSlugsOneName | build/generate-metadata.js:39-42 | two different slugs, `a-b` and `A-b`, get the same display name |
| Publications.DisplayNamesMerge | build/generate-metadata.js:191-200 | two issues whose slugs have the same display name fall under exactly one entry of `publications`, and that entry's `issueCount` counts both |
| Strings.JoinSplit | build/generate-metadata.js:40-42 | joining the pieces of a split with the separator gives back the string |
| Strings.PaddedNatToString | build/generate-metadata.js:203 | `n.toString().padStart(w, '0')` is the w-digit decimal text of n whenever n fits in w digits |
| Strings.FixedDigitsOfValue | build/generate-metadata.js:203 | a digit string read as a number and written back at its own width is the original text, so a day read with `parseInt` prints back as its two digits |
| Strings.LexLessTransitive | build/generate-metadata.js:134-137 | the string order used by the comparator is transitive |
| Strings.LexLessTotal | build/generate-metadata.js:134-137 | of two different strings, one is less than the other |
| Strings.LexLessAsymmetric | build/generate-metadata.js:198-199 | no two strings are each less than the other |
| Strings.LexMinUnique | build/generate-metadata.js:212-214 | a member of a list that no member precedes is its least element |
| Strings.LexMaxUnique | build/generate-metadata.js:212-214 | a member that no member follows is the greatest element |
| Strings.PrefixMonotone | build/generate-metadata.js:175 | cutting two ordered date strings to their first four characters keeps them ordered |
| Strings.Trim | build/generate-search-index.js:120 | the trimmed text is a slice of the text with only white space cut at either end, and neither end is white space |
| Strings.TrimIdempotent | build/generate-search-index.js:120 | trimming trimmed text changes nothing |
| Sequences.StableSortSorted | build/generate-metadata.js:129 | the page sort leaves the pages in ascending page-number order |
| Sequences.StableSortStable | build/generate-metadata.js:129 | pages with equal numbers keep their discovery order, so the sort is stable and a permutation |
| Sequences.FirstByKeyDistinct | build/generate-metadata.js:105-113 | keeping the first element of each key gives each key once, as a `Map` keyed by id holds it |
| Sequences.FirstByKeyKeys | build/generate-metadata.js:105-113 | the kept keys are exactly the keys that occur |
| Sequences.FirstByKeySound | src/assets/js/search.js:52-55 | every kept element is the first occurrence of its key |
| Sequences.FirstAtKept | src/assets/js/search.js:52-55 | every first occurrence of a key is kept |
| Sequences.FirstAtOrdered | src/assets/js/search.js:52-55 | first occurrences are kept in the order they occur |
| Issues.Descriptors | build/generate-metadata.js:95-103 | each name gives a well-formed descriptor or counts as rejected, and the two counts add up to the number of names |
| Issues.DescriptorsStep | build/generate-metadata.js:95-103 | one more name appends its descriptor if it parses and counts one more rejection otherwise |
| Issues.GroupedIssueSnocNew | build/generate-metadata.js:105-113 | a page of an unseen issue starts the issue with that page's header and the page alone |
| Issues.GroupedIssueSnocOld | build/generate-metadata.js:115-120 | a page of a seen issue is appended to that issue's pages and changes nothing else |
| Issues.GroupedIssueSnocOther | build/generate-metadata.js:105-120 | a page leaves every other issue as it was |
| Issues.AddPageTo | build/generate-metadata.js:105-120 | one iteration of the grouping loop adds the page to the map and appends the issue id to the order exactly when it is new |
| Issues.GroupMapIsGrouping | build/generate-metadata.js:92-121 | the map built page by page has one entry per issue id, equal to that issue's grouped pages |
| Issues.GroupIssues | build/generate-metadata.js:92-121 | the loop counts exactly the rejected names and leaves, in first-seen order, every issue with all its pages in discovery order |
| Issues.FinishIssues | build/generate-metadata.js:128-131 | every issue gets its pages sorted and its page count, and no issue is added or lost |
| Issues.FinishedIssueFacts | build/generate-metadata.js:129-130 | a finished issue's pages are sorted, stably, a permutation of the grouped pages, and counted |
| Issues.FinishedIssues | build/generate-metadata.js:128-134 | there is one finished issue per issue id, and each is the finished grouping of its id |
| Issues.IssueBeforeTotal | build/generate-metadata.js:134-137 | the comparator orders any two issues with different ids |
| Issues.IssueBeforeTransitive | build/generate-metadata.js:134-137 | the comparator is transitive |
| Issues.IssueBeforeAsymmetric | build/generate-metadata.js:134-137 | the comparator never puts each of two issues before the other |
| Issues.SortIssuesChronological | build/generate-metadata.js:134-137 | issues with distinct ids come out strictly ordered by date, then id |
| Issues.ChronologicalUnique | build/generate-metadata.js:134-137 | only one strictly ordered arrangement of the issues exists, so any correct sort, the engine's included, gives the same list |
| Issues.SortedIssuesChronological | build/generate-metadata.js:134-137 | the sorted issue list is strictly chronological |
| Issues.SortedIssuesIds | build/generate-metadata.js:134-137 | the sorted list holds each issue id once and every page's issue |
| Issues.SortedIssuesMembers | build/generate-metadata.js:127-137 | every sorted issue is the finished grouping of its id |
| Issues.SortedIssuesTotal | build/generate-metadata.js:130 | the page counts of the sorted issues add up to the number of pages |
| Issues.IssueHeaderAgrees | build/generate-metadata.js:105-113 | every page of an issue has the header recorded from its first page |
| Issues.DateOrder | build/generate-metadata.js:134-137 | dates do not decrease along the sorted list |
| Issues.SelectChronological | build/generate-metadata.js:174-188 | the issues of one year or title, taken in order, are still chronological |
| PageLinks.BuildAllPages | build/generate-metadata.js:141-170 | the nested loop produces the flattening of all issues' page records, issue by issue |
| PageLinks.FlattenLength | build/generate-metadata.js:144-170 | the flat list holds as many records as the issues have pages |
| PageLinks.FlattenAt | build/generate-metadata.js:149-168 | page j of issue i sits at that issue's offset plus j, as its record |
| PageLinks.OffsetTotal | build/generate-metadata.js:221 | an issue's offset is the page total of the issues before it |
| PageLinks.PageNeighbours | build/generate-metadata.js:160-163 | in the flat list each record's previous/next page fields name exactly the neighbouring records of the same issue, and are null at the issue's ends |
| PageLinks.PreviousRecord | build/generate-metadata.js:160-161 | the record before a page belongs to its issue exactly when the page is not the first, and then it is the previous page's record |
| PageLinks.NextRecord | build/generate-metadata.js:162-163 | the record after a page belongs to its issue exactly when the page is not the last, and then it is the next page's record |
| PageLinks.IssueNeighbours | build/generate-metadata.js:144-167 | previous/next issue fields name the first page and display date of the neighbouring issue, and are null for the first and last issue |
| Years.BucketSnoc | build/generate-metadata.js:176-187 | an issue adds its summary and page count to its own year's bucket only |
| Years.YearMapIsBuckets | build/generate-metadata.js:172-188 | the year map has an entry for exactly the years that occur, each holding that year's issues in order and their page total |
| Years.AddToYearIn | build/generate-metadata.js:175-187 | one iteration creates the year's bucket if it is missing and adds the issue to it |
| Years.BuildYears | build/generate-metadata.js:172-188 | the loop builds exactly the year map and the years in first-seen order |
| Years.YearKeysComplete | build/generate-metadata.js:212 | the year keys are distinct and are exactly the years of the issues |
| Years.YearTotals | build/generate-metadata.js:187 | the buckets' page totals add up to the pages of all issues |
| Years.BucketChronological | build/generate-metadata.js:174-186 | each bucket lists its issues chronologically |
| Years.SortedEnds | build/generate-metadata.js:212-215 | the first and last of the sorted year keys are the least and the greatest key |
| Years.DateRangeOfChronological | build/generate-metadata.js:211-215 | the date range runs from the year of the first issue to the year of the last, and is empty without issues |
| Publications.SplitIsoDate | build/generate-metadata.js:202 | splitting an ISO date on `-` gives its year, month and day |
| Publications.FormatDateShortShape | build/generate-metadata.js:201-204 | `formatDateShort` prints the year, the short month name (`undefined` outside 1 to 12) and the two-digit day |
| Publications.StatsSnocNew | build/generate-metadata.js:193-197 | an issue of a new title starts its aggregate with count 1 and its date as both bounds |
| Publications.StatsSnocOld | build/generate-metadata.js:196-199 | an issue of a known title adds one to the count and widens the date bounds |
| Publications.StatsSnocOther | build/generate-metadata.js:192-199 | an issue leaves the other titles' aggregates unchanged |
| Publications.PubMapIsStats | build/generate-metadata.js:191-200 | the publication map has exactly the titles that occur, each with its aggregate |
| Publications.AddToPubIn | build/generate-metadata.js:193-199 | one iteration of the counting loop, and the title order extended when the title is new |
| Publications.CountPublications | build/generate-metadata.js:191-200 | the counting loop builds exactly the aggregates, with titles in first-seen order |
| Publications.StatsDates | build/generate-metadata.js:194-199 | an aggregate's date bounds are dates of its own issues |
| Publications.PrintDates | build/generate-metadata.js:205-208 | every aggregate gets its two bounds printed by `formatDateShort`, and no title is added or lost |
| Publications.PrintedListed | build/generate-metadata.js:205-209 | the printed aggregates read in title order are the listed publications |
| Publications.BuildPublications | build/generate-metadata.js:190-209 | step 6 yields the publication list: aggregates in first-seen order, stably sorted by issue count |
| Publications.ListedMember | build/generate-metadata.js:190-209 | every listed publication is the aggregate of its own title |
| Publications.PublicationTitles | build/generate-metadata.js:191-209 | the list has one entry per title that occurs, and no other |
| Publications.PublicationCounts | build/generate-metadata.js:197 | the issue counts add up to the number of issues |
| Publications.PublicationOrder | build/generate-metadata.js:209 | counts do not increase along the list, and titles with equal counts keep first-seen order |
| Publications.PublicationBounds | build/generate-metadata.js:193-208 | a publication counts its issues, its bounds are its earliest and latest issue dates, and the displays print them |
| Publications.StatsBound | build/generate-metadata.js:198-199 | every issue's date lies between its title's bounds |
| Publications.PublicationBoundsChronological | build/generate-metadata.js:192-199 | over the chronological list the bounds are the dates of the title's first and last issue |
| Metadata.GroupedIssueShape | build/generate-metadata.js:105-131 | a finished issue has at least one page, the date of its first page, and its page count |
| Metadata.SortedIssuesShape | build/generate-metadata.js:127-137 | every sorted issue has pages, an ISO date and a correct page count, as steps 4 to 6 need |
| Sequences.MapValues | build/generate-metadata.js:134 | `Array.from(map.values())` lists the map's values in the order their keys were created (used for the issue map here and the publication map at line 168) |
| Metadata.FinishedValues | build/generate-metadata.js:128-134 | the finished map read in first-seen order is the finished issue list |
| Metadata.GroupedKeys | build/generate-metadata.js:92-121 | the grouping order has each id once and names exactly the map's keys |
| Metadata.PageTotals | build/generate-metadata.js:141-170 | `allPages` has one record per parsed page |
| Metadata.BuildMetadata | build/generate-metadata.js:87-227 | version `1.0`; rejected names counted; totals of issues and pages; `allPages`, years, publications and date range each equal to their specification over the chronologically sorted issues |
| Metadata.RunMetadataBuild | build/generate-metadata.js:233-245 | exit code 1, with nothing written, exactly when every discovered name is rejected; otherwise the metadata is written and has pages |
| Metadata.MetadataTotals | build/generate-metadata.js:172-226 | the year buckets' page totals add up to `totalPages`, and the publications' issue counts add up to `totalIssues` |
| SearchIndex.Documents | build/generate-search-index.js:100-130 | every file is either a document or skipped, and document ids run 0, 1, 2, … in order |
| SearchIndex.DocumentsStep | build/generate-search-index.js:100-130 | a readable file with a valid name appends a document with id `documents.length` and trimmed text; any other file counts as an error |
| SearchIndex.ProcessTextFiles | build/generate-search-index.js:93-138 | the loop returns exactly the documents and the error count, which add up to the number of files |
| SearchIndex.DocumentsAgree | build/generate-search-index.js:100-121 | the stored fields of the documents are the metadata build's descriptors of the readable names; the error count is the unreadable files plus the rejected names |
| SearchIndex.SameDescriptors | build/generate-search-index.js:100-121 | when every file is readable, both builds derive the same descriptors, in the same order, with the same count of skipped names |
| SearchIndex.AllReadable | build/generate-search-index.js:100-104 | when every file is readable, no file is unreadable and the readable names are all names |
| SearchIndex.SourceOf | build/generate-search-index.js:112-121 | every document comes from a file that was read, whose name parses to the document's stored fields and whose trimmed text is its content |
| SearchIndex.SourceOrder | build/generate-search-index.js:112-113 | documents with larger ids come from later files |
| SearchIndex.ExportSnoc | build/generate-search-index.js:160-164 | one reported segment overwrites its key's entry, and a new key is appended to the key order |
| SearchIndex.ExportKeys | build/generate-search-index.js:158-164 | the collected map has exactly the reported keys |
| SearchIndex.ExportLast | build/generate-search-index.js:163 | each key holds the payload of its last report, and a null payload stays null |
| SearchIndex.ExportOrderKeys | build/generate-search-index.js:158-164 | the key order lists each key of the map once |
| SearchIndex.ExportSegments | build/generate-search-index.js:158-164 | the export callback loop builds exactly the collected map and its key order |
| SearchIndex.CreateIndexFile | build/generate-search-index.js:144-172 | the index file holds version `1.0`, the document count, the configuration unchanged and exactly the exported keys |
| SearchIndex.RunSearchBuild | build/generate-search-index.js:192-216 | exit code 1, with nothing written, exactly when no file yields a document; otherwise the written file counts the documents and holds their export and the configuration |
| SearchMerge.ImportSegments | src/assets/js/search.js:33-39 | the import loop imports exactly the specified segments in key order |
| SearchMerge.ImportsKeys | src/assets/js/search.js:33-39 | a key is imported if and only if it is listed and its payload is not null |
| SearchMerge.ImportsPayloads | src/assets/js/search.js:36-37 | each import passes the key's own payload |
| SearchMerge.ImportsDistinct | src/assets/js/search.js:33-39 | no key is imported twice |
| SearchMerge.SegmentsRoundTrip | src/assets/js/search.js:33-39 | loading what the build exported imports each key whose last payload is not null, once, and no other key |
| SearchMerge.MergeStep | src/assets/js/search.js:50-56 | one hit is kept exactly when its id is unseen, and the seen set then holds the ids scanned so far |
| SearchMerge.MergeResults | src/assets/js/search.js:46-57 | the nested loop returns exactly the documents of the first hit of every id, scanning fields then hits in order |
| SearchMerge.MergeDistinct | src/assets/js/search.js:46-57 | the merged list has no id twice |
| SearchMerge.MergeComplete | src/assets/js/search.js:46-57 | every id any field returns is in the merged list |
| SearchMerge.MergeSound | src/assets/js/search.js:46-57 | every merged hit is a first-seen hit: no earlier field and no earlier hit of its field has its id |
| SearchMerge.MergeKeepsFirst | src/assets/js/search.js:52-55 | every first-seen hit is kept |
| SearchMerge.MergeOrder | src/assets/js/search.js:48-56 | first-seen hits of an earlier field come before those of a later one |
| ResultsView.NextOffset | src/assets/js/search.js:75 | the pass end `Math.min(offset + 24, n)` is one of the two bounds and exceeds neither, so a pass advances the offset by at most 24, never past the end, and by at least one while documents remain |
| ResultsView.NextOffsetAfter | src/assets/js/search.js:75-90 | after k + 1 passes the offset is `min(24(k + 1), n)` |
| ResultsView.RemainingPasses | src/assets/js/search.js:92-96 | documents remain after k passes if and only if k < ceil(n / 24) |
| ResultsView.BatchSizes | src/assets/js/search.js:68-90 | every pass but the last renders 24 documents, the last renders between 1 and 24, and later passes render none |
| ResultsView.BatchesTotal | src/assets/js/search.js:74-90 | the batches of the first m passes add up to the offset after m passes |
| ResultsView.FiftyResults | src/assets/js/search.js:68-97 | 50 results take 3 passes of 24, 24 and 2 |
| ResultsView.Detach | src/assets/js/search.js:93 | taking the sentinel out of the grid (before `appendChild` puts it at the end) leaves the cards and no sentinel |
| ResultsView.PassShape | src/assets/js/search.js:89-96 | a pass adds its batch's cards after the grid's cards; the sentinel stays attached at most once and is the last child exactly when documents remain |
| ResultsView.PassShown | src/assets/js/search.js:74-97 | one pass keeps the shown state: cards are the first offset documents in order, and the observer runs only while documents remain |
| ResultsView.ResultsView.constructor | src/assets/js/search.js:68-72 | an empty grid at offset 0 with no observer |
| ResultsView.ResultsView.RenderBatch | src/assets/js/search.js:74-97 | appends the cards of the next batch, advances the offset, moves the sentinel to the end if documents remain and disconnects the observer otherwise |
| ResultsView.ResultsView.Start | src/assets/js/search.js:105-108 | the first pass, then observing if and only if documents remain |
| ResultsView.ResultsView.OnIntersect | src/assets/js/search.js:99-103 | renders the next batch only while observing and intersecting, and otherwise changes nothing |
| ResultsView.ObservingPasses | src/assets/js/search.js:92-108 | the observer is connected only before ceil(n / 24) passes; after them every document is shown, in order |
| ResultsView.StatusFor | src/assets/js/search.js:59-66 | "No results" exactly for an empty merge, otherwise the count of merged documents, both for the query |
| ResultsView.ShowResults | src/assets/js/search.js:16-108 | an empty query does nothing; otherwise the status follows the merged results of the imported segments, and a view exists, after its first pass, exactly when there are results |

## Left out

- File discovery (`getAllTextFiles`: the directory walk, the `.txt` filter, the path sort) and `path.basename` are I/O. Both builds take the discovered files as a sequence of base names in sorted order.
- File reading is I/O. The search-index build gets each file's text, or `None` where reading failed. Any other exception, and the `catch` in `main` that exits with 1 on it, are not modelled.
- Console logging, the `generated` time stamps, `JSON.stringify`/`JSON.parse`, `mkdir`, `writeFile` and the file-size report are left out. `JSON.parse` of a segment payload is taken to succeed.
- FlexSearch is not modelled. `new Document`, `add` and `export` are a function from the documents to the segments the export reports. `import` and `search`, with its limit of 200 and enrichment, are a function from the imported segments and the query to the per-field hit lists. Each payload is an opaque type.
- Strings.LexLess: `localeCompare` (build/generate-metadata.js:136) is modelled as code-point order, not locale collation. The id tie-break of two issues with the same date can then differ from the script's. The slug group `(.+?)` admits upper case and non-ASCII letters, and for such slugs the order can be reversed: `Woodhull-19000101` comes before `alpha-19000101` in the model, while `localeCompare` puts `alpha-19000101` first. The sort order and the prev/next issue links of those issues then differ. The other facts proved about the sort, such as the strict date order and the uniqueness of the arrangement, rest only on the id order being a strict total order.
- Strings.LexLess: JavaScript's `<` (build/generate-metadata.js:198-199) compares UTF-16 code units. These agree with code-point order only on strings without characters above U+FFFF. The dates compared there are ASCII ISO dates, so the model is exact for them.
- Filename.Capitalize: `toUpperCase` is modelled for the ASCII letters only. Other characters are left unchanged.
- Keys of a JavaScript object are taken in insertion order. The engine lists integer-like keys first, but the segment keys are names, and the year keys are sorted before use.
- ResultsView.ShowResults: a failed `fetch` and its error status line are network I/O and are left out. So are the intermediate "Loading"/"Parsing" messages, and copying the query into the input box.
- ResultsView.ResultsView.RenderBatch: the card markup, `escapeHtml` and the thumbnail and page URLs are not modelled. A card is its document.
- ResultsView.ResultsView.OnIntersect: the browser's observer is a flag. A callback is modelled only while it observes, and it always runs to completion before the next one.
- `src/assets/js/viewer.js` is not part of this model.
