# csdb-toplist: the paging loop and the XML-to-record mapping

`csdb-toplist/app.js` is a browser script. It reads the CSDb release chart one page of 25 results at a time from the CSDb web service and flattens every chart entry into a display record for a table widget. This project models the script's core in Dafny and proves properties of that model:

- `fetchAllDemos`: the paging loop. It starts at page 1, stops at page 20, and also stops at a failed request, an empty page or a page that announces no more pages.
- `fetchCsdbPage`: one request, then the `Entry` elements read from the XML answer.
- `getElementText` and `parseReleaseElement`: the record extractor.
- `formatDemoEntry`: the mapping from one raw entry to one display record.

Modules, leaf first:

- `Wrappers`: `Option` and `Result`.
- `Seqs`: concatenation facts.
- `Xml`: a DOM tree as a datatype, with `querySelector`, `querySelectorAll`, the two-part descendant selector and `textContent`. Each lookup is proved equal to a reference definition over document (pre-)order. For the two-part selector `"A B"` that order is restricted to the nodes lying below an `A` element.
- `JsNumbers`: `parseInt`, `parseFloat` and the `|| 0` fallback, following sections 19.2.5 and 19.2.4 of ECMA-262.
- `Extractor`: `getElementText`, `parseReleaseElement` and the per-entry record. A property missing from the JavaScript object (it reads as `undefined`) is `None`.
- `Formatter`: `formatDemoEntry`. The `Date` value is kept as a term over the three `parseInt` results.
- `PageFetcher`: `fetchCsdbPage`. Its loop over the entry elements is an imperative Dafny `while` loop, proved against `ParseEntries`.
- `Aggregator`: `fetchAllDemos`, an imperative `while` loop.

How the environment is modelled:

- The network (CORS relay, URL building, `axios`) is a server function `ChartQuery -> Response`. A response is either a transport failure or a parsed document.
- `PageOutcomes(server)` is the page oracle that function induces: page `p` is what `fetchCsdbPage(p)` returns or throws.
- `Requested(fetch, page)` gives the pages the loop asks for, in order. `Kept(fetch, page)` gives the raw entries whose records it collects. Both are recursive specification functions over an arbitrary oracle.
- `FetchAllDemos` is proved to return `FormatEntries(Kept(PageOutcomes(server), 1))`, and its ghost out-parameter `requested` is proved to be `Requested(PageOutcomes(server), 1)`.
- The lemmas then prove what the loop promises about `Kept` and `Requested`.

Four facts about `app.js` shape the model:

- `hasMore` is `entries.length >= 25`: at least a full page, so a page of more than 25 entries also continues the loop (app.js:168).
- `DOMParser.parseFromString` does not throw on malformed XML. It returns some document, possibly without `Entry` elements: depending on the browser, entries parsed before the error may survive. So only the HTTP request can fail, and a response body is any document tree.
- A failed page 1 does not reject `fetchAllDemos`: the `catch` at app.js:115-118 turns it into `break`, so an empty list is returned. The rejection handler at app.js:76-82 is not reached by a fetch failure.
- `parseFloat(Rating) || 0` can be negative or `Infinity`, so the rating is a `Number`, not a non-negative value.

## Model

| member | source | states |
|---|---|---|
| Xml.Tagged | csdb-toplist/app.js:149 | the reference selection: every element of a sequence with the tag is kept, only those, and nothing else |
| Xml.FirstTagged | csdb-toplist/app.js:221 | the reference first match: None exactly when no element carries the tag; otherwise a tagged element with no tagged element before it |
| Xml.FindFirst | csdb-toplist/app.js:221 | `querySelector(tag)` returns only elements with that tag |
| Xml.FindUnder | csdb-toplist/app.js:187 | the descendant selector `"A B"` returns only elements tagged B; `Xml.FindUnderIsFirstEnclosed` states which one |
| Xml.FindAllIsTaggedPreOrder | csdb-toplist/app.js:149 | `querySelectorAll(tag)` is exactly the tagged nodes of the document, in document order |
| Xml.FindFirstIsFirstInPreOrder | csdb-toplist/app.js:221 | `querySelector(tag)` is the first tagged node in document order |
| Xml.FindFirstIsHeadOfFindAll | csdb-toplist/app.js:149-162 | `querySelector(tag)` is the head of `querySelectorAll(tag)`, and absent exactly when that list is empty |
| Xml.ForestTextIsPreOrderTexts | csdb-toplist/app.js:222 | `textContent` is the concatenation of the text nodes below, in document order |
| Xml.FindUnderEnclosed | csdb-toplist/app.js:187 | inside an element tagged A, `"A B"` is the same lookup as `B` |
| Xml.FindAll | csdb-toplist/app.js:149 | `querySelectorAll(tag)` as a depth-first walk; `Xml.FindAllIsTaggedPreOrder` states what it returns |
| Xml.ForestText | csdb-toplist/app.js:222 | `textContent` of a forest, computed recursively; `Xml.ForestTextIsPreOrderTexts` states what it returns |
| Xml.TextContent | csdb-toplist/app.js:222 | `node.textContent`: a text node's own text, an element's `Xml.ForestText` of its children |
| Xml.PreOrderUnderEnclosed | csdb-toplist/app.js:187 | below an enclosing A element, the enclosed order is the whole document order |
| Xml.PreOrderUnderMembers | csdb-toplist/app.js:187 | the nodes in the enclosed order are exactly those lying below some A element of the document |
| Xml.FindUnderIsFirstEnclosed | csdb-toplist/app.js:187-188 | `"A B"` returns the first B element, in document order, among the nodes lying below an A element |
| Xml.FindUnderNoneIff | csdb-toplist/app.js:187-188 | `"A B"` finds nothing if and only if no A element of the document has a B element below it |
| JsNumbers.TrimStart | csdb-toplist/app.js:240-242 | the leading-white-space trim of `parseInt`/`parseFloat`: a suffix of the input, everything removed is white space, and the rest does not start with white space |
| JsNumbers.DigitPrefix | csdb-toplist/app.js:240-242 | the longest prefix of radix digits: every kept character is a digit, and the next one is not |
| JsNumbers.ParseInt | csdb-toplist/app.js:240-242 | `parseInt(s)` without a radix: skip white space, read a sign, then hexadecimal digits after "0x" or decimal digits; NaN when there are none. `JsNumbers.ParseIntNaNIff` and the round-trip lemmas state its properties |
| JsNumbers.ParseFloat | csdb-toplist/app.js:252 | `parseFloat(s)`: skip white space, read a sign, then "Infinity" or the longest decimal literal; NaN when there is none. `JsNumbers.ParseFloatNaNIff` and `JsNumbers.ParseFloatAllDigits` state its properties |
| JsNumbers.IntOrZero | csdb-toplist/app.js:253 | the zero fallback of the votes gives 0 for NaN and the parsed integer otherwise |
| JsNumbers.NumberOrZero | csdb-toplist/app.js:252 | the zero fallback of the rating gives 0 for NaN and the parsed number otherwise |
| JsNumbers.ParseIntAllDigits | csdb-toplist/app.js:253 | a string of decimal digits parses to the number it spells |
| JsNumbers.ParseIntDecimalString | csdb-toplist/app.js:240-242 | round trip: `parseInt` reads back the decimal numeral of every natural number |
| JsNumbers.ParseIntNaNIff | csdb-toplist/app.js:253 | `parseInt` is NaN if and only if, after white space and sign, the text starts with "0x" or "0X" and no hexadecimal digit follows, or it does not start with a decimal digit at all |
| JsNumbers.ParseFloatAllDigits | csdb-toplist/app.js:252 | a whole-number numeral parses as a float to its value |
| JsNumbers.ParseFloatNaNIff | csdb-toplist/app.js:252 | `parseFloat` is NaN if and only if, after white space and sign, the text starts with neither "Infinity", a decimal digit, nor `.` followed by a decimal digit |
| Extractor.GetElementText | csdb-toplist/app.js:220-223 | the text of the first element with the tag below the parent in document order (the text nodes below it, concatenated), or "" when there is none |
| Extractor.ParseReleaseElement | csdb-toplist/app.js:174-184 | no element gives `{}` (every field absent); otherwise the six scalar fields are present and hold the text of the first descendant element with their tag (which may lie inside a nested group or event) |
| Extractor.ReleasedByPresentIff | csdb-toplist/app.js:187-195 | the group record is present if and only if some ReleasedBy element below the release has a Group element below it |
| Extractor.ReleasedAtPresentIff | csdb-toplist/app.js:198-205 | the event record is present if and only if some ReleasedAt element below the release has an Event element below it |
| Extractor.ReleasedByIsFirstEnclosedGroup | csdb-toplist/app.js:187-195 | the group record is read (ID and Name) from the first Group element, in document order, lying below a ReleasedBy element of the release; absent when there is none |
| Extractor.ReleasedAtIsFirstEnclosedEvent | csdb-toplist/app.js:198-205 | the event record is read (Name) from the first Event element, in document order, lying below a ReleasedAt element of the release; absent when there is none |
| Extractor.AchievementIsFirstAchievement | csdb-toplist/app.js:208-214 | the achievement record is read (Place and Compo) from the first Achievement element below the release; absent when there is none |
| Extractor.AchievementPresentIff | csdb-toplist/app.js:208-214 | the achievement record is present if and only if an Achievement element lies below the release |
| Extractor.ParseEntry | csdb-toplist/app.js:158-163 | place, rating and votes are the texts `getElementText` reads for Place, Rating and Votes; the release is `parseReleaseElement` of the first Release element in document order, and `{}` exactly when there is none |
| PageFetcher.PageQuery | csdb-toplist/app.js:134-139 | the query asks for the release chart (type chart, ctype release, subtype 1) from result `(page - 1) * 25` |
| PageFetcher.PageQueryRoundTrip | csdb-toplist/app.js:138 | the start offset is a multiple of 25 and determines the page it was built from |
| PageFetcher.PageOf | csdb-toplist/app.js:142-170 | the page fails exactly when the request fails; a successful page announces more pages exactly when it holds at least 25 entries |
| PageFetcher.ParseEntries | csdb-toplist/app.js:156-165 | one record per Entry element, and the i-th record is the i-th element parsed |
| PageFetcher.FetchCsdbPage | csdb-toplist/app.js:128-171 | the method's result (its loop over the elements included) is the page `PageOf` gives for the server's answer to `PageQuery(page)` |
| PageFetcher.EmptyDocument | csdb-toplist/app.js:149-153 | a document without Entry elements gives no entries and `hasMore` false |
| PageFetcher.PageEntriesInDocumentOrder | csdb-toplist/app.js:149-165 | a page's entries are its document's Entry elements, each parsed, in document order |
| Formatter.OrNull | csdb-toplist/app.js:255 | the null fallback of screenshot and event is null exactly for a missing or empty string, and the string otherwise |
| Formatter.HasFullDate | csdb-toplist/app.js:233 | the condition of the date branch: day, month and year are all present and non-empty (JavaScript truthiness of a string) |
| Formatter.MonthIndex | csdb-toplist/app.js:241 | `parseInt(month) - 1`: NaN exactly when the month text has no leading integer literal |
| Formatter.ReleaseDateText | csdb-toplist/app.js:230-235 | "Unknown" exactly when day, month or year is missing or empty; otherwise "day/month/year" verbatim |
| Formatter.SortValueOf | csdb-toplist/app.js:231-243 | the constant 0 when the date is unknown; otherwise the timestamp term of the parsed year, the parsed month minus 1 and the parsed day |
| Formatter.ReleaseUrl | csdb-toplist/app.js:254 | the link is the release-page prefix followed by the id as a template prints it (`undefined` when missing) |
| Formatter.AchievementText | csdb-toplist/app.js:256-257 | "place. place at compo" exactly when the release has an achievement, else null |
| Formatter.EventName | csdb-toplist/app.js:258 | the event name, and null exactly when there is no event or its name is empty |
| Formatter.FormatDemoEntry | csdb-toplist/app.js:226-260 | each field of the display record is the corresponding field function applied to the entry |
| Formatter.FormatEntries | csdb-toplist/app.js:106 | `entries.map(formatDemoEntry)`: same length, and the i-th record formats the i-th entry |
| Formatter.FormatEntriesAppend | csdb-toplist/app.js:106-107 | formatting pages one after another and concatenating gives the formatted concatenation |
| Formatter.ReleaseDateRoundTrip | csdb-toplist/app.js:235 | round trip: a known date string splits at its slashes back into its day, month and year (when those contain no slash) |
| Formatter.NumericDate | csdb-toplist/app.js:233-243 | a date given as three numerals is shown verbatim and sorts by that calendar date, with the month 0-based |
| Formatter.NumericSortValue | csdb-toplist/app.js:239-243 | three numerals give a full date whose sort value is the timestamp of year, month - 1 and day |
| Formatter.VotesOfText | csdb-toplist/app.js:253 | the vote count of a numeral is its value; text without a leading integer literal (NaN for `parseInt`) counts 0 |
| Formatter.RatingOfText | csdb-toplist/app.js:252 | the rating of a whole-number text is that number; text without a leading decimal literal (NaN for `parseFloat`, such as "", "x", ".", ".x" or "Inf") rates 0 |
| Formatter.MissingRelease | csdb-toplist/app.js:246-258 | an entry without a Release element gives no id or name, date "Unknown" with sort value 0, a link ending in "undefined", and no screenshot, achievement or event |
| Aggregator.Continues | csdb-toplist/app.js:95-113 | the loop goes on past a page exactly when its fetch succeeded, it had entries and it announced more pages |
| Aggregator.Requested | csdb-toplist/app.js:88-114 | the pages the loop requests from a page on, as a recursive specification; `Aggregator.RequestsPagesOneToK` and `Aggregator.StopsAtLastRequest` state its properties |
| Aggregator.Kept | csdb-toplist/app.js:101-107 | the raw entries the loop collects from a page on, as a recursive specification; `Aggregator.KeptIsRequestedPages` and `Aggregator.StopAtFailedOrEmptyPage` state its properties |
| Aggregator.FetchAllDemos | csdb-toplist/app.js:86-125 | the result is the formatted entries `Kept` gives for the server's page oracle from page 1, and the pages requested are `Requested` from page 1 |
| Aggregator.CollectPages | csdb-toplist/app.js:87-119 | the loop, against any oracle that agrees with the server's: result and requests are `FormatEntries(Kept(fetch, 1))` and `Requested(fetch, 1)` |
| Aggregator.FetchPage | csdb-toplist/app.js:99 | one `fetchCsdbPage(page)` call yields the oracle's outcome for that page |
| Aggregator.ServerFollowsFullPageRule | csdb-toplist/app.js:168 | every server's pages announce more pages exactly when they are full |
| Aggregator.RequestedConsecutive | csdb-toplist/app.js:88-114 | the pages requested from `page` on are `page`, `page` + 1, ... and never go past page 20 |
| Aggregator.RequestsPagesOneToK | csdb-toplist/app.js:92-95 | the loop requests pages 1..k in increasing order for some 1 <= k <= 20; page 21 is never requested |
| Aggregator.RequestOffsets | csdb-toplist/app.js:138 | the k-th request (counting from 0) asks for results from offset 25 k |
| Aggregator.StopsAtLastRequest | csdb-toplist/app.js:95-117 | every request but the last continued the loop; the last one did not, or was page 20 |
| Aggregator.KeptIsRequestedPages | csdb-toplist/app.js:101-107 | the entries kept are those of the pages requested, concatenated in request order |
| Aggregator.ContinuingPrefix | csdb-toplist/app.js:106-114 | over pages that all continue, the loop keeps their entries in order, then what it keeps from the next page |
| Aggregator.ContinuingRequests | csdb-toplist/app.js:95-114 | over pages that all continue, the loop requests them in order, then what it requests from the next page |
| Aggregator.StopsAtPage | csdb-toplist/app.js:101-117 | after continuing pages 1..m-1, a page m that does not continue is the last request, and the entries of pages 1..m are kept |
| Aggregator.StopAtFailedOrEmptyPage | csdb-toplist/app.js:101-118 | an empty or failed page m ends the loop with m as the last request, and every entry of pages 1..m-1 is kept |
| Aggregator.UniformPagesCount | csdb-toplist/app.js:107 | consecutive pages of `size` entries each contribute `size` times the number of pages |
| Aggregator.FullPagesContinue | csdb-toplist/app.js:113 | full pages continue the loop |
| Aggregator.ShortPageStops | csdb-toplist/app.js:113 | a short page does not continue the loop, so it is the last one requested |
| Aggregator.FullPagesThenShortPage | csdb-toplist/app.js:95-114 | n full pages and then a short page of k entries give 25 n + k records after exactly n + 1 requests |
| Aggregator.TwentyFullPages | csdb-toplist/app.js:92-95 | twenty full pages give 500 records, with pages 1..20 requested and page 21 not |
| Aggregator.FailureOnThirdPage | csdb-toplist/app.js:115-118 | two full pages and a failed third request give 50 records, after requests for pages 1, 2 and 3 |

## Left out

- The table widget, its columns and its rendering (app.js:1-83), and the rejection handler there (app.js:76-82): presentation only, outside the core.
- `updateLoadingStatus` and `console.error`: status output with no effect on the result.
- The CORS relay URL, `URLSearchParams` and `encodeURIComponent`, and `axios`: the request is a `ChartQuery` value, and the transport is the server function.
- `async`/`await`: the loop awaits each page before the next, so the model is sequential.
- `DOMParser` internals: a response body is given already parsed into a node tree. An unparsable body gives some document, possibly without `Entry` elements.
- Attributes, comments and processing instructions: the tree has only elements and text nodes, the only kinds the script reads.
- Xml.FindUnder: the descendant selector looks only for `A` ancestors inside the element it is called on. A `ReleasedBy` or `ReleasedAt` element enclosing the whole release is not considered, which `querySelector` would do.
- JsNumbers: `parseInt` and `parseFloat` use exact integers and reals. Rounding to a binary double, overflow to `Infinity` for long numerals, and the distinction between -0 and +0 are not modelled.
- Formatter.SortValueOf: `new Date(y, m, d).getTime()` is kept as an uninterpreted timestamp of its three arguments. Calendar arithmetic, time zones and the NaN timestamp of an invalid date are not modelled, so a known date whose timestamp is 0 (1 January 1970 in UTC) is not told apart from the unknown-date sort value 0.
- Extractor.ParseReleaseElement: the contract gives the six scalar fields. The nested group, event and achievement records are stated by the lemmas after it, not by its own contract.
- The group record (`ReleasedBy.Group`) is extracted but not used by `formatDemoEntry`, so no property beyond its presence is stated.
