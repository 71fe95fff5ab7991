# Swiggy order scraper: a Dafny model of its core

This project models the two files at the heart of the Swiggy order-history
scraper, `src/scraper.ts` and `src/helpers.ts`. `scrapeOrders` opens the
orders page. A response listener collects the orders that the site's
`dapi/order/all` API returns into an insertion-ordered `Map` keyed by order
id. `expandOrderList` then clicks "Show More Orders" until the order last
inserted into that map is older than the start date, or until the control is
gone. Next the captured orders are sorted newest first and filtered by date
range and delivery address. Each remaining order is located on the page by
its id (`clickOrderDetails`) and clicked. The first successful click fixes a
crop region once (`performCalibration`). Each success produces a screenshot
named after a serial number and one CSV row.

Everything the browser decides becomes a parameter:

- the responses that arrive;
- the text the "Show More" scan sees on each pass;
- the text nodes the id search walks on each attempt;
- the viewport, the element under the probe point, the scroll offset and
  whether a clipped screenshot is rejected;
- the date formatter.

Timestamps and amounts are integers.

Modules, one per file:

| module | file | models |
|---|---|---|
| `Common` | common.dfy | `Option`, first-match search, distinctness |
| `Text` | text.dfy | JavaScript `includes`, `trim`, `split`/`join` on one character |
| `Types` | types.dfy | `SwiggyOrder`, the crop rectangle, a CSV row |
| `OrderMaps` | ordermap.dfy | the insertion-ordered `capturedOrders` map and `set` |
| `Interceptor` | interceptor.dfy | the response listener |
| `Dom` | dom.dfy | `findElementByText`, `clickOrderDetails`, the "Show More" scan |
| `Expansion` | expansion.dfy | `expandOrderList` |
| `Calibration` | calibration.dfy | `performCalibration`, the calibration lock, the screenshot crop |
| `Sorting` | sorting.dfy | the newest-first sort |
| `Processing` | processing.dfy | the processing loop: guards, click, capture, rows, serials |
| `Scraper` | scraper.dfy | the three phases of one `scrapeOrders` call put together |

The source interleaves the date and address guards with the click and
capture. The model splits this into two steps. `Select` is the guard scan,
with its `continue`s and its `break`. `Capture` is the click-and-capture loop
over the orders that pass the guards. The split changes nothing, because the
guards read only the order and the configuration, never the page or the loop
state. `SelectIsQualifying` shows that on the sorted input the `break` loses
no order.

The source's operations are defined by these members. The table below lists
the members whose contracts state what those definitions do.

- `scrapeOrders` as a whole (src/scraper.ts:32-125): `Scraper.ScrapeOrders`.
- The `capturedOrders` map and `set` (src/scraper.ts:32, 43): `OrderMaps.Empty`, `OrderMaps.Set` and `OrderMaps.Merge`.
- The response listener (src/scraper.ts:35-47): `Interceptor.Accepted` is its filter, `Interceptor.Intercept` is one callback, and `Interceptor.InterceptAll` is a sequence of callbacks.
- `expandOrderList` (src/helpers.ts:51-82): `Expansion.Expand`. Its boundary check (src/helpers.ts:56-61) is `OrderMaps.BoundaryReached`.
- The "Show More Orders" scan (src/helpers.ts:67-72): `Dom.FindShowMore`, over `Text.Trim`.
- `clickOrderDetails` and `findElementByText` (src/helpers.ts:87-110): `Dom.ClickOrderDetails` and `Dom.FindElementByText`, over `Text.Contains`.
- The sort (src/scraper.ts:57-59): `Sorting.SortByTimeDesc`.
- The date and address guards (src/scraper.ts:64-69): `Processing.Qualifies`, and their scan, `Processing.Select`.
- The click-and-capture loop (src/scraper.ts:73-121): `Processing.Capture`. The whole processing phase (src/scraper.ts:57-125) is `Processing.Scrape`.
- The CSV record (src/scraper.ts:108-116): `Processing.MakeRecord`, with the date column built by `Text.Split`, `Text.Join` and `Text.DropFirstToken`.
- `performCalibration` (src/helpers.ts:14-46): `Calibration.Calibrate`. The lock and the screenshot (src/scraper.ts:79-98) are `Calibration.EnsureCalibrated` and `Calibration.Screenshot`.

## Model

| member | source | states |
|---|---|---|
| Text.TrimIsInfix | src/helpers.ts:69 | the trimmed text is the infix of the input that starts right after its leading white space |
| Text.TrimRemovesSpace | src/helpers.ts:69 | what trimming removes on either side is all white space |
| Text.TrimEndsNonSpace | src/helpers.ts:69 | the trimmed text neither starts nor ends with white space |
| Text.TrimPadded | src/helpers.ts:69 | conversely, text without white space at its ends, padded with any white space on either side, trims back to itself |
| Text.JoinSplit | src/scraper.ts:112 | joining the pieces of a split on a character gives back the string |
| Text.SplitJoin | src/scraper.ts:112 | splitting a join of separator-free pieces gives back the pieces |
| Text.DropFirstToken | src/scraper.ts:112 | the date column is everything after the first space of the formatted date (the weekday is dropped), or empty when there is no space |
| Text.ContainsInfix | src/helpers.ts:94 | a string includes each of its infixes |
| Text.ContainsAt | src/helpers.ts:94 | `includes` holds exactly when the searched text occurs at some position of the string |
| OrderMaps.Empty | src/scraper.ts:32 | the new map is valid and has no keys |
| OrderMaps.Set | src/scraper.ts:43 | setting an id already present overwrites the value and keeps the key's position; a new id is appended; validity is kept |
| OrderMaps.Merge | src/scraper.ts:43 | after merging a batch the map is still well formed and the old keys are a prefix of the new ones |
| OrderMaps.MergeOrder | src/scraper.ts:43 | the key sequence after a merge is the old keys followed by the batch's new ids, each once, in the order they first appear in the batch, as a JavaScript `Map` orders its keys |
| OrderMaps.MergeKeys | src/scraper.ts:43 | the key set after a merge is the old keys plus the batch's ids |
| OrderMaps.ValuesAreStored | src/helpers.ts:56 | `values()` lists exactly the stored orders, each under its own id, each once, so it has as many entries as the map |
| OrderMaps.MergeConcat | src/scraper.ts:43 | merging two batches in turn equals merging their concatenation |
| OrderMaps.MergeLastWins | src/scraper.ts:43 | after a merge each id of the batch holds the last order of the batch with that id |
| OrderMaps.MergeUntouched | src/scraper.ts:43 | an id not in the batch keeps its presence and its value |
| OrderMaps.MergeCount | src/scraper.ts:43 | the number of keys after a merge is the number of distinct ids among the old keys and the batch |
| OrderMaps.RemergeKeepsFrontier | src/helpers.ts:56-61 | re-sending an order already captured keeps the key order, so the boundary check can change only if that order is the last key and its timestamp changed |
| Interceptor.Intercept | src/scraper.ts:35-47 | a response is merged exactly when its URL includes the orders endpoint, its method is GET, its body parses, its statusCode is 0, its data is truthy and data.orders is an array; in every other case the map is unchanged |
| Interceptor.InterceptAllIsMerge | src/scraper.ts:35-47 | handling a sequence of responses equals one merge of all the orders they carried, in arrival order |
| Interceptor.ObservedIdsCounted | src/scraper.ts:32-47 | from the empty map, the keys are exactly the observed ids, one per distinct id, and each id holds the last order observed under it |
| Dom.FindElementByText | src/helpers.ts:90-99 | null exactly when no text node has a non-empty value that includes the text; otherwise the parent of the first such node in document order |
| Dom.ClickOrderDetails | src/helpers.ts:87-110 | reports a click exactly when some text node with a non-empty value includes the order id |
| Dom.PrintedIdIsFound | src/helpers.ts:93-96 | an id printed inside some non-empty text node is always found, at that node or at an earlier one |
| Dom.FoundNodePrintsText | src/helpers.ts:90-99 | conversely, the element found is the parent of a non-empty text node in which the searched text is printed at some position |
| Dom.FindShowMore | src/helpers.ts:67-72 | the control clicked is the first element whose trimmed text equals "Show More Orders"; none is clicked exactly when no element's trimmed text equals it |
| Dom.PaddedLabelIsFound | src/helpers.ts:69 | an element showing the label surrounded by white space is matched, at or before its position |
| Expansion.ExpandStops | src/helpers.ts:55-81 | the loop stops at the boundary only with a map whose last-inserted order is older than the start date; it stops as exhausted only on a pass whose scan found no control |
| Expansion.ExpandClicked | src/helpers.ts:55-76 | every pass before the loop stopped began with a failed boundary check on the map as it stood and then found and clicked the control; unless the loop stopped at the boundary, the check before its last pass failed too |
| Expansion.ExpandOrders | src/helpers.ts:51-82 | the map the loop stops with is the initial one after the listener has handled the responses of every pass the loop made, including the last pass when its scan found no control |
| Expansion.EmptyMapExhausts | src/helpers.ts:55-80 | starting from an empty map with no control on the first pass, the loop ends exhausted, holding just the responses handled during that pass |
| Expansion.ExhaustedPastBoundary | src/helpers.ts:55-80 | a pass whose responses bring the map past the start date but whose scan finds no control ends the loop as exhausted, although the map now meets the boundary |
| Expansion.FrontierIsNotOldest | src/helpers.ts:56-61 | a map that holds an order older than the start date still fails the boundary check when that order is not the last one inserted |
| Expansion.FrontierIsOldestWhenChronological | src/helpers.ts:56-61 | when the map's keys are in newest-first order, the boundary check holds exactly when some captured order is older than the start date |
| Calibration.Calibrate | src/helpers.ts:14-46 | with an element at the probe point, the region is its bounding box; otherwise it is the 500-pixel-wide strip flush with the right edge, spanning the full viewport height from the top |
| Calibration.Screenshot | src/scraper.ts:85-98 | the shot is clipped exactly when the region has positive width and height and the browser accepts the clip; the clipped region is the locked one moved by the scroll offset, with the same size |
| Calibration.EnsureCalibrated | src/scraper.ts:79-82 | calibration runs only while no region is locked, and the region it locks is the calibration of the current page; a locked region, usable or not, is kept unchanged |
| Sorting.SortByTimeDesc | src/scraper.ts:57-59 | the result is a permutation of the captured orders, ordered newest first |
| Sorting.SortIsStable | src/scraper.ts:57-59 | orders with equal times keep their relative order |
| Processing.Select | src/scraper.ts:64-69 | every order passed to the click step lies in the date range and has an address that includes the filter |
| Processing.SelectIsQualifying | src/scraper.ts:64-69 | on a newest-first input, the `continue`/`break` scan yields exactly the qualifying orders in order, so the `break` drops no order inside the range |
| Processing.MakeRecord | src/scraper.ts:108-116 | reading the first item throws exactly when the order has no items; otherwise the row carries the serial, the first item's name, the id, the date without its weekday, the total in both amount columns and the restaurant |
| Processing.SuccessesComplete | src/scraper.ts:73-75 | every position whose click succeeds is listed among the successes |
| Processing.CaptureNumbers | src/scraper.ts:61-117 | rows and images are only appended; the serial advances by one per row; images carry consecutive serials |
| Processing.CaptureRows | src/scraper.ts:73-121 | the rows written are the records of the successfully clicked orders, in order, numbered from the current serial; a failed click writes nothing |
| Processing.CaptureAborts | src/scraper.ts:108-125 | the run ends early exactly when some successfully clicked order has no items, and its rows stop just before the first such order |
| Processing.CaptureLocksOnce | src/scraper.ts:79-98 | with a region locked, the lock never changes; otherwise calibration runs at most once, and a region ends up locked exactly when some click succeeds; every clipped image has the locked region's size |
| Processing.RunWritesInOrder | src/scraper.ts:61-122 | from serial 1, the rows are the records of the successful clicks numbered 1, 2, ... without gaps; image k carries serial k; only an order that ends the run leaves an image without a row |
| Processing.ScrapeWrites | src/scraper.ts:57-125 | a whole processing run writes, numbered from 1, the records of the captured orders that, sorted newest first, lie in the date range, match the address and are found on the page |
| Processing.CaptureShots | src/scraper.ts:79-98 | a region already locked stays; otherwise the region locked is the calibration of the page at the first successful click; the image of the n-th successful click is that click's page shot, at its scroll offset, with the locked region |
| Processing.ScrapeLocksOnce | src/scraper.ts:79-98 | over a processing run, calibration runs at most once, exactly when nothing was locked and some click succeeds, and locks the first successful click's calibration; a region already locked is kept; each image is its click's page shot with the locked region |
| Processing.ThreeOrdersTwoRows | src/scraper.ts:64-117 | three orders inserted newest first, the oldest before the start date and the others in range and found, yield exactly two rows: serial 1 for the newest and serial 2 for the next |
| Scraper.QualifyingFrom | src/scraper.ts:64-69 | every order the filter keeps comes from its input and qualifies |
| Scraper.SortedAreStored | src/scraper.ts:57-59 | the sorted list processing walks holds exactly the orders stored in the map, each under its own id, as many as the map has entries |
| Scraper.RowsAreCapturedOrders | src/scraper.ts:32-125 | over a whole call, every row is the record of an order stored in the map the expansion left, under the row's id, and that order lies in the date range and matches the address filter |

## Left out

- `src/auth.ts` and `src/index.ts` (login, argument parsing, browser start-up) are not part of this model.
- Waits, timeouts, `waitForSelector` and the Escape key press are left out. They affect only timing and what the page shows next, and the page-state parameters cover that. A `waitForSelector` that fails is caught and ignored (src/scraper.ts:76, 102).
- The overlay dismissal (src/scraper.ts:104-105) is left out. It runs inside the `catch` of the hidden-panel wait. If its `page.$` or its `click` rejects, the error reaches the outer `catch` (src/scraper.ts:123-125) and ends the run after the screenshot and before the row. The model does not have this exit.
- File I/O is left out: emptying the screenshot directory, the CSV writer and its header. A row is modelled as the record passed to `writeRecords`.
- Several other rejections reach the outer `catch` and end the run. The model has only the empty-items failure of src/scraper.ts:110. The exits it leaves out are:
  - a rejected `page.evaluate` during expansion (src/helpers.ts:64, 67). This ends the run before any row is written;
  - a rejected `page.evaluate` in `clickOrderDetails` (src/helpers.ts:88). This ends the run in the middle of the processing loop;
  - the fallback screenshot inside the `catch` (src/scraper.ts:98);
  - the CSV write (src/scraper.ts:108).
- Log messages are left out.
- A failing `page.evaluate` in calibration and a rejected `page.goto` are left out.
- The listener receives whole responses. During expansion, a pass's responses are those the listener handles during the pass's waits, whether or not the control is found. The model merges them after the pass's scan, which is equivalent because the scan does not read the map. The model does not interleave responses arriving in the middle of the processing loop, nor listener callbacks running concurrently with a `set` loop.
- An `orders` array holding a `null` element would make `o.order_id` throw partway through a merge. This is not modelled: a batch is a sequence of well-formed orders.
- Date parsing (`new Date(order_time)`), invalid dates (NaN comparisons) and the `toDateString` format are not modelled. Timestamps are integers, and the formatter is a parameter.
- Amounts and coordinates are integers, not floating-point numbers.
- The DOM is reduced to what the searches read: the text nodes in document order with their parents, and the `textContent` of `div, span, button` elements. Scrolling into view and the click itself are not modelled.
- Expansion.ExpandStops: `Pending` is not an exit of the real loop. It marks the end of the finite sequence of passes given to the model, so termination of the real loop, which depends on the site, is not stated.
- `CALIBRATED_CLIP` is module state that survives across calls of `scrapeOrders`. The model passes it in as the initial lock and does not carry it from one call to the next.
- `order_total` is declared as a number and copied into both amount columns unchanged; its currency units are not interpreted.

## Design observations

- The boundary check of `expandOrderList` (src/helpers.ts:56-61) reads the order inserted last, not the oldest one. `Expansion.FrontierIsNotOldest` exhibits a map that holds an order older than the start date and still fails the check. `Expansion.FrontierIsOldestWhenChronological` shows that the two agree when the map's keys are in newest-first order. `OrderMaps.MergeOrder` shows that the keys follow the first arrival of each id. A later response that re-sends an id with a different time changes the value but not the key's place, so orders delivered newest first do not by themselves give newest-first keys. Whether this is a defect depends on the site's ordering, so it is recorded here rather than as a finding.
- The boundary check runs only at the top of a pass. A pass whose responses bring the map past the start date, but whose scan finds no control, ends the loop as exhausted with a map that meets the boundary (`Expansion.ExhaustedPastBoundary`). Processing then works on that whole map, so nothing is lost.
- The calibration lock (src/scraper.ts:79) tests whether a region is present, not whether it is usable. A zero-size region therefore stays locked, and every later screenshot is a full-viewport shot (`Calibration.EnsureCalibrated`, `Calibration.Screenshot`).
- An order without items is screenshotted before its row fails. It leaves an image with no row, and the run stops there (`Processing.CaptureAborts`, `Processing.RunWritesInOrder`).
