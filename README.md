# carguru scraper — a Dafny model

This project models the scraping and delivery core of the carguru
inventory scraper. The scraper reads the dealerships from the dealership
API. For each dealership it walks the listing pages and collects the
`car-blade-link` vehicle URLs. It renders every vehicle page, turns its
labelled lists into feature and overview dictionaries, and builds a
`VehicleData` record from them. It then drops the records that the vehicle
API already holds, cuts the rest into batches, and posts each record with
retries. Slack alerts are sent along the way.

There are two versions of the vehicle pipeline:

- The current one lives under `app/src/carguru_vehicle/`.
- The older one is `app/src/scraper.py`.

The model covers both versions, and lemmas compare them.

The model also covers:

- the dealership reconciliation and contact-detail extraction of
  `app/src/carguru_dealership/dealership_scraper.py`;
- the behavioural settings and the scroll loop of `app/config/config.py`;
- the browser pool of `app/config/web_driver.py`.

Modules:

- `Wrappers` holds `Option`, `Result` and the uncaught exceptions as an
  `Error` type.
- `PyText` models the Python string behaviour the code relies on, over
  ASCII: `strip`, `split`, `replace`, `lower`, `isdigit`, `int()`, and the
  decimal-literal part of `float()`.
- `Schemas` holds the record shapes of `app/models/schemas.py`. Every field
  is optional.
- `Pages` holds documents as abstract values, the outcome of rendering a
  URL, and the alerts.
- `Details` holds the label/value dictionaries.
- `Pagination` holds the page count and the page walk that both versions
  share.
- `VehicleDataExtraction`, `VehicleScraper`, `VehicleDataProcessing`,
  `LegacyScraper`, `DealershipScraper`, `Config` and `WebDriverPool` follow
  the source files.

The outside world enters as parameters:

- `render` is the document or the exception that loading a URL produced.
- `join` is `urljoin`.
- `isHttpUrl` is pydantic's `HttpUrl` validation.
- `post(n, j)` is the outcome of attempt `j` for record `n`, and
  `post(i)` the outcome for dealership `i`.
- `heights(j)` is the page height after scroll round `j`.
- `body(d)` tells whether the `with` body raised for driver `d`.

Loops in the source are Dafny methods. Each method is proved equal to a
specification function, and the properties are proved about that function.
The browser pool is a class whose queue is a sequence field.

## Model

| member | source | states |
|---|---|---|
| PyText.Strip | app/src/carguru_vehicle/vehicle_data_extraction.py:106 | the stripped text is never longer, neither begins nor ends with whitespace, and is unchanged when it holds no whitespace |
| PyText.StripPadded | app/src/carguru_vehicle/vehicle_data_extraction.py:105 | stripping removes exactly the whitespace padding around a trimmed core |
| PyText.StripTrimmed | app/src/carguru_vehicle/vehicle_data_extraction.py:105 | text that neither begins nor ends with whitespace is its own strip |
| PyText.StripTwice | app/src/carguru_vehicle/vehicle_data_extraction.py:105 | `strip` is idempotent |
| PyText.Split | app/src/carguru_vehicle/vehicle_data_extraction.py:39 | `split()` yields only non-empty words without whitespace |
| PyText.SplitJoinWords | app/src/carguru_vehicle/vehicle_data_extraction.py:39 | splitting words joined by single spaces gives the words back (`split` inverts `" ".join`) |
| PyText.ReplaceChar | app/src/carguru_vehicle/vehicle_data_extraction.py:105 | `replace(" ", "_")` keeps the length and changes exactly the matching characters |
| PyText.RemoveChar | app/src/carguru_vehicle/vehicle_data_extraction.py:137 | `replace(",", "")` leaves no such character and keeps the count of every other one |
| PyText.RemoveConcat | app/src/carguru_vehicle/vehicle_data_extraction.py:201 | removal works piecewise over concatenation |
| PyText.Lower | app/src/carguru_vehicle/vehicle_data_extraction.py:105 | `lower()` maps each character and leaves no upper-case letter |
| PyText.LowerOfLower | app/src/carguru_vehicle/vehicle_data_extraction.py:126 | lower-casing text that has no upper case changes nothing |
| PyText.NatToStringValue | app/src/carguru_vehicle/vehicle_data_extraction.py:41 | reading a numeral's digits gives back the number |
| PyText.PyInt | app/src/carguru_vehicle/vehicle_data_extraction.py:137 | `int()` succeeds only on text that is not blank once stripped |
| PyText.PyIntOfNatToString | app/src/carguru_vehicle/vehicle_data_extraction.py:137 | `int(str(n)) == n` |
| PyText.IsDigitString | app/src/carguru_vehicle/vehicle_data_extraction.py:40 | `isdigit()` is false on the empty string |
| PyText.PyIntOfDigitString | app/src/carguru_vehicle/vehicle_data_extraction.py:40-41 | a token that passes `isdigit()` always reads through `int` as its digits' value |
| PyText.PyIntOfGroups | app/src/carguru_vehicle/vehicle_data_extraction.py:137 | digit groups, single underscores between digits allowed, read as their value |
| PyText.PyIntOfNegatedGroups | app/src/carguru_vehicle/vehicle_data_extraction.py:137 | a leading minus negates the value of digit groups, so `int("-1_0") == -10` |
| PyText.PyIntOfNegative | app/src/carguru_vehicle/vehicle_data_extraction.py:137 | `int("-" + str(n)) == -n` |
| PyText.UnderscoreJoinsDigits | app/src/carguru_vehicle/vehicle_data_extraction.py:137 | two numerals joined by one underscore are digit groups worth the two numerals written together |
| PyText.PyIntUnderscore | app/src/carguru_vehicle/vehicle_data_extraction.py:137 | `int()` ignores one underscore between two numerals |
| PyText.PyDecimal | app/src/carguru_vehicle/vehicle_data_extraction.py:201 | `float()` succeeds only on text that is not blank once stripped |
| PyText.PyDecimalOfStripped | app/src/carguru_vehicle/vehicle_data_extraction.py:201 | `float` ignores surrounding whitespace: stripping first changes nothing |
| PyText.PyDecimalOfNatToString | app/src/carguru_vehicle/vehicle_data_extraction.py:201 | a plain numeral reads as the same number through `float` |
| PyText.PyDecimalOfNegative | app/src/carguru_vehicle/vehicle_data_extraction.py:201 | `float("-" + str(n)) == -n` |
| Pagination.FirstIndicator | app/src/carguru_vehicle/vehicle_data_extraction.py:37 | `find` returns the first span whose string contains "Page"; no earlier span qualifies |
| Pagination.TotalPages | app/src/carguru_vehicle/vehicle_data_extraction.py:36-42 | 1 when no span mentions "Page"; any other count comes from the indicator's words |
| Pagination.PagesOfIndicator | app/src/carguru_vehicle/vehicle_data_extraction.py:39-42 | a count other than 1 needs at least four tokens and an all-digit last token, and is that token's value |
| Pagination.TotalPagesWithoutIndicator | app/src/carguru_vehicle/vehicle_data_extraction.py:36-42 | with no "Page" span the count is 1 |
| Pagination.TotalPagesOfWords | app/src/carguru_vehicle/vehicle_data_extraction.py:39-42 | with at least four tokens and an all-digit last token, the count is that token's value; otherwise it is 1 |
| Pagination.LoneIndicator | app/src/carguru_vehicle/vehicle_data_extraction.py:37 | a single span starting with "Page" is the indicator |
| Pagination.TotalPagesOfPageOf | app/src/carguru_vehicle/vehicle_data_extraction.py:39-42 | "Page a of b" gives the value of b when b is all digits, else 1 |
| Pagination.TotalPagesOfCount | app/src/carguru_vehicle/vehicle_data_extraction.py:39-41 | "Page m of n" gives n pages |
| Pagination.TotalPagesOfShortIndicator | app/src/carguru_vehicle/vehicle_data_extraction.py:40-42 | an indicator of fewer than four tokens gives 1 |
| Pagination.Selected | app/src/carguru_vehicle/vehicle_data_extraction.py:27-29 | the kept anchors are anchors of the page that pass the filter, never more than the page has |
| Pagination.SelectedLinks | app/src/carguru_vehicle/vehicle_data_extraction.py:26-29 | at most one link per anchor |
| Pagination.SelectedLinksAreResolvedHrefs | app/src/carguru_vehicle/vehicle_data_extraction.py:26-29 | link k is `urljoin(base, href)` of the k-th kept anchor, one per kept anchor, in document order |
| Pagination.SelectedLinksConcat | app/src/carguru_vehicle/vehicle_data_extraction.py:26-29 | the links of concatenated anchor lists are the concatenated links |
| Pagination.SelectedLinksEmpty | app/src/carguru_vehicle/vehicle_data_extraction.py:67 | a page yields no links exactly when no anchor passes the filter |
| Pagination.ThenAssoc | app/src/carguru_vehicle/vehicle_data_extraction.py:52-92 | combining the results of consecutive page ranges is associative |
| Pagination.Visit | app/src/carguru_vehicle/vehicle_data_extraction.py:56-90 | one page is one request and contributes its links only when it was rendered |
| Pagination.WalkOne | app/src/carguru_vehicle/vehicle_data_extraction.py:52-92 | a walk over one page is that page's contribution |
| Pagination.WalkAppend | app/src/carguru_vehicle/vehicle_data_extraction.py:52-92 | a walk over pages that do not stop splits into the walk of a prefix, then of the rest |
| Pagination.WalkExtend | app/src/carguru_vehicle/vehicle_data_extraction.py:77 | a page that does not stop extends the walk by its own contribution |
| Pagination.WalkStopsAt | app/src/carguru_vehicle/vehicle_data_extraction.py:67-75 | the first page without links ends the walk with one "no links" alert; later pages are never requested |
| Pagination.WalkStep | app/src/carguru_vehicle/vehicle_data_extraction.py:56-92 | one more page either stops the walk, completing it, or extends a walk that has not stopped |
| Pagination.StopIndex | app/src/carguru_vehicle/vehicle_data_extraction.py:67-75 | the index of the first empty page: no earlier page is empty |
| Pagination.StopIndexStep | app/src/carguru_vehicle/vehicle_data_extraction.py:67-75 | a non-empty first page moves the stop index on by one |
| Pagination.WalkLinksBeforeFirstEmptyPage | app/src/carguru_vehicle/vehicle_data_extraction.py:52-92 | the links collected are exactly those of the pages before the first empty page |
| Pagination.WalkVisitsUpToFirstEmptyPage | app/src/carguru_vehicle/vehicle_data_extraction.py:52-92 | pages requested: through the first empty page, or all pages when none is empty |
| Pagination.WalkAlertsBeforeFirstEmptyPage | app/src/carguru_vehicle/vehicle_data_extraction.py:80-90 | the alerts are one per failed page before the first empty page, then that empty page's alert |
| Pagination.WalkStopsAtFirstEmptyPage | app/src/carguru_vehicle/vehicle_data_extraction.py:52-92 | the walk collects exactly the links of the pages before the first empty page, in order; requests every page through that empty page and no further; alerts each failed page before it, then the empty page |
| Pagination.Steps | app/src/carguru_vehicle/vehicle_data_extraction.py:52-53 | one outcome per page 1..total |
| Pagination.VisitPage | app/src/carguru_vehicle/vehicle_data_extraction.py:56-90 | the loop body: its links, its alert and whether it breaks are those of the page's specification |
| Pagination.CollectLinks | app/src/carguru_vehicle/vehicle_data_extraction.py:52-92 | the page loop computes the walk, and page i is requested at `url#resultsPage=i` |
| VehicleDataExtraction.ExtractVehicleLinksOnPage | app/src/carguru_vehicle/vehicle_data_extraction.py:25-31 | one resolved URL per `car-blade-link` anchor with an `href`, in order |
| VehicleDataExtraction.IsCarBladeLink | app/src/carguru_vehicle/vehicle_data_extraction.py:27-29 | only anchors whose `data-testid` is `car-blade-link` are selected, and each has an `href` |
| VehicleDataExtraction.GetAllVehicleLinks | app/src/carguru_vehicle/vehicle_data_extraction.py:45-92 | the walk over pages 1..`get_total_pages`, never requesting more pages than the count |
| Details.KeyOf | app/src/carguru_vehicle/vehicle_data_extraction.py:105 | a key has no space and no upper case; an overview key has no colon; a feature key has no padding |
| Details.Normalise | app/src/carguru_vehicle/vehicle_data_extraction.py:125-126 | spaces become `_` and letters are lower-cased, keeping the length |
| Details.NormaliseOfKey | app/src/carguru_vehicle/vehicle_data_extraction.py:105 | text already in key form normalises to itself |
| Details.TwoWordOverviewKey | app/src/carguru_vehicle/vehicle_data_extraction.py:123-126 | a two-word overview label ending in a colon is its two words lower-cased and joined by `_` |
| Details.FeatureKeyIdempotent | app/src/carguru_vehicle/vehicle_data_extraction.py:105 | normalising a feature key again leaves it unchanged |
| Details.EntryOf | app/src/carguru_vehicle/vehicle_data_extraction.py:102-108 | an item stores under its non-empty key the stripped value; the older rule also needs a non-empty value |
| Details.TabulateKeys | app/src/carguru_vehicle/vehicle_data_extraction.py:101-108 | a key is present exactly when some item stores under it |
| Details.TabulateLastValue | app/src/carguru_vehicle/vehicle_data_extraction.py:107-108 | the value under a key is that of the last item stored under it |
| Details.TabulateLastWins | app/src/carguru_vehicle/vehicle_data_extraction.py:101-108 | key presence if and only if stored, and last write wins |
| Details.TabulateAgree | app/src/carguru_vehicle/vehicle_data_extraction.py:118-131 | rules that agree on every item build the same dictionary |
| Details.TabulateKeysSubset | app/src/scraper.py:163-164 | a rule that stores less yields a subset of the keys |
| Details.TabulateValues | app/src/scraper.py:185-186 | every stored value satisfies what every entry's value satisfies |
| Details.Tabulate | app/src/carguru_vehicle/vehicle_data_extraction.py:101-108 | the dictionary has no more keys than there are items |
| Details.TableLastWins | app/src/carguru_vehicle/vehicle_data_extraction.py:118-131 | a details key is present exactly when some item stores under it, holding the last such item's value |
| Details.LookupLastItem | app/src/carguru_vehicle/vehicle_data_extraction.py:118-131 | `dict.get(k)` on a details table reads the stripped value of the last item stored under `k` |
| Details.LookupAbsent | app/src/carguru_vehicle/vehicle_data_extraction.py:118-131 | `dict.get(k)` is `None` when no item is stored under `k` |
| Details.LegacyValuesPresent | app/src/scraper.py:163-164 | the older rule never stores a missing or empty value |
| Details.LegacyKeysAreCurrentKeys | app/src/scraper.py:156-186 | every key the older rule stores, the current rule stores too |
| Details.RulesAgreeOnCompleteItems | app/src/scraper.py:156-186 | when every keyed item has a non-empty value, both rules build the same dictionary |
| Details.BuildTable | app/src/carguru_vehicle/vehicle_data_extraction.py:101-108 | the dictionary loop computes the table |
| VehicleDataExtraction.MileageOf | app/src/carguru_vehicle/vehicle_data_extraction.py:137-138 | no `mileage` key gives no mileage; a missing or non-numeral value raises; otherwise it is `int()` of the text without commas |
| VehicleDataExtraction.AssembleFields | app/src/carguru_vehicle/vehicle_data_extraction.py:134-156 | each of the nine overview keys fills its own field from the overview dictionary, `body_type` the body style; each of the four drivetrain keys fills its field from the features dictionary |
| VehicleDataExtraction.Assemble | app/src/carguru_vehicle/vehicle_data_extraction.py:134-156 | overview keys give the identity, colour, make, model, year, trim and body style; feature keys give the drivetrain fields; the description is empty |
| VehicleDataExtraction.OverviewFieldFromLastItem | app/src/carguru_vehicle/vehicle_data_extraction.py:110-156 | when extraction succeeds, each overview field holds the stripped value of the last stats item stored under its key |
| VehicleDataExtraction.OverviewFieldAbsent | app/src/carguru_vehicle/vehicle_data_extraction.py:110-156 | when extraction succeeds, an overview field is `None` if no stats item is stored under its key |
| VehicleDataExtraction.FeatureFieldFromLastItem | app/src/carguru_vehicle/vehicle_data_extraction.py:98-149 | when extraction succeeds, each drivetrain field holds the stripped value of the last feature item stored under its key |
| VehicleDataExtraction.FeatureFieldAbsent | app/src/carguru_vehicle/vehicle_data_extraction.py:98-149 | when extraction succeeds, a drivetrain field is `None` if no feature item is stored under its key |
| VehicleDataExtraction.BodyTypeLabelKey | app/src/carguru_vehicle/vehicle_data_extraction.py:123-126 | the stats label "Body Type:" is the key `body_type` |
| VehicleDataExtraction.BodyTypeItemReachesBodyStyle | app/src/carguru_vehicle/vehicle_data_extraction.py:118-148 | a lone stats item keyed `body_type`, with no feature items, gives a vehicle whose body style is the item's stripped text |
| VehicleDataExtraction.BodyTypeReachesBodyStyle | app/src/carguru_vehicle/vehicle_data_extraction.py:118-148 | the stats label "Body Type:" fills the body style |
| VehicleDataExtraction.CurrentDetails | app/src/carguru_vehicle/vehicle_data_extraction.py:95-166 | the result is `None` exactly when the mileage step raises; otherwise it is the assembled details |
| VehicleDataExtraction.DetailsAlerts | app/src/carguru_vehicle/vehicle_data_extraction.py:158-166 | the `except` sends one alert naming the URL, exactly when the extraction fails |
| VehicleDataExtraction.ExtractVehicleData | app/src/carguru_vehicle/vehicle_data_extraction.py:97-166 | the two dictionary loops and the record compute `CurrentDetails`, and the alerts sent are `DetailsAlerts` |
| VehicleDataExtraction.MileageAbsent | app/src/carguru_vehicle/vehicle_data_extraction.py:137-138 | with no "mileage" item, extraction succeeds with no mileage |
| VehicleDataExtraction.MileageFromLastItem | app/src/carguru_vehicle/vehicle_data_extraction.py:107-108 | the last "mileage" item decides: extraction succeeds if and only if its value is an integer once commas are gone, and that integer is the mileage |
| VehicleDataExtraction.MileageIgnoresComma | app/src/carguru_vehicle/vehicle_data_extraction.py:137 | a thousands comma is ignored |
| VehicleDataExtraction.MileageOfNumeral | app/src/carguru_vehicle/vehicle_data_extraction.py:137 | a plain numeral is its own mileage |
| VehicleDataExtraction.CurrentPrice | app/src/carguru_vehicle/vehicle_data_extraction.py:196-201 | no price element or blank text gives no price; otherwise `float` of the cleaned text, and a non-number raises |
| VehicleDataExtraction.NumeralChars | app/src/carguru_vehicle/vehicle_data_extraction.py:201 | a numeral holds none of the characters cleaning removes |
| VehicleDataExtraction.CleanDollarText | app/src/carguru_vehicle/vehicle_data_extraction.py:201 | cleaning "$digits" leaves the digits |
| VehicleDataExtraction.DollarPrice | app/src/carguru_vehicle/vehicle_data_extraction.py:199-201 | "$n" reads as the price n |
| VehicleDataExtraction.DollarSignOnlyPrice | app/src/carguru_vehicle/vehicle_data_extraction.py:200-201 | "$" alone makes `float("")` raise and drops the vehicle |
| VehicleDataExtraction.CurrentRecord | app/src/carguru_vehicle/vehicle_data_extraction.py:168-238 | a record exists if and only if the page rendered, the details and price succeeded and the URL validates; it holds the URL, "available", the source id, the price and the details |
| VehicleDataExtraction.RecordAlerts | app/src/carguru_vehicle/vehicle_data_extraction.py:168-237 | no alert exactly when a record comes out; otherwise at most two, the last naming the URL and the dealership; the extraction's alert is among them exactly when the page rendered and its details failed |
| VehicleDataExtraction.FailedDetailsAlertTwice | app/src/carguru_vehicle/vehicle_data_extraction.py:190-237 | a rendered page whose details fail is reported twice, by the extraction and by `process_vehicle_data` |
| VehicleDataExtraction.ProcessVehicleData | app/src/carguru_vehicle/vehicle_data_extraction.py:168-238 | the steps compute `CurrentRecord` and send `RecordAlerts` |
| VehicleScraper.FirstReturn | app/src/carguru_vehicle/vehicle_scraper.py:28-36 | the first call that returns, with every earlier call raising; or none when all calls raise |
| VehicleScraper.SafeVehicleProcess | app/src/carguru_vehicle/vehicle_scraper.py:28-36 | the result of the first returning call (`None` included) after that many calls and pauses; after three raising calls, `None` with three pauses |
| VehicleScraper.FilterNew | app/src/carguru_vehicle/vehicle_scraper.py:122-126 | the filter keeps at most the input, and fails only with a missing `listing_url` |
| VehicleScraper.KeepUnlisted | app/src/carguru_vehicle/vehicle_scraper.py:122-126 | it keeps exactly the input records whose URL no existing record has |
| VehicleScraper.FilterNewKeepsUnlisted | app/src/carguru_vehicle/vehicle_scraper.py:122-126 | when every URL is present, the filter cannot fail and keeps exactly the unlisted records, in order |
| VehicleScraper.FilterNewWithoutExisting | app/src/carguru_vehicle/vehicle_scraper.py:122-126 | with nothing existing, everything is kept |
| VehicleScraper.BatchCount | app/src/carguru_vehicle/vehicle_scraper.py:128-130 | `ceil(total/chunk)`: a zero chunk divides by zero; a negative chunk gives a non-positive count, so no rounds; a positive chunk gives the least count covering all records |
| VehicleScraper.PySlice | app/src/carguru_vehicle/vehicle_scraper.py:139 | Python slicing with clamped bounds |
| VehicleScraper.Chunks | app/src/carguru_vehicle/vehicle_scraper.py:136-139 | one slice per batch number |
| VehicleScraper.Covered | app/src/carguru_vehicle/vehicle_scraper.py:137-138 | the records covered by the first b batches never exceed the total |
| VehicleScraper.ChunkBetween | app/src/carguru_vehicle/vehicle_scraper.py:137-139 | batch b is the stretch between the coverage of b and of b+1 batches |
| VehicleScraper.FlattenChunksPrefix | app/src/carguru_vehicle/vehicle_scraper.py:136-139 | the first b batches, joined, are the first covered records |
| VehicleScraper.BatchStart | app/src/carguru_vehicle/vehicle_scraper.py:137 | every batch below the count starts inside the records, at b times the chunk |
| VehicleScraper.BatchesCoverAll | app/src/carguru_vehicle/vehicle_scraper.py:130-139 | the counted batches cover every record |
| VehicleScraper.BatchSize | app/src/carguru_vehicle/vehicle_scraper.py:137-139 | every batch but the last is full; the last holds between one and chunk records |
| VehicleScraper.BatchesPartition | app/src/carguru_vehicle/vehicle_scraper.py:128-139 | the batches partition the filtered records in order: joined, they are the records; sizes as above |
| VehicleScraper.FiveInChunksOfTwo | app/src/carguru_vehicle/vehicle_scraper.py:128-139 | five records in chunks of two make three batches of sizes 2, 2 and 1 |
| VehicleScraper.BatchStep | app/src/carguru_vehicle/vehicle_scraper.py:136-146 | handing over batch b extends the batches and the reports by batch b's |
| VehicleScraper.SendBatches | app/src/carguru_vehicle/vehicle_scraper.py:136-148 | the loop hands over exactly the batches, producing one report per filtered record in order, and their alerts |
| VehicleScraper.ProcessVehicleDataPost | app/src/carguru_vehicle/vehicle_scraper.py:116-150 | fails exactly when the filter raises (a missing listing URL) or the chunk is zero (division by zero), with that error; otherwise the batches, reports and alerts above |
| VehicleDataProcessing.IsDuplicate | app/src/carguru_vehicle/vehicle_data_processing.py:16-23 | nothing existing gives false; true only for a URL present on both sides; raises only when a URL is missing |
| VehicleDataProcessing.IsDuplicateIffListed | app/src/carguru_vehicle/vehicle_data_processing.py:17-20 | when every URL is present, the test is true if and only if some existing record has the entry's URL |
| VehicleDataProcessing.FirstSuccess | app/src/carguru_vehicle/vehicle_data_processing.py:36-38 | the first successful attempt, with all earlier attempts failing; or none |
| VehicleDataProcessing.RetryReport | app/src/carguru_vehicle/vehicle_data_processing.py:27-52 | at most K posts, stopping at the first success; sleeps only between attempts; delivered if and only if some attempt succeeds; exhaustion sends one alert naming the URL; a record without URL raises |
| VehicleDataProcessing.PostVehicleWithRetry | app/src/carguru_vehicle/vehicle_data_processing.py:27-52 | the retry loop computes `RetryReport` |
| VehicleDataProcessing.ThirdPostDelivers | app/src/carguru_vehicle/vehicle_data_processing.py:36-52 | fail, fail, succeed: three attempts deliver on the third post after two pauses; two attempts give up with one alert |
| VehicleDataProcessing.AlertsOfAppend | app/src/carguru_vehicle/vehicle_data_processing.py:67-75 | the alerts of consecutive tasks concatenate |
| VehicleDataProcessing.Reports | app/src/carguru_vehicle/vehicle_data_processing.py:61-64 | one report per record |
| VehicleDataProcessing.ReportsAppend | app/src/carguru_vehicle/vehicle_data_processing.py:61-64 | the reports of consecutive slices join into those of the whole |
| VehicleDataProcessing.ReportsSnoc | app/src/carguru_vehicle/vehicle_data_processing.py:61-64 | one more record adds its own report |
| VehicleDataProcessing.AlertsOfSnoc | app/src/carguru_vehicle/vehicle_data_processing.py:67-75 | one more task adds its alerts, and an error alert when it raised |
| VehicleDataProcessing.TaskAlerts | app/src/carguru_vehicle/vehicle_data_processing.py:66-74 | a task's delivery alerts, in order, followed by one error alert exactly when the task raised |
| VehicleDataProcessing.ProcessBatch | app/src/carguru_vehicle/vehicle_data_processing.py:55-75 | one retried delivery per record, in order; a raising task is reported and the others still run |
| LegacyScraper.ExtractVehicleLinks | app/src/scraper.py:67-74 | one resolved URL per `car-blade-link` anchor with a non-empty `href` |
| LegacyScraper.LegacyKeep | app/src/scraper.py:69-70 | the older filter keeps a `car-blade-link` anchor unless its `href` is empty |
| LegacyScraper.LegacyJoin | app/src/scraper.py:73 | `urljoin` with a `None` base returns the href; with a URL it is the join |
| LegacyScraper.LinksWithoutDealershipUrl | app/src/scraper.py:66-74 | for a dealership without a URL, the older links are the selected hrefs themselves, in order |
| LegacyScraper.LinksAgree | app/src/scraper.py:69-73 | filters that agree on every anchor extract the same links |
| LegacyScraper.LegacyLinksAgreeWithoutEmptyHrefs | app/src/scraper.py:70 | the two versions extract the same links unless a `car-blade-link` anchor has an empty `href` |
| LegacyScraper.GetAllVehicleLinks | app/src/scraper.py:66-133 | the same page walk, with the older link extraction, resolving through `LegacyJoin` so that a dealership without a URL keeps the hrefs as they are |
| LegacyScraper.LegacyMileageOf | app/src/scraper.py:193-194 | a missing, `None` or empty mileage gives no mileage; a non-numeral raises |
| LegacyScraper.LegacyDetails | app/src/scraper.py:147-221 | `None` exactly when the mileage step raises; otherwise the same field mapping over the older tables |
| LegacyScraper.LegacyDetailsAlerts | app/src/scraper.py:214-220 | the `except` sends one alert naming the URL, exactly when the older extraction fails |
| LegacyScraper.LegacyExtractVehicleData | app/src/scraper.py:147-221 | the loops compute `LegacyDetails`, and the alerts sent are `LegacyDetailsAlerts` |
| LegacyScraper.MileageWithoutValue | app/src/scraper.py:159-164 | a "mileage" label without a value makes the current extractor fail; the older one records no mileage |
| LegacyScraper.DetailsAgreeOnCompletePages | app/src/scraper.py:156-186 | on pages where every keyed item has a non-empty value, both versions extract the same details |
| LegacyScraper.LegacyPrice | app/src/scraper.py:245-255 | no price element, or nothing left after cleaning, gives no price; otherwise `float` of the cleaned text |
| LegacyScraper.PriceVersionsAgree | app/src/scraper.py:248-255 | when something survives cleaning, both versions read the same price |
| LegacyScraper.DollarSignOnlyPriceVersions | app/src/scraper.py:248-255 | "$" alone: the older version records no price; the current one drops the vehicle |
| LegacyScraper.LegacyRecord | app/src/scraper.py:223-283 | a record exists if and only if the page rendered and the details and price succeeded; no URL validation |
| LegacyScraper.LegacyRecordAlerts | app/src/scraper.py:223-283 | no alert exactly when a record comes out; otherwise at most two, the last naming the URL and the dealership; the extraction's alert is among them exactly when the page rendered and its details failed |
| LegacyScraper.LegacyBadPriceAlertsOnce | app/src/scraper.py:248-283 | a price `float` cannot read drops the vehicle with one alert, from `process_vehicle_data` |
| LegacyScraper.LegacyProcessVehicleData | app/src/scraper.py:223-296 | fails with `UnboundDriver` exactly when `init_driver` raised (the `finally` then calls `quit` on an unbound `driver`), sending the record-failed alert; otherwise the steps compute `LegacyRecord` and send `LegacyRecordAlerts` |
| LegacyScraper.LegacyIsDuplicate | app/src/scraper.py:298-319 | true if and only if some existing record's `.get("listing_url")` equals the entry's, with one alert then |
| LegacyScraper.MissingUrlsAreDuplicates | app/src/scraper.py:300-301 | two records without URL are duplicates for the older test, while the current test raises |
| LegacyScraper.DuplicateVersionsAgree | app/src/scraper.py:300-304 | where every URL is present, the two duplicate tests agree |
| LegacyScraper.KeepUnlistedSnoc | app/src/scraper.py:322-325 | filtering a longer list keeps the old result, then the new record if unlisted |
| LegacyScraper.DuplicateAlerts | app/src/scraper.py:298-325 | at most one alert per record, each naming a listed URL, and none when no record is listed |
| LegacyScraper.DuplicateAlertsSnoc | app/src/scraper.py:322-325 | one more record adds a duplicate alert exactly when its URL is listed |
| LegacyScraper.FilterStep | app/src/scraper.py:322-325 | one more record of the comprehension: kept if unlisted, reported if listed |
| LegacyScraper.LegacyFilter | app/src/scraper.py:322-325 | the comprehension keeps exactly the unlisted records, in order, with one alert per duplicate |
| LegacyScraper.LegacyBatchCount | app/src/scraper.py:330 | a zero size divides by zero; zero records make `ceil(None)` raise; otherwise `ceil` |
| LegacyScraper.LegacyDeliverAsWritten | app/src/scraper.py:342-347 | as written, any positive attempt limit raises on the first post call |
| LegacyScraper.LegacyRetryReport | app/src/scraper.py:340-347 | as intended: a retried delivery that sleeps after every failure, the last one included |
| LegacyScraper.LegacyDeliver | app/src/scraper.py:339-348 | the loop computes `LegacyRetryReport` |
| LegacyScraper.LegacyPostMethodMissing | app/src/scraper.py:343 | with two attempts as configured, the as-written loop raises where the intended one delivers |
| LegacyScraper.LegacySleepsAfterLastFailure | app/src/scraper.py:345-347 | the older loop sleeps K times on K failures; the current one K-1 times |
| LegacyScraper.LegacyReports | app/src/scraper.py:339-350 | one report per record |
| LegacyScraper.LegacySendBatch | app/src/scraper.py:339-350 | the inner loop of one batch computes its reports |
| LegacyScraper.LegacyBatchStep | app/src/scraper.py:332-350 | handing over batch b extends the batches and the reports by batch b's |
| LegacyScraper.LegacySendBatches | app/src/scraper.py:332-350 | batch b runs from b·size to min(b·size+size, total), covering the records in order |
| LegacyScraper.ProcessAndSendBatches | app/src/scraper.py:321-350 | the duplicate alerts, the error cases of the batch count, and otherwise the batches and reports |
| DealershipScraper.GetExistingDealershipIds | app/src/carguru_dealership/dealership_scraper.py:61-77 | x is present if and only if x is non-empty and some dealership has id x |
| DealershipScraper.Posted | app/src/carguru_dealership/dealership_scraper.py:103-113 | every post is a one-element list holding an input dealership whose id is not known |
| DealershipScraper.PostedAppend | app/src/carguru_dealership/dealership_scraper.py:104-111 | the posts of concatenated lists concatenate |
| DealershipScraper.PostedIffUnknown | app/src/carguru_dealership/dealership_scraper.py:105-106 | [d] is posted if and only if d is in the input and its id is not known |
| DealershipScraper.RepeatedNewDealershipPostedEachTime | app/src/carguru_dealership/dealership_scraper.py:103-113 | the known ids never change in the loop, so a new dealership listed n times is posted n times |
| DealershipScraper.PostNewDealerships | app/src/carguru_dealership/dealership_scraper.py:80-113 | one result per dealership: `False` for a known id, the post outcome otherwise; the posts are exactly `Posted` |
| DealershipScraper.FetchDealershipData | app/src/carguru_dealership/dealership_scraper.py:136-157 | raises if and only if some record lacks an inventory source; otherwise field-by-field projection, one per record |
| DealershipScraper.FetchAppend | app/src/carguru_dealership/dealership_scraper.py:147-155 | the projection works record by record |
| DealershipScraper.Address | app/src/carguru_dealership/dealership_scraper.py:186-188 | present exactly when the info block is; no padding at either end |
| DealershipScraper.AddressOfWords | app/src/carguru_dealership/dealership_scraper.py:186-188 | single-word text children give them joined by single spaces |
| DealershipScraper.ExtractDealershipData | app/src/carguru_dealership/dealership_scraper.py:180-209 | `None` exactly when a present link or logo fails URL validation; each field is `None` exactly when its selector matches nothing, and is copied otherwise, except the address, which is the page's direct strings joined by single spaces and stripped |
| DealershipScraper.DealerDetailsAlerts | app/src/carguru_dealership/dealership_scraper.py:199-208 | the `except` sends one alert naming the dealership and its URL, exactly when the extraction fails |
| DealershipScraper.BadLogoAlerts | app/src/carguru_dealership/dealership_scraper.py:181-208 | a logo `src` that is not an HTTP URL fails the extraction and is reported |
| Config.FirstSteady | app/config/config.py:36-42 | the first round whose height equals the previous one, or the last round; every earlier round grew |
| Config.ScrollRounds | app/config/config.py:36-42 | no rounds for a non-positive limit; otherwise 1..limit rounds, stopping at the first unchanged height |
| Config.FirstSteadyUnique | app/config/config.py:40-41 | the round count is the only one that stops at the first steady reading |
| Config.SteadyPageScrolledOnce | app/config/config.py:40-41 | a page that does not grow is scrolled once |
| Config.GrowingPageUsesEveryAttempt | app/config/config.py:36-42 | a page that grows every round uses every attempt |
| Config.ScrollIncrementally | app/config/config.py:32-42 | the loop runs `ScrollRounds` rounds, pausing once per round for a total of `scrolls × pauseTime` seconds (a real), and keeps the last height read; a negative pause with at least one attempt raises right after the first scroll, before any pause |
| Config.ScrollLoop | app/config/config.py:35-42 | the scroll rounds, with the pause check raising right after the first scroll; otherwise one pause per round and the last height read |
| WebDriverPool.Fresh | app/config/web_driver.py:32-35 | the first n drivers created are n distinct drivers |
| WebDriverPool.RotateDistinct | app/config/web_driver.py:37-43 | taking a driver and putting it back keeps the pool free of repeats |
| WebDriverPool.WebDriver.constructor | app/config/web_driver.py:12-15 | the pool starts with `max_drivers` fresh drivers (none when non-positive), none quit, within its bound |
| WebDriverPool.WebDriver.InitDriverPool | app/config/web_driver.py:32-35 | filling the empty queue puts the fresh drivers in creation order |
| WebDriverPool.WebDriver.Take | app/config/web_driver.py:39 | `get` removes the front driver |
| WebDriverPool.WebDriver.Put | app/config/web_driver.py:43 | `put` appends at the back |
| WebDriverPool.WebDriver.GetDriver | app/config/web_driver.py:37-43 | the front driver is used and put back at the back whether or not the body raises; the drivers, their bound and their distinctness are preserved |
| WebDriverPool.WebDriver.ShutdownPool | app/config/web_driver.py:45-48 | every queued driver is quit, front first, and the queue ends empty |
| WebDriverPool.WebDriver.ScrollIncrementally | app/config/web_driver.py:50-59 | the same loop, with one round of one second by default, and the same `ValueError` on a negative pause |
| WebDriverPool.ShutdownQuitsEachOnce | app/config/web_driver.py:45-48 | shutting down a valid pool quits each pooled driver exactly once |

## Left out

- Rendering, Selenium waits, BeautifulSoup selection and `driver.get` are
  not modelled. A page is an abstract value, and loading a URL is the
  `render` oracle.
- `get_text(strip=True)` is modelled as already-stripped element text.
- `@cached` memoisation is not modelled. It decorates
  `fetch_dealership_data`, `extract_dealership_data`,
  `get_existing_dealership_ids`, `extract_vehicle_links_on_page`,
  `get_total_pages` and `extract_vehicle_data` (time to live 7200 seconds).
  A hit within the time to live returns the stored value without running
  the body, so it also skips the body's alerts: a second
  `extract_vehicle_data` with the same arguments returns the cached `None`
  without the `except` alert. The model runs the body on every call, so
  VehicleDataExtraction.DetailsAlerts and
  DealershipScraper.DealerDetailsAlerts give the alert every time.
- Logging and Slack delivery are modelled only as the list of alert events;
  message wording is not modelled. The current modules send an alert only
  when a Slack notifier is configured; the alert lists are what is sent
  when one is.
- LegacyScraper.GetAllVehicleLinks, LegacyDetailsAlerts, LegacyRecordAlerts,
  LegacyIsDuplicate, DuplicateAlerts, LegacyFilter and ProcessAndSendBatches:
  in the older module the alert lists assume a notifier. `VehicleScraper`
  defaults `slack_obj=None` (`app/src/scraper.py:17-19`) and calls
  `send_message` with no guard. Without a notifier, the first alert raises
  `AttributeError` instead, which ends the function sending it:
  - in `get_all_vehicle_links` the inner handler's send raises into the
    outer handler, whose own send then raises out of the function;
  - `is_duplicate_vehicle_data` raises on the first duplicate, which ends
    `process_and_send_batches`.
- The fixed and random pauses (`time.sleep(2)`, `random.uniform`,
  `randint`) are modelled only as a count of pauses; their durations are
  not modelled. The scroll loops' `time.sleep(pause_time)` is the one
  exception. Its total is the `slept` out-parameter, a `real`, so a
  fractional `pause_time` is covered. The sleeping itself is not modelled.
- Thread pools are modelled sequentially: `ThreadPoolExecutor` and
  `as_completed` in `process_batch`, and the two pools of `handle_scraping`,
  whose inner pool runs `safe_vehicle_process`
  (`app/src/carguru_vehicle/vehicle_scraper.py:67-83`). Completion order
  and interleaving are not modelled.
- `handle_scraping` (`vehicle_scraper.py:40-114`) is not modelled. It only
  combines the modelled pieces under two thread pools and a retry on
  exceptions the page oracle already covers.
- `main.py`, the CSV export, `Settings.init_driver` and
  `WebDriver._create_driver` are left out: they set up the process and the
  browser processes. As a result, one consequence of `_create_driver` is
  not modelled. It reads `settings.IMPLICITLY_TIMEOUT`
  (`app/config/web_driver.py:29`), which `config.py` does not declare. So
  any `WebDriver(max_drivers)` with `max_drivers > 0` raises
  `AttributeError` once its first browser has launched. The module-level
  `webdriver_pool = WebDriver()` (`app/config/web_driver.py:62`), whose
  default is `MAX_THREAD = 10`, therefore fails when the module is
  imported. WebDriverPool.WebDriver.constructor models the pool as it would
  be if driver creation succeeded.
- `urljoin` is opaque: the `join` parameter, a total function. Its
  `ValueError` (an href such as `http://[x/` is an invalid IPv6 URL) is not
  modelled. In `get_all_vehicle_links` it would make that page fail with the
  per-page alert and the walk would go on; in the model every href resolves.
- pydantic `HttpUrl` validation is the `isHttpUrl` oracle. URL
  normalisation, such as an added trailing slash in `str(url)`, is not
  modelled.
- `model_dump(exclude_none=True)` is modelled as `None` fields, so an
  absent key and a JSON `null` are not told apart.
- The HTTP API calls are not modelled: `get_vehicle`, `get_dealership`,
  `post_vehicle` and `post_dealership`. Outcomes are oracles, and a request
  error on `get` is its empty list. The calls' own Slack alerts are left out
  with them (`app/api/vehicle_data.py:34-47` and `:66-79`,
  `app/api/dealerhip_data.py:34-46` and `:65-77`, each sent when a notifier
  is set). So K failed post attempts send K alerts from the API and one
  from the retry loop, K+1 messages, where the retry report lists one
  `DeliveryFailed`.
- `post` catches only `RequestException`. Other exceptions are not
  modelled.
- `load_dealerships_from_file` is not modelled: it is commented out of
  `fetch_dealership_data`, and it is file I/O.
- The older `extract_dealership_data` (`app/src/scraper.py:22-64`) is left
  out, and so is its module's `__init__`. It differs from the current one
  in four ways:
  - its chained `find` calls raise when an outer element is missing;
  - it returns a plain dict, so `link` and `logo` are not validated as
    `HttpUrl`, where the current version gives `None` for an invalid URL;
  - its address is `None` when `div.dealerDetailsInfo` has no direct
    strings, where the current version gives `""`;
  - its handler calls `self.slack_notifier.slack_obj.send_message`.
    `SlackClient` has no `slack_obj` attribute, so the handler itself raises
    `AttributeError` instead of returning `None`.
- LegacyScraper.LegacyRecord is the result only when a driver started.
  When `init_driver` raises, `driver` is unbound, and the `finally` clause's
  `driver.quit()` (`app/src/scraper.py:296`) raises `UnboundLocalError`
  out of `process_vehicle_data`, so no value is returned.
  LegacyScraper.LegacyProcessVehicleData models this through its
  `driverStarted` parameter as `Err(UnboundDriver)`. After a started
  driver, the second `quit()` in `finally` is taken to have no effect.
- LegacyScraper.LegacyRecordAlerts: the success alert that the `finally`
  clause sends after every attempt is not modelled.
- PyText.PyInt is ASCII only and has no limit on the number of digits.
  CPython's int string-conversion limit is not modelled.
- PyText.PyDecimal covers signed decimal literals only: no exponent, `inf`
  or `nan`. The value is an exact `real`, so floating-point
  rounding is not modelled.
- PyText.Strip, Split, Lower, IsDigit and IsDigitString handle ASCII only.
  Unicode whitespace, case mapping and Unicode digits are not covered.
  Python's `str.isdigit` and `int` accept digits such as `٣`, so a page
  counter "Page 1 of ٣" gives 3 pages there and 1 in the model.
- WebDriverPool.WebDriver.GetDriver: `Queue.get` on an empty pool blocks
  until another thread returns a driver. With one thread, the model does
  nothing and reports no driver used.
- WebDriverPool.WebDriver.constructor: the module-level shared instance
  `webdriver_pool = WebDriver()` is not modelled; callers pass the pool they
  use. Driver creation is left out.
- Config: the settings read from the environment are not modelled (API
  URLs, Slack tokens, `HEADLESS_MODE`, `PAGE_LOAD_TIMEOUT`). The three
  behavioural defaults are constants.
- pydantic v1 and v2 behave differently, for example `BaseSettings` moved
  packages. That difference is not modelled.

## Findings

| source | as written | input that shows it | evidently intended | confidence | as-written member | corrected member |
|---|---|---|---|---|---|---|
| app/src/scraper.py:343 | the retry loop calls `VehicleData.post_vehicle_data`, where `VehicleData` is the record schema that `app/api/vehicle_data.py:6` re-exports; it has no such attribute, so the first attempt raises `AttributeError` and nothing is posted | any non-empty filtered list with `MAX_RETRY_ATTEMPTS = 2` | post through `VehicleDataAPI.post_vehicle`, retrying until success or the limit | not executed | LegacyScraper.LegacyDeliverAsWritten (with LegacyScraper.LegacyPostMethodMissing) | LegacyScraper.LegacyRetryReport (used by LegacyScraper.ProcessAndSendBatches) |
