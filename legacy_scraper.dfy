/** The older scraper, app/src/scraper.py: its link extraction, detail
    extraction, price cleaning, duplicate test and batch dispatch, on the
    same page model as the current extractor. */
module LegacyScraper {
  import opened Wrappers
  import opened PyText
  import opened Pages
  import opened Schemas
  import opened Details
  import opened Pagination
  import opened VehicleDataProcessing
  import opened VehicleScraper
  import opened VehicleDataExtraction

  // ---------------------------------------------------------------------
  // Links

  /** The anchors `extract_vehicle_links` keeps: `car-blade-link` anchors
      whose `href` is present and non-empty. */
  predicate LegacyKeep(a: Anchor)
    ensures LegacyKeep(a) ==> IsCarBladeLink(a)
    ensures IsCarBladeLink(a) && !LegacyKeep(a) ==> a.href == Some("")
  {
    a.dataTestId == Some("car-blade-link") && a.href.Some? && a.href.value != ""
  }

  /** The `urljoin` the older scraper calls: it passes `dealership.url`
      itself as the base, and `urljoin` returns the href unchanged when the
      base is `None`; otherwise it is `join`. */
  function LegacyJoin(base: Option<string>, join: (string, string) -> string): (j: (string, string) -> string)
    ensures base.None? ==> forall b, h :: j(b, h) == h
    ensures base.Some? ==> forall b, h :: j(b, h) == join(b, h)
  {
    if base.None? then (b: string, h: string) => h else join
  }

  /** `extract_vehicle_links`: the loop appending one resolved URL per kept anchor. */
  method ExtractVehicleLinks(doc: ListingPage, base: string, join: (string, string) -> string) returns (links: seq<string>)
    ensures links == SelectedLinks(doc.anchors, base, join, LegacyKeep)
  {
    var anchors := doc.anchors;
    links := [];
    var i := 0;
    while i < |anchors|
      invariant 0 <= i <= |anchors|
      invariant links == SelectedLinks(anchors[..i], base, join, LegacyKeep)
    {
      var a := anchors[i];
      SelectedLinksConcat(anchors[..i], [a], base, join, LegacyKeep);
      assert anchors[..i + 1] == anchors[..i] + [a];
      assert [a][1..] == [];
      if a.dataTestId == Some("car-blade-link") && a.href.Some? && a.href.value != "" {
        links := links + [join(base, a.href.value)];
      }
      i := i + 1;
    }
    assert anchors[..i] == anchors;
  }

  /** Two selections that agree on every anchor of the page give the same links. */
  lemma {:induction false} LinksAgree(anchors: seq<Anchor>, base: string, join: (string, string) -> string, k1: Anchor -> bool, k2: Anchor -> bool)
    requires forall i | 0 <= i < |anchors| :: k1(anchors[i]) == k2(anchors[i])
    ensures SelectedLinks(anchors, base, join, k1) == SelectedLinks(anchors, base, join, k2)
  {
    if anchors != [] {
      assert forall i | 1 <= i < |anchors| :: anchors[1..][i - 1] == anchors[i];
      LinksAgree(anchors[1..], base, join, k1, k2);
    }
  }

  /** The two versions differ only on `car-blade-link` anchors with an empty
      `href`: on a page without those they extract the same links. */
  lemma LegacyLinksAgreeWithoutEmptyHrefs(doc: ListingPage, base: string, join: (string, string) -> string)
    requires forall i | 0 <= i < |doc.anchors| :: IsCarBladeLink(doc.anchors[i]) ==> doc.anchors[i].href.value != ""
    ensures SelectedLinks(doc.anchors, base, join, LegacyKeep) == ExtractVehicleLinksOnPage(doc, base, join)
  {
    LinksAgree(doc.anchors, base, join, LegacyKeep, IsCarBladeLink);
  }

  /** `get_all_vehicle_links` of the older scraper: the same walk, with the
      older link extraction. The page URLs are formatted from
      `dealership.url`, "None" included, while the links are joined by
      `LegacyJoin`. */
  method GetAllVehicleLinks(doc: ListingPage, dealership: DealershipData, render: string -> Fetch<ListingPage>, join: (string, string) -> string)
    returns (links: seq<string>, alerts: seq<Alert>, visited: seq<string>)
    ensures Walked(links, alerts, |visited|) == Walk(Steps(TotalPages(doc), UrlText(dealership.url), render, LegacyJoin(dealership.url, join), LegacyKeep), 1)
    ensures forall i | 0 <= i < |visited| :: visited[i] == PageUrl(UrlText(dealership.url), i + 1)
  {
    links, alerts, visited := CollectLinks(TotalPages(doc), UrlText(dealership.url), render, LegacyJoin(dealership.url, join), LegacyKeep);
  }

  /** A dealership without a URL: the older scraper's links are the hrefs
      themselves, in document order. */
  lemma LinksWithoutDealershipUrl(anchors: seq<Anchor>, base: string, join: (string, string) -> string)
    ensures |SelectedLinks(anchors, base, LegacyJoin(None, join), LegacyKeep)| == |Selected(anchors, LegacyKeep)|
    ensures forall k | 0 <= k < |Selected(anchors, LegacyKeep)| ::
              SelectedLinks(anchors, base, LegacyJoin(None, join), LegacyKeep)[k] == Selected(anchors, LegacyKeep)[k].href.value
  {
    SelectedLinksAreResolvedHrefs(anchors, base, LegacyJoin(None, join), LegacyKeep);
  }

  // ---------------------------------------------------------------------
  // Vehicle details

  /** The older mileage rule: converted only when `.get("mileage")` is
      truthy, otherwise `None`; a non-numeral raises (outer `None`). */
  function LegacyMileageOf(f: map<string, Option<string>>): (r: Option<Option<int>>)
    ensures r == Some(None) <==> "mileage" !in f || f["mileage"].None? || f["mileage"].value == ""
    ensures r.None? <==> && "mileage" in f && f["mileage"].Some? && f["mileage"].value != ""
                         && PyInt(RemoveChar(f["mileage"].value, ',')).None?
    ensures r.Some? && r.value.Some? ==> r.value == PyInt(RemoveChar(f["mileage"].value, ','))
  {
    if "mileage" !in f || f["mileage"].None? || f["mileage"].value == "" then Some(None)
    else
      match PyInt(RemoveChar(f["mileage"].value, ','))
      case None => None
      case Some(n) => Some(Some(n))
  }

  /** What the older `extract_vehicle_data` returns: both tables under the
      key-and-value rule, the same field mapping as the current version. */
  function LegacyDetails(page: DetailPage, dealershipId: Option<string>): (r: Option<VehicleDetails>)
    ensures r.None? <==> LegacyMileageOf(Table(Features, KeyAndValue, page.featureItems)).None?
    ensures r.Some? ==> r.value == Assemble(Table(Features, KeyAndValue, page.featureItems), Table(Overview, KeyAndValue, page.statsItems),
                                             dealershipId, LegacyMileageOf(Table(Features, KeyAndValue, page.featureItems)).value)
  {
    var f := Table(Features, KeyAndValue, page.featureItems);
    var o := Table(Overview, KeyAndValue, page.statsItems);
    match LegacyMileageOf(f)
    case None => None
    case Some(m) => Some(Assemble(f, o, dealershipId, m))
  }

  /** The alert the `except` of the older `extract_vehicle_data` sends: one
      naming the URL, exactly when the extraction fails. */
  function LegacyDetailsAlerts(url: string, page: DetailPage, dealershipId: Option<string>): (alerts: seq<Alert>)
    ensures alerts == [] <==> LegacyDetails(page, dealershipId).Some?
    ensures alerts != [] ==> alerts == [DetailsFailed(url)]
  {
    if LegacyDetails(page, dealershipId).None? then [DetailsFailed(url)] else []
  }

  /** The older `extract_vehicle_data`: the two dictionary loops, then the
      record; a mileage that raises ends in the `except`, which alerts and
      returns `None`. */
  method LegacyExtractVehicleData(url: string, page: DetailPage, dealership: DealershipData) returns (r: Option<VehicleDetails>, alerts: seq<Alert>)
    ensures r == LegacyDetails(page, dealership.dealershipId)
    ensures alerts == LegacyDetailsAlerts(url, page, dealership.dealershipId)
  {
    var f := BuildTable(Features, KeyAndValue, page.featureItems);
    var o := BuildTable(Overview, KeyAndValue, page.statsItems);
    var mileage: Option<int> := None;
    if "mileage" in f && f["mileage"].Some? && f["mileage"].value != "" {
      match PyInt(RemoveChar(f["mileage"].value, ',')) {
        case None => return None, [DetailsFailed(url)];
        case Some(n) => mileage := Some(n);
      }
    }
    r, alerts := Some(Assemble(f, o, dealership.dealershipId, mileage)), [];
  }

  /** A "mileage" label without a value element: the current extractor fails
      on it, the older one records no mileage. */
  lemma MileageWithoutValue(labelText: string, statsItems: seq<Item>, priceText: Option<string>, dealershipId: Option<string>)
    requires KeyOf(Features, labelText) == "mileage"
    ensures var page := DetailPage([Item(Some(labelText), None)], statsItems, priceText);
      && CurrentDetails(page, dealershipId) == None
      && LegacyDetails(page, dealershipId).Some?
      && LegacyDetails(page, dealershipId).value.mileage == None
  {
    var items := [Item(Some(labelText), None)];
    TableLastWins(Features, KeyOnly, items, "mileage");
    assert IsLastStore(Features, KeyOnly, items, 0, "mileage");
    TableLastWins(Features, KeyAndValue, items, "mileage");
  }

  /** On a page whose every keyed item carries a non-empty value, the two
      versions extract the same details. */
  lemma DetailsAgreeOnCompletePages(page: DetailPage, dealershipId: Option<string>)
    requires forall i | 0 <= i < |page.featureItems| :: Complete(Features, page.featureItems[i])
    requires forall i | 0 <= i < |page.statsItems| :: Complete(Overview, page.statsItems[i])
    ensures LegacyDetails(page, dealershipId) == CurrentDetails(page, dealershipId)
  {
    RulesAgreeOnCompleteItems(Features, page.featureItems);
    RulesAgreeOnCompleteItems(Overview, page.statsItems);
    LegacyValuesPresent(Features, page.featureItems);
  }

  // ---------------------------------------------------------------------
  // Price and record

  /** The older price: `$` and `,` removed from the stripped text, then
      `float()` when the result is non-empty, `None` otherwise; the outer
      `None` is the `ValueError` of a text that is not a number. */
  function LegacyPrice(priceText: Option<string>): (r: Option<Option<real>>)
    ensures r == Some(None) <==> priceText.None? || RemoveChar(RemoveChar(Strip(priceText.value), '$'), ',') == ""
    ensures r != Some(None) ==> r == MapOption(PyDecimal(RemoveChar(RemoveChar(Strip(priceText.value), '$'), ',')), (x: real) => Some(x))
  {
    match priceText
    case None => Some(None)
    case Some(t) =>
      var p := RemoveChar(RemoveChar(Strip(t), '$'), ',');
      if p == "" then Some(None)
      else
        match PyDecimal(p)
        case None => None
        case Some(x) => Some(Some(x))
  }

  /** Whenever something is left after cleaning, both versions read the same price. */
  lemma PriceVersionsAgree(t: string)
    requires RemoveChar(RemoveChar(Strip(t), '$'), ',') != ""
    ensures LegacyPrice(Some(t)) == CurrentPrice(Some(t))
  {
    var p := RemoveChar(RemoveChar(Strip(t), '$'), ',');
    assert |p| <= |Strip(t)|;
    PyDecimalOfStripped(p);
  }

  /** A price that is only a dollar sign: the older version records no price,
      the current one drops the vehicle. */
  lemma DollarSignOnlyPriceVersions()
    ensures LegacyPrice(Some("$")) == Some(None)
    ensures CurrentPrice(Some("$")) == None
  {
    assert Strip("$") == "$";
    assert RemoveChar("$", '$') == "";
    DollarSignOnlyPrice();
  }

  /** What the older `process_vehicle_data` returns: a plain dataclass
      record (no URL validation) with status "available". */
  function LegacyRecord(url: string, dealership: DealershipData, fetch: Fetch<DetailPage>): (r: Option<VehicleData>)
    ensures r.Some? <==> && fetch.Rendered?
                         && LegacyDetails(fetch.doc, dealership.dealershipId).Some?
                         && LegacyPrice(fetch.doc.priceText).Some?
    ensures r.Some? ==> && r.value.listingUrl == Some(url)
                        && r.value.status == Some("available")
                        && r.value.inventorySourceId == dealership.inventorySourceId
                        && r.value.price == LegacyPrice(fetch.doc.priceText).value
                        && r.value.vehicleData == LegacyDetails(fetch.doc, dealership.dealershipId)
  {
    match fetch
    case Raised => None
    case Rendered(page) =>
      match LegacyDetails(page, dealership.dealershipId)
      case None => None
      case Some(details) =>
        match LegacyPrice(page.priceText)
        case None => None
        case Some(price) => Some(VehicleData(dealership.inventorySourceId, Some(url), Some("available"), price, Some(details)))
  }

  /** The alerts of the older `process_vehicle_data` up to its `finally`:
      those of the extraction when the page rendered, then, when no record
      comes out, the one its `except` sends. */
  function LegacyRecordAlerts(url: string, dealership: DealershipData, fetch: Fetch<DetailPage>): (alerts: seq<Alert>)
    ensures alerts == [] <==> LegacyRecord(url, dealership, fetch).Some?
    ensures alerts != [] ==> alerts[|alerts| - 1] == RecordFailed(url, dealership.dealershipName)
    ensures DetailsFailed(url) in alerts <==> fetch.Rendered? && LegacyDetails(fetch.doc, dealership.dealershipId).None?
    ensures |alerts| <= 2
  {
    var extraction := if fetch.Rendered? then LegacyDetailsAlerts(url, fetch.doc, dealership.dealershipId) else [];
    extraction + if LegacyRecord(url, dealership, fetch).None? then [RecordFailed(url, dealership.dealershipName)] else []
  }

  /** A price text the older version cannot convert drops the vehicle with
      a single alert, from `process_vehicle_data`. */
  lemma LegacyBadPriceAlertsOnce(url: string, dealership: DealershipData, page: DetailPage)
    requires LegacyDetails(page, dealership.dealershipId).Some? && LegacyPrice(page.priceText).None?
    ensures LegacyRecordAlerts(url, dealership, Rendered(page)) == [RecordFailed(url, dealership.dealershipName)]
  {
  }

  /** The older `process_vehicle_data` as the steps it takes.
      `driverStarted` says whether `settings.init_driver()` returned. When it
      raised, `driver` is never bound: the `except` sends its alert, and the
      `finally` clause's `driver.quit()` then raises `UnboundLocalError`
      instead of returning `None`. */
  method LegacyProcessVehicleData(url: string, dealership: DealershipData, driverStarted: bool, fetch: Fetch<DetailPage>)
    returns (r: Result<Option<VehicleData>>, alerts: seq<Alert>)
    ensures r.Err? <==> !driverStarted
    ensures r.Err? ==> r.error == UnboundDriver
    ensures r.Ok? ==> r.value == LegacyRecord(url, dealership, fetch)
    ensures driverStarted ==> alerts == LegacyRecordAlerts(url, dealership, fetch)
    ensures !driverStarted ==> alerts == [RecordFailed(url, dealership.dealershipName)]
  {
    var failed := [RecordFailed(url, dealership.dealershipName)];
    if !driverStarted {
      return Err(UnboundDriver), failed;
    }
    if fetch.Raised? {
      return Ok(None), failed;
    }
    var page := fetch.doc;
    var details;
    details, alerts := LegacyExtractVehicleData(url, page, dealership);
    if details.None? {
      return Ok(None), alerts + failed;
    }
    var price := LegacyPrice(page.priceText);
    if price.None? {
      return Ok(None), alerts + failed;
    }
    r := Ok(Some(VehicleData(dealership.inventorySourceId, Some(url), Some("available"), price.value, details)));
  }

  // ---------------------------------------------------------------------
  // Duplicates

  /** Some existing record's `.get("listing_url")` equals `url`. */
  predicate Listed(existing: seq<VehicleData>, url: Option<string>) {
    exists i | 0 <= i < |existing| :: existing[i].listingUrl == url
  }

  /** The older `is_duplicate_vehicle_data`: scan the records, and at the
      first URL match report the duplicate (one alert) and answer true. */
  method LegacyIsDuplicate(existing: seq<VehicleData>, entry: VehicleData) returns (dup: bool, alerts: seq<Alert>)
    ensures dup == Listed(existing, entry.listingUrl)
    ensures alerts == if dup then [DuplicateSkipped(entry.listingUrl)] else []
  {
    var i := 0;
    while i < |existing|
      invariant 0 <= i <= |existing|
      invariant forall j | 0 <= j < i :: existing[j].listingUrl != entry.listingUrl
    {
      if existing[i].listingUrl == entry.listingUrl {
        return true, [DuplicateSkipped(entry.listingUrl)];
      }
      i := i + 1;
    }
    return false, [];
  }

  /** Two records that both lack a URL are duplicates for the older test,
      while the current test raises on them. */
  lemma MissingUrlsAreDuplicates(existing: seq<VehicleData>, entry: VehicleData)
    requires |existing| > 0 && existing[0].listingUrl.None? && entry.listingUrl.None?
    ensures Listed(existing, entry.listingUrl)
    ensures IsDuplicate(existing, entry) == Err(MissingListingUrl)
  {
  }

  /** Where every URL is present the two tests agree. */
  lemma DuplicateVersionsAgree(existing: seq<VehicleData>, entry: VehicleData)
    requires AllListed(existing) && entry.listingUrl.Some?
    ensures IsDuplicate(existing, entry) == Ok(Listed(existing, entry.listingUrl))
  {
    IsDuplicateIffListed(existing, entry);
  }

  /** The duplicate alerts the filter raises, one per duplicate, in order. */
  function DuplicateAlerts(existing: seq<VehicleData>, records: seq<VehicleData>): (alerts: seq<Alert>)
    ensures |alerts| <= |records|
    ensures forall k | 0 <= k < |alerts| :: alerts[k].DuplicateSkipped? && Listed(existing, alerts[k].duplicateUrl)
    ensures (forall k | 0 <= k < |records| :: !Listed(existing, records[k].listingUrl)) ==> alerts == []
    decreases |records|
  {
    if records == [] then []
    else
      var last := records[|records| - 1];
      DuplicateAlerts(existing, records[..|records| - 1])
        + if Listed(existing, last.listingUrl) then [DuplicateSkipped(last.listingUrl)] else []
  }

  /** The alerts of a longer list: the old ones, then one for the new
      record if it is a duplicate. */
  lemma DuplicateAlertsSnoc(existing: seq<VehicleData>, records: seq<VehicleData>, x: VehicleData)
    ensures DuplicateAlerts(existing, records + [x])
         == DuplicateAlerts(existing, records) + if Listed(existing, x.listingUrl) then [DuplicateSkipped(x.listingUrl)] else []
  {
    assert (records + [x])[..|records|] == records;
  }

  /** Keeping the records of a longer list: the old ones, then the new one if kept. */
  lemma {:induction false} KeepUnlistedSnoc(existing: seq<VehicleData>, records: seq<VehicleData>, x: VehicleData)
    ensures KeepUnlisted(existing, records + [x]) == KeepUnlisted(existing, records) + (if Unlisted(existing, x) then [x] else [])
    decreases |records|
  {
    if records == [] {
      assert [x][1..] == [];
    } else {
      assert (records + [x])[1..] == records[1..] + [x];
      KeepUnlistedSnoc(existing, records[1..], x);
    }
  }

  /** One more record of the list: what the filter keeps and reports. */
  lemma FilterStep(existing: seq<VehicleData>, records: seq<VehicleData>, i: nat)
    requires i < |records|
    ensures KeepUnlisted(existing, records[..i + 1])
         == KeepUnlisted(existing, records[..i]) + if Unlisted(existing, records[i]) then [records[i]] else []
    ensures DuplicateAlerts(existing, records[..i + 1])
         == DuplicateAlerts(existing, records[..i]) + if Listed(existing, records[i].listingUrl) then [DuplicateSkipped(records[i].listingUrl)] else []
  {
    assert records[..i + 1] == records[..i] + [records[i]];
    KeepUnlistedSnoc(existing, records[..i], records[i]);
    DuplicateAlertsSnoc(existing, records[..i], records[i]);
  }

  /** The comprehension of `process_and_send_batches`: the records that are
      not duplicates, in order, and an alert per duplicate. */
  method LegacyFilter(existing: seq<VehicleData>, records: seq<VehicleData>) returns (kept: seq<VehicleData>, alerts: seq<Alert>)
    ensures kept == KeepUnlisted(existing, records)
    ensures alerts == DuplicateAlerts(existing, records)
  {
    kept, alerts := [], [];
    var i := 0;
    while i < |records|
      invariant 0 <= i <= |records|
      invariant kept == KeepUnlisted(existing, records[..i])
      invariant alerts == DuplicateAlerts(existing, records[..i])
    {
      var dup, dupAlerts := LegacyIsDuplicate(existing, records[i]);
      FilterStep(existing, records, i);
      assert Unlisted(existing, records[i]) == !dup;
      if !dup {
        kept := kept + [records[i]];
      }
      alerts := alerts + dupAlerts;
      i := i + 1;
    }
    assert records[..i] == records;
  }

  // ---------------------------------------------------------------------
  // Dispatch

  /** `ceil(total / SEND_BATCH_SIZE or None)`: a zero size divides by zero;
      `0 / size` is falsy, so an empty list passes `None` to `ceil`, which
      raises; a negative size otherwise gives no rounds. */
  function LegacyBatchCount(total: nat, size: int): (r: Result<nat>)
    ensures size == 0 ==> r == Err(DivisionByZero)
    ensures size != 0 && total == 0 ==> r == Err(CeilOfNone)
    ensures size != 0 && total > 0 ==> r == BatchCount(total, size)
  {
    if size == 0 then Err(DivisionByZero)
    else if total == 0 then Err(CeilOfNone)
    else BatchCount(total, size)
  }

  /** The retry loop AS WRITTEN at scraper.py:342-347 calls
      `VehicleData.post_vehicle_data`; `VehicleData` there is the record
      schema, which has no such attribute, so the first attempt raises. */
  function LegacyDeliverAsWritten(K: int): (r: Result<PostReport>)
    ensures K > 0 <==> r.Err?
    ensures r.Err? ==> r.error == UnknownPostMethod
    ensures r.Ok? ==> r.value.posts == 0
  {
    if K > 0 then Err(UnknownPostMethod) else Ok(PostReport(0, 0, Exhausted, []))
  }

  /** The retry loop as evidently intended, posting through the vehicle API
      (`post(n, j)`: attempt `j` of record `n`): post until the first
      success, sleeping after EVERY failed post, the last one included. */
  function LegacyRetryReport(K: int, post: (nat, nat) -> bool, n: nat): (r: PostReport)
    ensures r.posts <= if K > 0 then K else 0
    ensures r.outcome == Delivered <==> exists j | 0 <= j < K :: post(n, j)
    ensures r.outcome == Delivered ==> r.posts >= 1 && post(n, r.posts - 1) && forall j | 0 <= j < r.posts - 1 :: !post(n, j)
    ensures r.outcome != Delivered ==> r.outcome == Exhausted && r.posts == (if K > 0 then K else 0)
    ensures r.pauses == if r.outcome == Delivered then r.posts - 1 else r.posts
    ensures r.alerts == []
  {
    if K <= 0 then PostReport(0, 0, Exhausted, [])
    else
      match FirstSuccess(post, n, K)
      case Some(j) => PostReport(j + 1, j, Delivered, [])
      case None => PostReport(K, K, Exhausted, [])
  }

  /** The intended retry loop of one record. */
  method LegacyDeliver(K: int, post: (nat, nat) -> bool, n: nat) returns (report: PostReport)
    ensures report == LegacyRetryReport(K, post, n)
  {
    var attempt: nat := 0;
    var success := false;
    var pauses: nat := 0;
    while attempt < K && !success
      invariant attempt <= if K > 0 then K else 0
      invariant !success ==> forall j | 0 <= j < attempt :: !post(n, j)
      invariant success ==> attempt >= 1 && post(n, attempt - 1) && forall j | 0 <= j < attempt - 1 :: !post(n, j)
      invariant pauses == if success then attempt - 1 else attempt
      decreases K - attempt
    {
      success := post(n, attempt);
      attempt := attempt + 1;
      if !success {
        pauses := pauses + 1;
      }
    }
    report := PostReport(attempt, pauses, if success then Delivered else Exhausted, []);
  }

  /** The discrepancy for the configured two attempts: as written, the first
      record's delivery raises before anything is posted; as intended, a
      record whose first post succeeds is delivered at once. */
  lemma LegacyPostMethodMissing(post: (nat, nat) -> bool, n: nat)
    requires post(n, 0)
    ensures LegacyDeliverAsWritten(2) == Err(UnknownPostMethod)
    ensures LegacyRetryReport(2, post, n) == PostReport(1, 0, Delivered, [])
  {
  }

  /** Unlike the current loop, the older one also sleeps after the last failure. */
  lemma LegacySleepsAfterLastFailure(url: string, K: int, post: (nat, nat) -> bool, n: nat)
    requires K > 0 && forall j | 0 <= j < K :: !post(n, j)
    ensures LegacyRetryReport(K, post, n).pauses == K
    ensures RetryReport(Some(url), K, post, n).pauses == K - 1
  {
  }

  /** One report per record, the first being record `offset`. */
  function LegacyReports(records: seq<VehicleData>, offset: nat, K: int, post: (nat, nat) -> bool): (r: seq<PostReport>)
    ensures |r| == |records|
  {
    seq(|records|, i requires 0 <= i < |records| => LegacyRetryReport(K, post, offset + i))
  }

  /** The inner loop over the records of one batch. */
  method LegacySendBatch(batch: seq<VehicleData>, offset: nat, K: int, post: (nat, nat) -> bool) returns (reports: seq<PostReport>)
    ensures reports == LegacyReports(batch, offset, K, post)
  {
    reports := [];
    var i := 0;
    while i < |batch|
      invariant 0 <= i <= |batch|
      invariant reports == LegacyReports(batch[..i], offset, K, post)
    {
      var report := LegacyDeliver(K, post, offset + i);
      reports := reports + [report];
      i := i + 1;
    }
    assert batch[..i] == batch;
  }

  /** Handing batch `b` over extends the batches by `Chunk(b)` and the
      reports of the covered records by those of batch `b`. */
  lemma LegacyBatchStep(filtered: seq<VehicleData>, c: nat, n: nat, b: nat, K: int, post: (nat, nat) -> bool)
    requires c > 0 && n == BatchCount(|filtered|, c).value && b < n
    ensures Chunks(filtered, c, n)[..b + 1] == Chunks(filtered, c, n)[..b] + [Chunk(filtered, b, c)]
    ensures LegacyReports(filtered[..Covered(|filtered|, c, b)], 0, K, post) + LegacyReports(Chunk(filtered, b, c), b * c, K, post)
      == LegacyReports(filtered[..Covered(|filtered|, c, b + 1)], 0, K, post)
  {
    var cs := Chunks(filtered, c, n);
    assert cs[..b + 1] == cs[..b] + [cs[b]];
    ChunkBetween(filtered, b, c);
    BatchStart(|filtered|, c, b);
  }

  /** The batch loop: batch `b` runs from `b*size` to `min(b*size + size, total)`. */
  method LegacySendBatches(filtered: seq<VehicleData>, size: nat, totalBatches: nat, K: int, post: (nat, nat) -> bool)
    returns (batches: seq<seq<VehicleData>>, reports: seq<PostReport>)
    requires size > 0 && totalBatches == BatchCount(|filtered|, size).value
    ensures batches == Chunks(filtered, size, totalBatches)
    ensures reports == LegacyReports(filtered, 0, K, post)
  {
    var totalRecords := |filtered|;
    batches, reports := [], [];
    var batchNumber := 0;
    while batchNumber < totalBatches
      invariant 0 <= batchNumber <= totalBatches
      invariant batches == Chunks(filtered, size, totalBatches)[..batchNumber]
      invariant reports == LegacyReports(filtered[..Covered(totalRecords, size, batchNumber)], 0, K, post)
    {
      var startIdx := batchNumber * size;
      var endIdx := if startIdx + size <= totalRecords then startIdx + size else totalRecords;
      var batchData := PySlice(filtered, startIdx, endIdx);
      assert batchData == Chunk(filtered, batchNumber, size);
      var batchReports := LegacySendBatch(batchData, startIdx, K, post);
      LegacyBatchStep(filtered, size, totalBatches, batchNumber, K, post);
      batches := batches + [batchData];
      reports := reports + batchReports;
      batchNumber := batchNumber + 1;
    }
    assert batches == Chunks(filtered, size, totalBatches);
    BatchesCoverAll(totalRecords, size);
    assert filtered[..totalRecords] == filtered;
  }

  /** `process_and_send_batches`, with the intended post call: filter (an
      alert per duplicate), count the batches, then post every record of
      every batch in order with retries. */
  method ProcessAndSendBatches(existing: seq<VehicleData>, output: seq<VehicleData>, size: int, K: int, post: (nat, nat) -> bool)
    returns (r: Result<PostRun>, dupAlerts: seq<Alert>)
    ensures dupAlerts == DuplicateAlerts(existing, output)
    ensures r.Err? <==> LegacyBatchCount(|KeepUnlisted(existing, output)|, size).Err?
    ensures r.Err? ==> r.error == LegacyBatchCount(|KeepUnlisted(existing, output)|, size).error
    ensures r.Ok? ==> r.value.batches == (if size > 0 then Chunks(KeepUnlisted(existing, output), size, BatchCount(|KeepUnlisted(existing, output)|, size).value) else [])
    ensures r.Ok? ==> r.value.reports == LegacyReports(Flatten(r.value.batches), 0, K, post) && r.value.alerts == []
  {
    var nonDuplicates;
    nonDuplicates, dupAlerts := LegacyFilter(existing, output);
    var totalBatches: nat;
    match LegacyBatchCount(|nonDuplicates|, size) {
      case Err(e) => return Err(e), dupAlerts;
      case Ok(n) => totalBatches := n;
    }
    if size < 0 {
      return Ok(PostRun([], [], [])), dupAlerts;
    }
    var batches, reports := LegacySendBatches(nonDuplicates, size, totalBatches, K, post);
    BatchesPartition(nonDuplicates, size);
    r := Ok(PostRun(batches, reports, []));
  }
}
