/** The current extractor, app/src/carguru_vehicle/vehicle_data_extraction.py:
    the links of a listing page, the walk over the listing pages, the
    details of one vehicle page and the record built from it. */
module VehicleDataExtraction {
  import opened Wrappers
  import opened PyText
  import opened Pages
  import opened Schemas
  import opened Details
  import opened Pagination

  // ---------------------------------------------------------------------
  // Listing pages

  /** The anchors `extract_vehicle_links_on_page` keeps: `data-testid` is
      `car-blade-link` and an `href` attribute is present, whatever its value. */
  predicate IsCarBladeLink(a: Anchor)
    ensures IsCarBladeLink(a) ==> a.href.Some?
    ensures a.dataTestId != Some("car-blade-link") ==> !IsCarBladeLink(a)
  {
    a.dataTestId == Some("car-blade-link") && a.href.Some?
  }

  /** One URL per kept anchor, in document order, its `href` resolved
      against `base` by `join` (the model of `urljoin`). */
  function ExtractVehicleLinksOnPage(doc: ListingPage, base: string, join: (string, string) -> string): (r: seq<string>)
    ensures |r| == |Selected(doc.anchors, IsCarBladeLink)|
    ensures forall k | 0 <= k < |r| :: r[k] == join(base, Selected(doc.anchors, IsCarBladeLink)[k].href.value)
  {
    SelectedLinksAreResolvedHrefs(doc.anchors, base, join, IsCarBladeLink);
    SelectedLinks(doc.anchors, base, join, IsCarBladeLink)
  }

  /** `get_all_vehicle_links`: the page count read from the first document,
      then the walk over pages 1..count of the dealership's listing URL. */
  method GetAllVehicleLinks(doc: ListingPage, dealership: DealershipData, render: string -> Fetch<ListingPage>, join: (string, string) -> string)
    returns (links: seq<string>, alerts: seq<Alert>, visited: seq<string>)
    ensures Walked(links, alerts, |visited|) == Walk(Steps(TotalPages(doc), UrlText(dealership.url), render, join, IsCarBladeLink), 1)
    ensures |visited| <= TotalPages(doc)
    ensures forall i | 0 <= i < |visited| :: visited[i] == PageUrl(UrlText(dealership.url), i + 1)
  {
    var steps := Steps(TotalPages(doc), UrlText(dealership.url), render, join, IsCarBladeLink);
    links, alerts, visited := CollectLinks(TotalPages(doc), UrlText(dealership.url), render, join, IsCarBladeLink);
    WalkStopsAtFirstEmptyPage(steps, 1);
  }

  // ---------------------------------------------------------------------
  // Vehicle details

  /** The mileage of the features dictionary: `None` when there is no
      `mileage` key; otherwise `int()` of the stored value without commas.
      The outer `None` is the exception (`AttributeError` on a missing value,
      `ValueError` on a non-numeral) that makes the extraction return `None`. */
  function MileageOf(f: map<string, Option<string>>): (r: Option<Option<int>>)
    ensures r == Some(None) <==> "mileage" !in f
    ensures r.None? <==> "mileage" in f && (f["mileage"].None? || PyInt(RemoveChar(f["mileage"].value, ',')).None?)
    ensures r.Some? && r.value.Some? ==> r.value == PyInt(RemoveChar(f["mileage"].value, ','))
  {
    if "mileage" !in f then Some(None)
    else match f["mileage"]
      case None => None
      case Some(v) =>
        match PyInt(RemoveChar(v, ','))
        case None => None
        case Some(n) => Some(Some(n))
  }

  /** The `VehicleDetails` built from the two dictionaries: overview keys for
      the identity, colour and model fields, feature keys for the drivetrain
      fields, `body_type` for the body style, an empty description. */
  function Assemble(f: map<string, Option<string>>, o: map<string, Option<string>>, dealershipId: Option<string>, mileage: Option<int>): (d: VehicleDetails)
    ensures d.dealershipId == dealershipId && d.mileage == mileage && d.description == Some("")
    ensures d.vin == Lookup(o, "vin") && d.stockNumber == Lookup(o, "stock_number")
    ensures d.exteriorColor == Lookup(o, "exterior_color") && d.interiorColor == Lookup(o, "interior_color")
    ensures d.model.Some? && d.model.value.make == Some(Make(Lookup(o, "make")))
    ensures d.model.value.name == Lookup(o, "model") && d.model.value.year == Lookup(o, "year")
    ensures d.model.value.trim == Lookup(o, "trim") && d.model.value.bodyStyle == Lookup(o, "body_type")
    ensures d.model.value.transmission == Lookup(f, "transmission") && d.model.value.fuelType == Lookup(f, "fuel_type")
    ensures d.model.value.drivetrain == Lookup(f, "drivetrain") && d.model.value.engine == Lookup(f, "engine")
  {
    VehicleDetails(
      dealershipId := dealershipId,
      vin := Lookup(o, "vin"),
      mileage := mileage,
      stockNumber := Lookup(o, "stock_number"),
      description := Some(""),
      exteriorColor := Lookup(o, "exterior_color"),
      interiorColor := Lookup(o, "interior_color"),
      model := Some(Model(
        name := Lookup(o, "model"),
        year := Lookup(o, "year"),
        trim := Lookup(o, "trim"),
        bodyStyle := Lookup(o, "body_type"),
        transmission := Lookup(f, "transmission"),
        fuelType := Lookup(f, "fuel_type"),
        drivetrain := Lookup(f, "drivetrain"),
        engine := Lookup(f, "engine"),
        make := Some(Make(Lookup(o, "make"))))))
  }

  /** The overview keys whose values fill the details, and the feature keys. */
  const OverviewKeys: set<string> := {"vin", "stock_number", "exterior_color", "interior_color", "make", "model", "year", "trim", "body_type"}
  const FeatureKeys: set<string> := {"transmission", "fuel_type", "drivetrain", "engine"}

  /** The field of `d` that the dictionary key `k` fills; `None` for a key no
      field reads. */
  function FieldOf(d: VehicleDetails, k: string): Option<string> {
    if k == "vin" then d.vin
    else if k == "stock_number" then d.stockNumber
    else if k == "exterior_color" then d.exteriorColor
    else if k == "interior_color" then d.interiorColor
    else match d.model
      case None => None
      case Some(m) =>
        if k == "make" then (if m.make.Some? then m.make.value.name else None)
        else if k == "model" then m.name
        else if k == "year" then m.year
        else if k == "trim" then m.trim
        else if k == "body_type" then m.bodyStyle
        else if k == "transmission" then m.transmission
        else if k == "fuel_type" then m.fuelType
        else if k == "drivetrain" then m.drivetrain
        else if k == "engine" then m.engine
        else None
  }

  /** Each overview key fills its field from the overview dictionary, each
      feature key from the features dictionary. */
  lemma AssembleFields(f: map<string, Option<string>>, o: map<string, Option<string>>, dealershipId: Option<string>, mileage: Option<int>, k: string)
    ensures k in OverviewKeys ==> FieldOf(Assemble(f, o, dealershipId, mileage), k) == Lookup(o, k)
    ensures k in FeatureKeys ==> FieldOf(Assemble(f, o, dealershipId, mileage), k) == Lookup(f, k)
  {
  }

  /** What `extract_vehicle_data` returns for a page: the details, or `None`
      exactly when the mileage step raises. */
  function CurrentDetails(page: DetailPage, dealershipId: Option<string>): (r: Option<VehicleDetails>)
    ensures r.None? <==> MileageOf(Table(Features, KeyOnly, page.featureItems)).None?
    ensures r.Some? ==> r.value == Assemble(Table(Features, KeyOnly, page.featureItems), Table(Overview, KeyOnly, page.statsItems),
                                             dealershipId, MileageOf(Table(Features, KeyOnly, page.featureItems)).value)
  {
    var f := Table(Features, KeyOnly, page.featureItems);
    var o := Table(Overview, KeyOnly, page.statsItems);
    match MileageOf(f)
    case None => None
    case Some(m) => Some(Assemble(f, o, dealershipId, m))
  }

  /** The alert the `except` of `extract_vehicle_data` sends: one naming the
      URL, exactly when the extraction fails. */
  function DetailsAlerts(url: string, page: DetailPage, dealershipId: Option<string>): (alerts: seq<Alert>)
    ensures alerts == [] <==> CurrentDetails(page, dealershipId).Some?
    ensures alerts != [] ==> alerts == [DetailsFailed(url)]
  {
    if CurrentDetails(page, dealershipId).None? then [DetailsFailed(url)] else []
  }

  /** `extract_vehicle_data`: the two dictionary loops, then the record; a
      mileage that raises ends in the `except`, which alerts and returns `None`. */
  method ExtractVehicleData(url: string, page: DetailPage, dealership: DealershipData) returns (r: Option<VehicleDetails>, alerts: seq<Alert>)
    ensures r == CurrentDetails(page, dealership.dealershipId)
    ensures alerts == DetailsAlerts(url, page, dealership.dealershipId)
  {
    var f := BuildTable(Features, KeyOnly, page.featureItems);
    var o := BuildTable(Overview, KeyOnly, page.statsItems);
    var mileage: Option<int> := None;
    if "mileage" in f {
      match f["mileage"] {
        case None => return None, [DetailsFailed(url)];
        case Some(v) =>
          match PyInt(RemoveChar(v, ',')) {
            case None => return None, [DetailsFailed(url)];
            case Some(n) => mileage := Some(n);
          }
      }
    }
    r, alerts := Some(Assemble(f, o, dealership.dealershipId, mileage)), [];
  }

  /** No feature item is labelled "mileage": the mileage is `None` and the
      extraction succeeds. */
  lemma MileageAbsent(page: DetailPage, dealershipId: Option<string>)
    requires forall i | 0 <= i < |page.featureItems| :: !StoresUnder(Features, KeyOnly, page.featureItems[i], "mileage")
    ensures CurrentDetails(page, dealershipId).Some?
    ensures CurrentDetails(page, dealershipId).value.mileage.None?
  {
    TableLastWins(Features, KeyOnly, page.featureItems, "mileage");
  }

  /** The last "mileage" item decides: a missing value or a text that is not
      an integer once its commas are gone makes the whole extraction `None`;
      otherwise that integer is the mileage. */
  lemma MileageFromLastItem(page: DetailPage, dealershipId: Option<string>, i: nat)
    requires IsLastStore(Features, KeyOnly, page.featureItems, i, "mileage")
    ensures var v := page.featureItems[i].valueText;
      CurrentDetails(page, dealershipId).Some? <==> v.Some? && PyInt(RemoveChar(Strip(v.value), ',')).Some?
    ensures var v := page.featureItems[i].valueText;
      CurrentDetails(page, dealershipId).Some? ==> CurrentDetails(page, dealershipId).value.mileage == PyInt(RemoveChar(Strip(v.value), ','))
  {
    var f := Table(Features, KeyOnly, page.featureItems);
    var v := page.featureItems[i].valueText;
    TableLastWins(Features, KeyOnly, page.featureItems, "mileage");
    assert "mileage" in f && f["mileage"] == MapOption(v, Strip);
    var m := MileageOf(f);
    assert m.None? <==> v.None? || PyInt(RemoveChar(Strip(v.value), ',')).None?;
    assert m != Some(None);
  }

  /** The last overview item stored under a key the details read decides
      that field: its value, stripped, or `None` when it has no value element. */
  lemma OverviewFieldFromLastItem(page: DetailPage, dealershipId: Option<string>, k: string, i: nat)
    requires k in OverviewKeys
    requires IsLastStore(Overview, KeyOnly, page.statsItems, i, k)
    ensures CurrentDetails(page, dealershipId).Some? ==>
      FieldOf(CurrentDetails(page, dealershipId).value, k) == MapOption(page.statsItems[i].valueText, Strip)
  {
    LookupLastItem(Overview, KeyOnly, page.statsItems, i, k);
    if CurrentDetails(page, dealershipId).Some? {
      AssembleFields(Table(Features, KeyOnly, page.featureItems), Table(Overview, KeyOnly, page.statsItems),
                     dealershipId, MileageOf(Table(Features, KeyOnly, page.featureItems)).value, k);
    }
  }

  /** An overview key no item is stored under leaves its field `None`. */
  lemma OverviewFieldAbsent(page: DetailPage, dealershipId: Option<string>, k: string)
    requires k in OverviewKeys
    requires forall i | 0 <= i < |page.statsItems| :: !StoresUnder(Overview, KeyOnly, page.statsItems[i], k)
    ensures CurrentDetails(page, dealershipId).Some? ==> FieldOf(CurrentDetails(page, dealershipId).value, k) == None
  {
    LookupAbsent(Overview, KeyOnly, page.statsItems, k);
    if CurrentDetails(page, dealershipId).Some? {
      AssembleFields(Table(Features, KeyOnly, page.featureItems), Table(Overview, KeyOnly, page.statsItems),
                     dealershipId, MileageOf(Table(Features, KeyOnly, page.featureItems)).value, k);
    }
  }

  /** The last feature item stored under a drivetrain key decides that field. */
  lemma FeatureFieldFromLastItem(page: DetailPage, dealershipId: Option<string>, k: string, i: nat)
    requires k in FeatureKeys
    requires IsLastStore(Features, KeyOnly, page.featureItems, i, k)
    ensures CurrentDetails(page, dealershipId).Some? ==>
      FieldOf(CurrentDetails(page, dealershipId).value, k) == MapOption(page.featureItems[i].valueText, Strip)
  {
    LookupLastItem(Features, KeyOnly, page.featureItems, i, k);
    if CurrentDetails(page, dealershipId).Some? {
      AssembleFields(Table(Features, KeyOnly, page.featureItems), Table(Overview, KeyOnly, page.statsItems),
                     dealershipId, MileageOf(Table(Features, KeyOnly, page.featureItems)).value, k);
    }
  }

  /** A drivetrain key no feature item is stored under leaves its field `None`. */
  lemma FeatureFieldAbsent(page: DetailPage, dealershipId: Option<string>, k: string)
    requires k in FeatureKeys
    requires forall i | 0 <= i < |page.featureItems| :: !StoresUnder(Features, KeyOnly, page.featureItems[i], k)
    ensures CurrentDetails(page, dealershipId).Some? ==> FieldOf(CurrentDetails(page, dealershipId).value, k) == None
  {
    LookupAbsent(Features, KeyOnly, page.featureItems, k);
    if CurrentDetails(page, dealershipId).Some? {
      AssembleFields(Table(Features, KeyOnly, page.featureItems), Table(Overview, KeyOnly, page.statsItems),
                     dealershipId, MileageOf(Table(Features, KeyOnly, page.featureItems)).value, k);
    }
  }

  /** The overview label "Body Type:" (written as its words and colon) is the
      key `body_type`. */
  lemma BodyTypeLabelKey()
    ensures KeyOf(Overview, "Body" + " " + "Type" + ":") == "body_type"
  {
    BodyTypeWords();
    TwoWordOverviewKey("Body", "Type");
  }

  /** The two words of the label, lower-cased. */
  lemma BodyTypeWords()
    ensures NoSpace("Body") && NoSpace("Type") && ':' !in "Body" && ':' !in "Type"
    ensures Lower("Body") == "body" && Lower("Type") == "type"
  {
  }

  /** A lone stats item whose label is the key `body_type`, on a page
      without feature items, gives a vehicle whose body style is the item's
      stripped text. */
  lemma BodyTypeItemReachesBodyStyle(text: string, value: string, dealershipId: Option<string>)
    requires KeyOf(Overview, text) == "body_type"
    ensures var page := DetailPage([], [Item(Some(text), Some(value))], None);
      && CurrentDetails(page, dealershipId).Some?
      && CurrentDetails(page, dealershipId).value.model.value.bodyStyle == Some(Strip(value))
  {
    var page := DetailPage([], [Item(Some(text), Some(value))], None);
    MileageAbsent(page, dealershipId);
    assert IsLastStore(Overview, KeyOnly, page.statsItems, 0, "body_type");
    OverviewFieldFromLastItem(page, dealershipId, "body_type", 0);
  }

  /** The stats label "Body Type:" fills the body style. */
  lemma BodyTypeReachesBodyStyle(value: string, dealershipId: Option<string>)
    ensures var page := DetailPage([], [Item(Some("Body" + " " + "Type" + ":"), Some(value))], None);
      && CurrentDetails(page, dealershipId).Some?
      && CurrentDetails(page, dealershipId).value.model.value.bodyStyle == Some(Strip(value))
  {
    BodyTypeLabelKey();
    BodyTypeItemReachesBodyStyle("Body" + " " + "Type" + ":", value, dealershipId);
  }

  /** A thousands separator between two comma-free parts is ignored: the
      text reads as the two parts written together. */
  lemma MileageIgnoresComma(p: string, q: string)
    requires ',' !in p && ',' !in q
    ensures PyInt(RemoveChar(p + "," + q, ',')) == PyInt(p + q)
  {
    RemoveConcat(p + ",", q, ',');
    RemoveConcat(p, ",", ',');
    assert RemoveChar(",", ',') == "";
    RemoveAbsent(p, ',');
    RemoveAbsent(q, ',');
    assert p + "" == p;
  }

  /** A plain numeral is its own mileage. */
  lemma MileageOfNumeral(n: nat)
    ensures PyInt(RemoveChar(NatToString(n), ',')) == Some(n)
  {
    var s := NatToString(n);
    assert ',' !in s by {
      assert forall i | 0 <= i < |s| :: s[i] != ',';
    }
    RemoveAbsent(s, ',');
    PyIntOfNatToString(n);
  }

  // ---------------------------------------------------------------------
  // Price and the assembled record

  /** The price of the current extractor: no price element or an empty text
      gives `None`; otherwise `float()` of the text without `$` and `,`,
      stripped. The outer `None` is the `ValueError` of a text that is not a
      number, which makes `process_vehicle_data` return `None`. */
  function CurrentPrice(priceText: Option<string>): (r: Option<Option<real>>)
    ensures r == Some(None) <==> priceText.None? || Strip(priceText.value) == ""
    ensures r != Some(None) ==> r == MapOption(PyDecimal(Strip(RemoveChar(RemoveChar(Strip(priceText.value), '$'), ','))), (x: real) => Some(x))
  {
    match priceText
    case None => Some(None)
    case Some(t) =>
      var raw := Strip(t);
      if raw == "" then Some(None)
      else
        match PyDecimal(Strip(RemoveChar(RemoveChar(raw, '$'), ',')))
        case None => None
        case Some(x) => Some(Some(x))
  }

  /** A numeral holds no space, no `$` and no `,`. */
  lemma NumeralChars(digits: string)
    requires IsDigitString(digits)
    ensures NoSpace(digits) && '$' !in digits && ',' !in digits
  {
    DigitsNoSpace(digits);
    assert forall i | 0 <= i < |digits| :: digits[i] != '$' && digits[i] != ',';
  }

  /** Cleaning "$<numeral>" leaves the numeral. */
  lemma CleanDollarText(digits: string)
    requires IsDigitString(digits)
    ensures Strip("$" + digits) == "$" + digits
    ensures Strip(RemoveChar(RemoveChar("$" + digits, '$'), ',')) == digits
  {
    NumeralChars(digits);
    var t := "$" + digits;
    assert NoSpace(t) by {
      assert forall i | 0 <= i < |t| :: t[i] == '$' || t[i] == digits[i - 1];
    }
    RemoveConcat("$", digits, '$');
    RemoveAbsent(digits, '$');
    assert RemoveChar("$", '$') == "";
    assert RemoveChar(t, '$') == digits;
    RemoveAbsent(digits, ',');
  }

  /** A dollar amount reads as its value. */
  lemma DollarPrice(n: nat)
    ensures CurrentPrice(Some("$" + NatToString(n))) == Some(Some(n as real))
  {
    var digits := NatToString(n);
    CleanDollarText(digits);
    PyDecimalOfNatToString(n);
    assert Strip("$" + digits) != "";
  }

  /** A price text that is only a dollar sign leaves nothing to convert:
      `float("")` raises and the vehicle is dropped. */
  lemma DollarSignOnlyPrice()
    ensures CurrentPrice(Some("$")) == None
  {
    assert Strip("$") == "$";
    assert RemoveChar("$", '$') == "";
    assert PyDecimal("") == None;
  }

  /** `process_vehicle_data`: render the page (any exception gives `None`),
      extract the details (`None` gives `None`), read the price, and build
      the record, whose `listing_url` must validate as an HTTP URL. Fields
      that are `None` are the keys `model_dump(exclude_none=True)` drops. */
  function CurrentRecord(url: string, dealership: DealershipData, fetch: Fetch<DetailPage>, isHttpUrl: string -> bool): (r: Option<VehicleData>)
    ensures r.Some? <==> && fetch.Rendered?
                         && CurrentDetails(fetch.doc, dealership.dealershipId).Some?
                         && CurrentPrice(fetch.doc.priceText).Some?
                         && isHttpUrl(url)
    ensures r.Some? ==> && r.value.listingUrl == Some(url)
                        && r.value.status == Some("available")
                        && r.value.inventorySourceId == dealership.inventorySourceId
                        && r.value.price == CurrentPrice(fetch.doc.priceText).value
                        && r.value.vehicleData == CurrentDetails(fetch.doc, dealership.dealershipId)
  {
    match fetch
    case Raised => None
    case Rendered(page) =>
      match CurrentDetails(page, dealership.dealershipId)
      case None => None
      case Some(details) =>
        match CurrentPrice(page.priceText)
        case None => None
        case Some(price) =>
          if isHttpUrl(url) then Some(VehicleData(dealership.inventorySourceId, Some(url), Some("available"), price, Some(details)))
          else None
  }

  /** The alerts of `process_vehicle_data`: those of the extraction when
      the page rendered, then, when no record comes out, the one its own
      `except` sends, naming the URL and the dealership. */
  function RecordAlerts(url: string, dealership: DealershipData, fetch: Fetch<DetailPage>, isHttpUrl: string -> bool): (alerts: seq<Alert>)
    ensures alerts == [] <==> CurrentRecord(url, dealership, fetch, isHttpUrl).Some?
    ensures alerts != [] ==> alerts[|alerts| - 1] == RecordFailed(url, dealership.dealershipName)
    ensures DetailsFailed(url) in alerts <==> fetch.Rendered? && CurrentDetails(fetch.doc, dealership.dealershipId).None?
    ensures |alerts| <= 2
  {
    var extraction := if fetch.Rendered? then DetailsAlerts(url, fetch.doc, dealership.dealershipId) else [];
    extraction + if CurrentRecord(url, dealership, fetch, isHttpUrl).None? then [RecordFailed(url, dealership.dealershipName)] else []
  }

  /** A rendered page whose details fail is reported twice: once by the
      extraction, once by `process_vehicle_data`. */
  lemma FailedDetailsAlertTwice(url: string, dealership: DealershipData, page: DetailPage, isHttpUrl: string -> bool)
    requires CurrentDetails(page, dealership.dealershipId).None?
    ensures RecordAlerts(url, dealership, Rendered(page), isHttpUrl) == [DetailsFailed(url), RecordFailed(url, dealership.dealershipName)]
  {
  }

  /** `process_vehicle_data` as the steps it takes. */
  method ProcessVehicleData(url: string, dealership: DealershipData, fetch: Fetch<DetailPage>, isHttpUrl: string -> bool)
    returns (r: Option<VehicleData>, alerts: seq<Alert>)
    ensures r == CurrentRecord(url, dealership, fetch, isHttpUrl)
    ensures alerts == RecordAlerts(url, dealership, fetch, isHttpUrl)
  {
    var failed := [RecordFailed(url, dealership.dealershipName)];
    if fetch.Raised? {
      return None, failed;
    }
    var page := fetch.doc;
    var details;
    details, alerts := ExtractVehicleData(url, page, dealership);
    if details.None? {
      return None, alerts + failed;
    }
    var price := CurrentPrice(page.priceText);
    if price.None? || !isHttpUrl(url) {
      return None, alerts + failed;
    }
    r := Some(VehicleData(dealership.inventorySourceId, Some(url), Some("available"), price.value, details));
  }
}
