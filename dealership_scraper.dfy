/** Dealership reconciliation and contact-detail extraction,
    app/src/carguru_dealership/dealership_scraper.py. The dealership API is
    an oracle: `get_dealership` is the record list it returned (the empty
    list on a request error), `post_dealership` the outcome `post(i)` of
    posting dealership `i` of the input. */
module DealershipScraper {
  import opened Wrappers
  import opened PyText
  import opened Pages
  import opened Schemas

  // ---------------------------------------------------------------------
  // Known ids

  /** `get_existing_dealership_ids`: the ids of the records that are truthy,
      neither `None` nor the empty string. */
  function GetExistingDealershipIds(ds: seq<Dealership>): (r: set<string>)
    ensures forall x :: x in r <==> x != "" && exists i | 0 <= i < |ds| :: ds[i].id == Some(x)
    decreases |ds|
  {
    if ds == [] then {}
    else
      var init := ds[..|ds| - 1];
      var d := ds[|ds| - 1];
      assert forall i | 0 <= i < |init| :: init[i] == ds[i];
      GetExistingDealershipIds(init) + if d.id.Some? && d.id.value != "" then {d.id.value} else {}
  }

  // ---------------------------------------------------------------------
  // Posting new dealerships

  /** `dealership.id not in existing_ids`, negated: a `None` id is never a
      member of a set of strings. */
  predicate Known(existing: set<string>, id: Option<string>) {
    id.Some? && id.value in existing
  }

  /** The one-element lists `post_new_dealerships` hands to the API, in
      order: one per dealership whose id is not known. */
  function Posted(ds: seq<Dealership>, existing: set<string>): (r: seq<seq<Dealership>>)
    ensures |r| <= |ds|
    ensures forall k | 0 <= k < |r| :: |r[k]| == 1 && r[k][0] in ds && !Known(existing, r[k][0].id)
    decreases |ds|
  {
    if ds == [] then []
    else
      var init := ds[..|ds| - 1];
      var d := ds[|ds| - 1];
      assert forall x | x in init :: x in ds;
      Posted(init, existing) + if Known(existing, d.id) then [] else [[d]]
  }

  lemma {:induction false} PostedAppend(a: seq<Dealership>, b: seq<Dealership>, existing: set<string>)
    ensures Posted(a + b, existing) == Posted(a, existing) + Posted(b, existing)
    decreases |b|
  {
    if b == [] {
      assert a + b == a;
    } else {
      var n := |b| - 1;
      assert (a + b)[..|a + b| - 1] == a + b[..n];
      assert (a + b)[|a + b| - 1] == b[n];
      PostedAppend(a, b[..n], existing);
    }
  }

  /** A dealership is posted exactly when it occurs in the input and its id
      is not known. */
  lemma {:induction false} PostedIffUnknown(ds: seq<Dealership>, existing: set<string>, d: Dealership)
    ensures [d] in Posted(ds, existing) <==> d in ds && !Known(existing, d.id)
    decreases |ds|
  {
    if ds != [] {
      var init := ds[..|ds| - 1];
      PostedIffUnknown(init, existing, d);
      assert ds == init + [ds[|ds| - 1]];
      if d in ds && !Known(existing, d.id) && d !in init {
        assert d == ds[|ds| - 1];
      }
      if [d] in Posted(ds, existing) {
        var k :| 0 <= k < |Posted(ds, existing)| && Posted(ds, existing)[k] == [d];
        assert Posted(ds, existing)[k][0] == d;
      }
    }
  }

  /** `existing_ids` is never updated inside the loop, so a new dealership
      listed `n` times is posted `n` times. */
  lemma {:induction false} RepeatedNewDealershipPostedEachTime(d: Dealership, existing: set<string>, n: nat)
    requires !Known(existing, d.id)
    ensures Posted(seq(n, _ => d), existing) == seq(n, _ => [d])
  {
    if n > 0 {
      var ds := seq(n, _ => d);
      assert ds[..n - 1] == seq(n - 1, _ => d);
      RepeatedNewDealershipPostedEachTime(d, existing, n - 1);
      assert seq(n - 1, _ => [d]) + [[d]] == seq(n, _ => [d]);
    }
  }

  /** `post_new_dealerships`: one result per input dealership, in order; a
      known dealership is skipped with `False`, any other is posted and
      gets the post outcome. */
  method PostNewDealerships(ds: seq<Dealership>, existing: set<string>, post: nat -> bool)
    returns (results: seq<bool>, posted: seq<seq<Dealership>>)
    ensures |results| == |ds|
    ensures forall i | 0 <= i < |ds| :: Known(existing, ds[i].id) ==> !results[i]
    ensures forall i | 0 <= i < |ds| :: !Known(existing, ds[i].id) ==> results[i] == post(i)
    ensures posted == Posted(ds, existing)
  {
    results, posted := [], [];
    for i := 0 to |ds|
      invariant |results| == i
      invariant forall k | 0 <= k < i :: results[k] == (!Known(existing, ds[k].id) && post(k))
      invariant posted == Posted(ds[..i], existing)
    {
      assert ds[..i + 1][..i] == ds[..i];
      if !Known(existing, ds[i].id) {
        var ok := post(i);
        posted := posted + [[ds[i]]];
        results := results + [ok];
      } else {
        results := results + [false];
      }
    }
    assert ds[..|ds|] == ds;
  }

  // ---------------------------------------------------------------------
  // Projection

  /** The list comprehension of `fetch_dealership_data`. Reading
      `inventory_source.url` of a record without inventory source raises
      `AttributeError`, which nothing in the function catches. */
  function FetchDealershipData(records: seq<Dealership>): (r: Result<seq<DealershipData>>)
    ensures r.Err? <==> exists i | 0 <= i < |records| :: records[i].inventorySource.None?
    ensures r.Err? ==> r.error == MissingInventorySource
    ensures r.Ok? ==> |r.value| == |records|
    ensures r.Ok? ==> forall i | 0 <= i < |records| ::
      && r.value[i].dealershipId == records[i].id
      && r.value[i].dealershipName == records[i].name
      && r.value[i].inventorySourceId == records[i].inventorySourceId
      && r.value[i].url == records[i].inventorySource.value.url
      && r.value[i].category == records[i].inventorySource.value.category
  {
    if exists i | 0 <= i < |records| :: records[i].inventorySource.None? then Err(MissingInventorySource)
    else
      Ok(seq(|records|, i requires 0 <= i < |records| =>
        var s := records[i].inventorySource.value;
        DealershipData(records[i].id, records[i].name, s.url, records[i].inventorySourceId, s.category)))
  }

  /** The projection works record by record. */
  lemma FetchAppend(a: seq<Dealership>, b: seq<Dealership>)
    requires FetchDealershipData(a).Ok? && FetchDealershipData(b).Ok?
    ensures FetchDealershipData(a + b) == Ok(FetchDealershipData(a).value + FetchDealershipData(b).value)
  {
    var ab := a + b;
    forall i | 0 <= i < |ab|
      ensures ab[i].inventorySource.Some?
    {
      if i < |a| {
        assert ab[i] == a[i];
      } else {
        assert ab[i] == b[i - |a|];
      }
    }
    var fa, fb := FetchDealershipData(a).value, FetchDealershipData(b).value;
    assert FetchDealershipData(ab).Ok?;
    var fab := FetchDealershipData(ab).value;
    forall i | 0 <= i < |ab|
      ensures fab[i] == (fa + fb)[i]
    {
      if i < |a| {
        assert ab[i] == a[i];
      } else {
        assert ab[i] == b[i - |a|];
      }
    }
    assert fab == fa + fb;
  }

  // ---------------------------------------------------------------------
  // Contact details

  /** The `src` of the logo image: `None` when there is no image or the
      image has no `src`. */
  function LogoSrc(logo: Option<Option<string>>): Option<string> {
    if logo.Some? then logo.value else None
  }

  /** An optional `HttpUrl` field accepts its value. */
  predicate UrlAccepted(u: Option<string>, isHttpUrl: string -> bool) {
    u.None? || isHttpUrl(u.value)
  }

  /** `' '.join(strings).strip()` of the direct text children. */
  function Address(infoStrings: Option<seq<string>>): (r: Option<string>)
    ensures r.Some? <==> infoStrings.Some?
    ensures r.Some? && r.value != [] ==> !IsSpace(r.value[0]) && !IsSpace(r.value[|r.value| - 1])
  {
    match infoStrings
    case None => None
    case Some(ss) => Some(Strip(JoinWords(ss)))
  }

  /** `extract_dealership_data`: every field is `None` exactly when its
      selector matches nothing (the logo also when the image has no `src`);
      validation of the two `HttpUrl` fields is the only failure, and the
      `except` turns it into `None`. */
  function ExtractDealershipData(page: DealerPage, isHttpUrl: string -> bool): (r: Option<DealershipDetails>)
    ensures r.Some? <==> UrlAccepted(page.link, isHttpUrl) && UrlAccepted(LogoSrc(page.logo), isHttpUrl)
    ensures r.Some? ==> (r.value.title.None? <==> page.title.None?)
    ensures r.Some? ==> (r.value.link.None? <==> page.link.None?)
    ensures r.Some? ==> (r.value.address.None? <==> page.infoStrings.None?)
    ensures r.Some? ==> (r.value.phone.None? <==> page.phone.None?)
    ensures r.Some? ==> (r.value.hoursOperation.None? <==> page.hours.None?)
    ensures r.Some? ==> (r.value.logo.None? <==> page.logo.None? || page.logo.value.None?)
    ensures r.Some? ==> (r.value.title == page.title && r.value.link == page.link
      && r.value.phone == page.phone && r.value.hoursOperation == page.hours)
    ensures r.Some? && page.logo.Some? && page.logo.value.Some? ==> r.value.logo == page.logo.value
    ensures r.Some? ==> r.value.address == Address(page.infoStrings)
  {
    var logo := LogoSrc(page.logo);
    if UrlAccepted(page.link, isHttpUrl) && UrlAccepted(logo, isHttpUrl) then
      Some(DealershipDetails(page.title, page.link, Address(page.infoStrings), page.phone, page.hours, logo))
    else None
  }

  /** The alert the `except` of `extract_dealership_data` sends: one naming
      the dealership and its URL, exactly when the extraction fails. */
  function DealerDetailsAlerts(dealershipName: string, url: string, page: DealerPage, isHttpUrl: string -> bool): (alerts: seq<Alert>)
    ensures alerts == [] <==> ExtractDealershipData(page, isHttpUrl).Some?
    ensures alerts != [] ==> alerts == [DealerDetailsFailed(dealershipName, url)]
  {
    if ExtractDealershipData(page, isHttpUrl).None? then [DealerDetailsFailed(dealershipName, url)] else []
  }

  /** A logo whose `src` is not an HTTP URL fails the extraction and is
      reported, however well-formed the other fields are. */
  lemma BadLogoAlerts(dealershipName: string, url: string, page: DealerPage, isHttpUrl: string -> bool)
    requires page.logo.Some? && page.logo.value.Some? && !isHttpUrl(page.logo.value.value)
    ensures ExtractDealershipData(page, isHttpUrl).None?
    ensures DealerDetailsAlerts(dealershipName, url, page, isHttpUrl) == [DealerDetailsFailed(dealershipName, url)]
  {
  }

  /** The first and last characters of a space-joined list of words. */
  lemma {:induction false} JoinWordsEnds(ws: seq<string>)
    requires ws != []
    requires forall k | 0 <= k < |ws| :: ws[k] != [] && NoSpace(ws[k])
    ensures JoinWords(ws) != []
    ensures JoinWords(ws)[0] == ws[0][0]
    ensures JoinWords(ws)[|JoinWords(ws)| - 1] == ws[|ws| - 1][|ws[|ws| - 1]| - 1]
  {
    if |ws| > 1 {
      var tail := ws[1..];
      assert forall k | 0 <= k < |tail| :: tail[k] == ws[k + 1];
      JoinWordsEnds(tail);
      var j := JoinWords(ws);
      assert j == ws[0] + " " + JoinWords(tail);
      assert j[|j| - 1] == JoinWords(tail)[|JoinWords(tail)| - 1];
    }
  }

  /** Text children that are single words give the address with one space
      between words and no padding. */
  lemma AddressOfWords(ws: seq<string>)
    requires forall k | 0 <= k < |ws| :: ws[k] != [] && NoSpace(ws[k])
    ensures Address(Some(ws)) == Some(JoinWords(ws))
  {
    if ws != [] {
      JoinWordsEnds(ws);
      var first, last := ws[0], ws[|ws| - 1];
      assert !IsSpace(first[0]) && !IsSpace(last[|last| - 1]);
      StripTrimmed(JoinWords(ws));
    }
  }
}
