/** Deduplication and retried delivery of vehicle records,
    app/src/carguru_vehicle/vehicle_data_processing.py. A record is the
    dictionary `model_dump(exclude_none=True)` made, so a `None`
    `listingUrl` is a missing `listing_url` key, and indexing it raises
    `KeyError`. */
module VehicleDataProcessing {
  import opened Wrappers
  import opened Pages
  import opened Schemas

  // ---------------------------------------------------------------------
  // Duplicates

  /** `is_duplicate_vehicle_data`: `any` over the existing records in order,
      each test reading the record's `listing_url` and then the entry's; the
      first missing key raises. */
  function IsDuplicate(existing: seq<VehicleData>, entry: VehicleData): (r: Result<bool>)
    ensures existing == [] ==> r == Ok(false)
    ensures r == Ok(true) ==> entry.listingUrl.Some? && exists i | 0 <= i < |existing| :: existing[i].listingUrl == entry.listingUrl
    ensures r.Err? ==> r.error == MissingListingUrl && existing != []
    ensures r.Err? ==> entry.listingUrl.None? || exists i | 0 <= i < |existing| :: existing[i].listingUrl.None?
  {
    if existing == [] then Ok(false)
    else if existing[0].listingUrl.None? || entry.listingUrl.None? then Err(MissingListingUrl)
    else if existing[0].listingUrl == entry.listingUrl then Ok(true)
    else
      var r := IsDuplicate(existing[1..], entry);
      assert r == Ok(true) ==> exists i | 1 <= i < |existing| :: existing[i].listingUrl == entry.listingUrl by {
        if r == Ok(true) {
          var i :| 0 <= i < |existing[1..]| && existing[1..][i].listingUrl == entry.listingUrl;
          assert existing[i + 1] == existing[1..][i];
        }
      }
      assert r.Err? && entry.listingUrl.Some? ==> exists i | 1 <= i < |existing| :: existing[i].listingUrl.None? by {
        if r.Err? && entry.listingUrl.Some? {
          var i :| 0 <= i < |existing[1..]| && existing[1..][i].listingUrl.None?;
          assert existing[i + 1] == existing[1..][i];
        }
      }
      r
  }

  /** Every URL is present. */
  predicate AllListed(existing: seq<VehicleData>) {
    forall i | 0 <= i < |existing| :: existing[i].listingUrl.Some?
  }

  /** When every URL is present, the test succeeds and is true exactly when
      some existing record has the entry's URL. */
  lemma {:induction false} IsDuplicateIffListed(existing: seq<VehicleData>, entry: VehicleData)
    requires AllListed(existing) && entry.listingUrl.Some?
    ensures IsDuplicate(existing, entry) == Ok(exists i | 0 <= i < |existing| :: existing[i].listingUrl == entry.listingUrl)
    decreases |existing|
  {
    if existing != [] && existing[0].listingUrl != entry.listingUrl {
      var tail := existing[1..];
      assert forall i | 0 <= i < |tail| :: tail[i] == existing[i + 1];
      IsDuplicateIffListed(tail, entry);
      assert (exists i | 0 <= i < |existing| :: existing[i].listingUrl == entry.listingUrl)
        ==> exists i | 0 <= i < |tail| :: tail[i].listingUrl == entry.listingUrl by {
        if exists i | 0 <= i < |existing| :: existing[i].listingUrl == entry.listingUrl {
          var i :| 0 <= i < |existing| && existing[i].listingUrl == entry.listingUrl;
          assert tail[i - 1] == existing[i];
        }
      }
    }
  }

  // ---------------------------------------------------------------------
  // Delivery with retries

  /** How the delivery of one record ended: posted, out of attempts, or the
      task raised (the `KeyError` of a record without `listing_url`). */
  datatype Delivery = Delivered | Exhausted | Crashed

  /** One run of `post_vehicle_with_retry`: how many posts it made, how many
      times it slept, how it ended, and the alerts it sent. */
  datatype PostReport = PostReport(posts: nat, pauses: nat, outcome: Delivery, alerts: seq<Alert>)

  /** The first attempt below `k` whose post succeeds (oracle `post(n, j)`:
      attempt `j` of record `n`). */
  function FirstSuccess(post: (nat, nat) -> bool, n: nat, k: nat): (r: Option<nat>)
    ensures r.Some? ==> r.value < k && post(n, r.value) && forall j | 0 <= j < r.value :: !post(n, j)
    ensures r.None? ==> forall j | 0 <= j < k :: !post(n, j)
  {
    if k == 0 then None
    else
      match FirstSuccess(post, n, k - 1)
      case Some(j) => Some(j)
      case None => if post(n, k - 1) then Some(k - 1) else None
  }

  /** What `post_vehicle_with_retry` does for record `n` with at most `K`
      attempts: post until the first success; sleep only between attempts;
      on exhaustion send one alert naming the URL. A record without URL
      raises at the first log line after its first post, or, when no
      attempt is allowed at all, at the final message. */
  function RetryReport(url: Option<string>, K: int, post: (nat, nat) -> bool, n: nat): (r: PostReport)
    ensures r.posts <= if K > 0 then K else 0
    ensures r.pauses == if r.posts == 0 then 0 else r.posts - 1
    ensures url.None? ==> r.outcome == Crashed && r.alerts == []
    ensures url.Some? ==> (r.outcome == Delivered <==> exists j | 0 <= j < K :: post(n, j))
    ensures r.outcome == Delivered ==> r.posts >= 1 && post(n, r.posts - 1) && forall j | 0 <= j < r.posts - 1 :: !post(n, j)
    ensures r.outcome == Exhausted ==> url.Some? && r.posts == (if K > 0 then K else 0) && r.alerts == [DeliveryFailed(url.value, r.posts)]
    ensures r.outcome != Exhausted ==> r.alerts == []
  {
    if K <= 0 then
      match url
      case None => PostReport(0, 0, Crashed, [])
      case Some(u) => PostReport(0, 0, Exhausted, [DeliveryFailed(u, 0)])
    else
      match url
      case None => PostReport(1, 0, Crashed, [])
      case Some(u) =>
        match FirstSuccess(post, n, K)
        case Some(j) => PostReport(j + 1, j, Delivered, [])
        case None => PostReport(K, K - 1, Exhausted, [DeliveryFailed(u, K)])
  }

  /** `post_vehicle_with_retry` for record `n`, as its loop. */
  method PostVehicleWithRetry(url: Option<string>, K: int, post: (nat, nat) -> bool, n: nat) returns (report: PostReport)
    ensures report == RetryReport(url, K, post, n)
  {
    var attempts: nat := 0;
    var success := false;
    var pauses: nat := 0;
    while attempts < K && !success
      invariant attempts <= if K > 0 then K else 0
      invariant !success ==> forall j | 0 <= j < attempts :: !post(n, j)
      invariant success ==> attempts >= 1 && post(n, attempts - 1) && forall j | 0 <= j < attempts - 1 :: !post(n, j)
      invariant attempts == 0 ==> pauses == 0
      invariant attempts > 0 ==> pauses == attempts - 1 + (if !success && attempts < K then 1 else 0)
      invariant attempts > 0 ==> url.Some?
      decreases K - attempts
    {
      success := post(n, attempts);
      attempts := attempts + 1;
      if url.None? {
        // the success or the retry log line indexes the missing key
        return PostReport(attempts, pauses, Crashed, []);
      }
      if !success && attempts < K {
        pauses := pauses + 1;
      }
    }
    if success {
      report := PostReport(attempts, pauses, Delivered, []);
    } else if url.None? {
      report := PostReport(attempts, pauses, Crashed, []);
    } else {
      report := PostReport(attempts, pauses, Exhausted, [DeliveryFailed(url.value, attempts)]);
    }
  }

  /** Fail, fail, succeed: three attempts deliver on the third post after two
      pauses; two attempts give up with one alert. */
  lemma ThirdPostDelivers(post: (nat, nat) -> bool, n: nat, u: string)
    requires !post(n, 0) && !post(n, 1) && post(n, 2)
    ensures RetryReport(Some(u), 3, post, n) == PostReport(3, 2, Delivered, [])
    ensures RetryReport(Some(u), 2, post, n) == PostReport(2, 1, Exhausted, [DeliveryFailed(u, 2)])
  {
    assert FirstSuccess(post, n, 2) == None;
  }

  // ---------------------------------------------------------------------
  // One batch

  /** The alerts one record's task leads to: those it sent itself, then the
      `Error occurred` alert of `process_batch` when the task raised. */
  function TaskAlerts(r: PostReport): (alerts: seq<Alert>)
    ensures |alerts| == |r.alerts| + (if r.outcome == Crashed then 1 else 0)
    ensures alerts[..|r.alerts|] == r.alerts
    ensures r.outcome == Crashed ==> alerts[|alerts| - 1] == TaskFailed
  {
    r.alerts + if r.outcome == Crashed then [TaskFailed] else []
  }

  /** All alerts of a sequence of tasks, in order. */
  function AlertsOf(reports: seq<PostReport>): seq<Alert>
    decreases |reports|
  {
    if reports == [] then []
    else AlertsOf(reports[..|reports| - 1]) + TaskAlerts(reports[|reports| - 1])
  }

  lemma {:induction false} AlertsOfAppend(a: seq<PostReport>, b: seq<PostReport>)
    ensures AlertsOf(a + b) == AlertsOf(a) + AlertsOf(b)
    decreases |b|
  {
    if b != [] {
      var n := |b| - 1;
      assert (a + b)[..|a + b| - 1] == a + b[..n];
      assert (a + b)[|a + b| - 1] == b[n];
      AlertsOfAppend(a, b[..n]);
    } else {
      assert a + b == a;
    }
  }

  /** One report per record of `records`, the first being record `offset`. */
  function Reports(records: seq<VehicleData>, offset: nat, K: int, post: (nat, nat) -> bool): (r: seq<PostReport>)
    ensures |r| == |records|
  {
    seq(|records|, i requires 0 <= i < |records| => RetryReport(records[i].listingUrl, K, post, offset + i))
  }

  /** Reports of consecutive slices join into the reports of the whole. */
  lemma ReportsAppend(records: seq<VehicleData>, x: nat, y: nat, K: int, post: (nat, nat) -> bool)
    requires x <= y <= |records|
    ensures Reports(records[..x], 0, K, post) + Reports(records[x..y], x, K, post) == Reports(records[..y], 0, K, post)
  {
    var lhs := Reports(records[..x], 0, K, post) + Reports(records[x..y], x, K, post);
    forall i | 0 <= i < y
      ensures lhs[i] == Reports(records[..y], 0, K, post)[i]
    {
      if i >= x {
        assert records[x..y][i - x] == records[..y][i];
      } else {
        assert records[..x][i] == records[..y][i];
      }
    }
  }

  /** One more record's report. */
  lemma ReportsSnoc(batch: seq<VehicleData>, i: nat, offset: nat, K: int, post: (nat, nat) -> bool)
    requires i < |batch|
    ensures Reports(batch[..i], offset, K, post) + [RetryReport(batch[i].listingUrl, K, post, offset + i)]
      == Reports(batch[..i + 1], offset, K, post)
  {
    assert batch[..i + 1][i] == batch[i];
    assert forall j | 0 <= j < i :: batch[..i + 1][j] == batch[..i][j];
  }

  /** One more task's alerts. */
  lemma AlertsOfSnoc(reports: seq<PostReport>, r: PostReport)
    ensures AlertsOf(reports + [r]) == AlertsOf(reports) + TaskAlerts(r)
  {
    assert (reports + [r])[..|reports|] == reports;
  }

  /** `process_batch`, sequentially: one `post_vehicle_with_retry` task per
      record of the batch, in order; a task that raises is reported and the
      remaining tasks still run. Record `i` of the batch is record
      `offset + i` of the whole run. */
  method ProcessBatch(batch: seq<VehicleData>, offset: nat, K: int, post: (nat, nat) -> bool)
    returns (reports: seq<PostReport>, alerts: seq<Alert>)
    ensures reports == Reports(batch, offset, K, post)
    ensures alerts == AlertsOf(reports)
  {
    reports, alerts := [], [];
    var i := 0;
    while i < |batch|
      invariant 0 <= i <= |batch|
      invariant reports == Reports(batch[..i], offset, K, post)
      invariant alerts == AlertsOf(reports)
    {
      var report := PostVehicleWithRetry(batch[i].listingUrl, K, post, offset + i);
      ReportsSnoc(batch, i, offset, K, post);
      AlertsOfSnoc(reports, report);
      reports := reports + [report];
      alerts := alerts + TaskAlerts(report);
      i := i + 1;
    }
    assert batch[..i] == batch;
  }
}
