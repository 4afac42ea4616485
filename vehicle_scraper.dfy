/** The retry wrapper and the dispatch of app/src/carguru_vehicle/vehicle_scraper.py:
    `safe_vehicle_process`, and `process_vehicle_data_post` (filter, batch
    arithmetic, batch loop). */
module VehicleScraper {
  import opened Wrappers
  import opened Pages
  import opened Schemas
  import opened VehicleDataProcessing

  // ---------------------------------------------------------------------
  // safe_vehicle_process

  /** One call of `process_vehicle_data`: it raised, or it returned (possibly `None`). */
  datatype Call = Threw | Returned(result: Option<VehicleData>)

  /** The first of the calls below `k` that returns. */
  function FirstReturn(call: nat -> Call, k: nat): (r: Option<nat>)
    ensures r.Some? ==> r.value < k && call(r.value).Returned? && forall j | 0 <= j < r.value :: call(j).Threw?
    ensures r.None? ==> forall j | 0 <= j < k :: call(j).Threw?
  {
    if k == 0 then None
    else
      match FirstReturn(call, k - 1)
      case Some(j) => Some(j)
      case None => if call(k - 1).Returned? then Some(k - 1) else None
  }

  /** `safe_vehicle_process`: up to three calls; the result of the first call
      that returns is the result, `None` included; every call that raises is
      followed by a pause; after three raising calls the result is `None`. */
  method SafeVehicleProcess(call: nat -> Call) returns (r: Option<VehicleData>, calls: nat, pauses: nat)
    ensures FirstReturn(call, 3).Some? ==>
      r == call(FirstReturn(call, 3).value).result && calls == FirstReturn(call, 3).value + 1 && pauses == FirstReturn(call, 3).value
    ensures FirstReturn(call, 3).None? ==> r == None && calls == 3 && pauses == 3
  {
    var retries := 3;
    calls, pauses := 0, 0;
    var attempt := 0;
    while attempt < retries
      invariant 0 <= attempt <= retries
      invariant calls == attempt && pauses == attempt
      invariant forall j | 0 <= j < attempt :: call(j).Threw?
    {
      calls := calls + 1;
      match call(attempt) {
        case Returned(res) =>
          return res, calls, pauses;
        case Threw =>
          pauses := pauses + 1;
      }
      attempt := attempt + 1;
    }
    r := None;
  }

  // ---------------------------------------------------------------------
  // Filtering

  /** The comprehension of `process_vehicle_data_post`: the new records, in
      order, that are not duplicates; a duplicate test that raises aborts it. */
  function FilterNew(existing: seq<VehicleData>, records: seq<VehicleData>): (r: Result<seq<VehicleData>>)
    ensures r.Ok? ==> |r.value| <= |records|
    ensures r.Err? ==> r.error == MissingListingUrl
  {
    if records == [] then Ok([])
    else
      match IsDuplicate(existing, records[0])
      case Err(e) => Err(e)
      case Ok(dup) =>
        match FilterNew(existing, records[1..])
        case Err(e) => Err(e)
        case Ok(rest) => Ok(if dup then rest else [records[0]] + rest)
  }

  /** No existing record has `x`'s URL. */
  predicate Unlisted(existing: seq<VehicleData>, x: VehicleData) {
    forall i | 0 <= i < |existing| :: existing[i].listingUrl != x.listingUrl
  }

  /** The records whose URL is not among the existing ones, in order. */
  function KeepUnlisted(existing: seq<VehicleData>, records: seq<VehicleData>): (r: seq<VehicleData>)
    ensures forall k | 0 <= k < |r| :: r[k] in records && Unlisted(existing, r[k])
    ensures forall k | 0 <= k < |records| :: Unlisted(existing, records[k]) ==> records[k] in r
  {
    if records == [] then []
    else
      var rest := KeepUnlisted(existing, records[1..]);
      assert forall k | 1 <= k < |records| :: records[k] == records[1..][k - 1];
      (if Unlisted(existing, records[0]) then [records[0]] else []) + rest
  }

  /** When every URL is present the filter cannot fail, and it keeps exactly
      the records whose URL no existing record has, in input order. */
  lemma {:induction false} FilterNewKeepsUnlisted(existing: seq<VehicleData>, records: seq<VehicleData>)
    requires AllListed(existing) && AllListed(records)
    ensures FilterNew(existing, records) == Ok(KeepUnlisted(existing, records))
    decreases |records|
  {
    if records != [] {
      var tail := records[1..];
      assert AllListed(tail) by {
        assert forall k | 0 <= k < |tail| :: tail[k] == records[k + 1];
      }
      FilterNewKeepsUnlisted(existing, tail);
      assert records[0].listingUrl.Some?;
      IsDuplicateIffListed(existing, records[0]);
      var dup := exists i | 0 <= i < |existing| :: existing[i].listingUrl == records[0].listingUrl;
      assert Unlisted(existing, records[0]) == !dup;
      assert IsDuplicate(existing, records[0]) == Ok(dup);
      assert FilterNew(existing, records) == Ok(if dup then KeepUnlisted(existing, tail) else [records[0]] + KeepUnlisted(existing, tail));
      assert KeepUnlisted(existing, records) == (if !dup then [records[0]] else []) + KeepUnlisted(existing, tail);
      assert [] + KeepUnlisted(existing, tail) == KeepUnlisted(existing, tail);
    }
  }

  /** Nothing existing: nothing is filtered out, and no URL is read. */
  lemma {:induction false} FilterNewWithoutExisting(records: seq<VehicleData>)
    ensures FilterNew([], records) == Ok(records)
    decreases |records|
  {
    if records != [] {
      FilterNewWithoutExisting(records[1..]);
      assert IsDuplicate([], records[0]) == Ok(false);
      assert [records[0]] + records[1..] == records;
    }
  }

  // ---------------------------------------------------------------------
  // Batch arithmetic

  /** `ceil(total / chunk)` as the number of loop rounds: a zero chunk divides
      by zero; a negative chunk gives a non-positive count, so no rounds. */
  function BatchCount(total: nat, chunk: int): (r: Result<nat>)
    ensures r.Err? <==> chunk == 0
    ensures r.Err? ==> r.error == DivisionByZero
    ensures chunk < 0 ==> r == Ok(0)
    ensures chunk > 0 ==> r.value * chunk >= total && (r.value == 0 || (r.value - 1) * chunk < total)
    ensures chunk > 0 ==> (r.value == 0 <==> total == 0)
  {
    if chunk == 0 then Err(DivisionByZero)
    else if chunk < 0 then Ok(0)
    else
      var n := (total + chunk - 1) / chunk;
      assert n * chunk >= total && (n == 0 || (n - 1) * chunk < total) by {
        var q := total + chunk - 1;
        assert q == n * chunk + q % chunk;
        assert (n - 1) * chunk == n * chunk - chunk;
      }
      Ok(n)
  }

  /** Python's `s[lo:hi]` for non-negative bounds: both clamped to the
      length, empty when `hi` is not past `lo`. */
  function PySlice<T>(s: seq<T>, lo: nat, hi: nat): (r: seq<T>)
    ensures lo <= hi <= |s| ==> r == s[lo..hi]
    ensures |r| <= |s|
  {
    var a := if lo <= |s| then lo else |s|;
    var b := if hi <= |s| then hi else |s|;
    if a <= b then s[a..b] else []
  }

  /** Batch `b`: `s[b*chunk : b*chunk + chunk]`. */
  function Chunk<T>(s: seq<T>, b: nat, chunk: nat): seq<T> {
    PySlice(s, b * chunk, b * chunk + chunk)
  }

  /** The first `n` batches. */
  function Chunks<T>(s: seq<T>, chunk: nat, n: nat): (r: seq<seq<T>>)
    ensures |r| == n
  {
    seq(n, b requires 0 <= b < n => Chunk(s, b, chunk))
  }

  /** The concatenation of a sequence of batches, in order. */
  function Flatten<T>(ss: seq<seq<T>>): seq<T>
    decreases |ss|
  {
    if ss == [] then [] else Flatten(ss[..|ss| - 1]) + ss[|ss| - 1]
  }

  /** The records covered by the first `b` batches. */
  function Covered(total: nat, chunk: nat, b: nat): (c: nat)
    ensures c <= total
  {
    if b * chunk <= total then b * chunk else total
  }

  /** Batch `b` is the stretch between the coverage of `b` and of `b + 1` batches. */
  lemma ChunkBetween<T>(s: seq<T>, b: nat, chunk: nat)
    requires chunk > 0
    ensures Covered(|s|, chunk, b) <= Covered(|s|, chunk, b + 1)
    ensures Chunk(s, b, chunk) == s[Covered(|s|, chunk, b)..Covered(|s|, chunk, b + 1)]
  {
    assert (b + 1) * chunk == b * chunk + chunk;
  }

  /** The first `b` batches, concatenated, are the first `Covered(b)` records. */
  lemma {:induction false} FlattenChunksPrefix<T>(s: seq<T>, chunk: nat, n: nat, b: nat)
    requires chunk > 0 && b <= n
    ensures Flatten(Chunks(s, chunk, n)[..b]) == s[..Covered(|s|, chunk, b)]
    decreases b
  {
    if b > 0 {
      var cs := Chunks(s, chunk, n);
      assert cs[..b][..b - 1] == cs[..b - 1];
      FlattenChunksPrefix(s, chunk, n, b - 1);
      ChunkBetween(s, b - 1, chunk);
      var x, y := Covered(|s|, chunk, b - 1), Covered(|s|, chunk, b);
      assert s[..x] + s[x..y] == s[..y];
    } else {
      assert Covered(|s|, chunk, 0) == 0;
    }
  }

  /** Multiplying by a non-negative factor keeps the order. */
  lemma MulMono(a: nat, b: nat, c: nat)
    requires a <= b
    ensures a * c <= b * c
  {
    assert b * c - a * c == (b - a) * c;
  }

  /** Every batch below the count starts inside the records, on a multiple
      of the chunk. */
  lemma BatchStart(total: nat, chunk: nat, b: nat)
    requires chunk > 0 && b < BatchCount(total, chunk).value
    ensures b * chunk < total
    ensures Covered(total, chunk, b) == b * chunk
  {
    var n := BatchCount(total, chunk).value;
    MulMono(b, n - 1, chunk);
  }

  /** The batches, counted as `ceil` counts them, cover every record. */
  lemma BatchesCoverAll(total: nat, chunk: nat)
    requires chunk > 0
    ensures Covered(total, chunk, BatchCount(total, chunk).value) == total
  {
  }

  /** Batch `b` has `chunk` records, except the last, which has between one
      and `chunk`. */
  lemma BatchSize<T>(s: seq<T>, chunk: nat, b: nat)
    requires chunk > 0 && b < BatchCount(|s|, chunk).value
    ensures b < BatchCount(|s|, chunk).value - 1 ==> |Chunk(s, b, chunk)| == chunk
    ensures b == BatchCount(|s|, chunk).value - 1 ==> 1 <= |Chunk(s, b, chunk)| <= chunk
  {
    var n := BatchCount(|s|, chunk).value;
    ChunkBetween(s, b, chunk);
    BatchStart(|s|, chunk, b);
    if b < n - 1 {
      BatchStart(|s|, chunk, b + 1);
      assert (b + 1) * chunk == b * chunk + chunk;
    }
  }

  /** With a positive chunk the batches partition the records: joined in
      order they give back exactly the records; every batch but the last has
      `chunk` records and the last has between one and `chunk`. */
  lemma BatchesPartition<T>(s: seq<T>, chunk: int)
    requires chunk > 0
    ensures var n := BatchCount(|s|, chunk).value;
      && Flatten(Chunks(s, chunk, n)) == s
      && (forall b | 0 <= b < n - 1 :: |Chunks(s, chunk, n)[b]| == chunk)
      && (n > 0 ==> 1 <= |Chunks(s, chunk, n)[n - 1]| <= chunk)
  {
    var n := BatchCount(|s|, chunk).value;
    var cs := Chunks(s, chunk, n);
    FlattenChunksPrefix(s, chunk, n, n);
    assert cs[..n] == cs;
    BatchesCoverAll(|s|, chunk);
    assert s[..|s|] == s;
    forall b | 0 <= b < n
      ensures b < n - 1 ==> |cs[b]| == chunk
      ensures b == n - 1 ==> 1 <= |cs[b]| <= chunk
    {
      BatchSize(s, chunk, b);
    }
  }

  /** Five records in chunks of two: three batches of sizes 2, 2 and 1. */
  lemma FiveInChunksOfTwo<T>(s: seq<T>)
    requires |s| == 5
    ensures BatchCount(5, 2) == Ok(3)
    ensures |Chunks(s, 2, 3)[0]| == 2 && |Chunks(s, 2, 3)[1]| == 2 && |Chunks(s, 2, 3)[2]| == 1
  {
  }

  // ---------------------------------------------------------------------
  // process_vehicle_data_post

  /** What a dispatch run did: the batches in the order they were handed
      over, one report per record posted, and the alerts raised. */
  datatype PostRun = PostRun(batches: seq<seq<VehicleData>>, reports: seq<PostReport>, alerts: seq<Alert>)

  /** Handing batch `b` over extends the batches by `Chunk(b)` and the
      reports of the covered records by those of batch `b`. */
  lemma BatchStep(filtered: seq<VehicleData>, c: nat, n: nat, b: nat, K: int, post: (nat, nat) -> bool)
    requires c > 0 && n == BatchCount(|filtered|, c).value && b < n
    ensures Chunks(filtered, c, n)[..b + 1] == Chunks(filtered, c, n)[..b] + [Chunk(filtered, b, c)]
    ensures Reports(filtered[..Covered(|filtered|, c, b)], 0, K, post) + Reports(Chunk(filtered, b, c), b * c, K, post)
      == Reports(filtered[..Covered(|filtered|, c, b + 1)], 0, K, post)
  {
    var cs := Chunks(filtered, c, n);
    assert cs[..b + 1] == cs[..b] + [cs[b]];
    ChunkBetween(filtered, b, c);
    BatchStart(|filtered|, c, b);
    ReportsAppend(filtered, Covered(|filtered|, c, b), Covered(|filtered|, c, b + 1), K, post);
  }

  /** The batch loop of `process_vehicle_data_post`: batch `b` is the slice
      `[b*chunk : b*chunk + chunk]`, handed to `process_batch` as records
      `b*chunk` onwards. */
  method SendBatches(filtered: seq<VehicleData>, c: nat, totalBatches: nat, K: int, post: (nat, nat) -> bool)
    returns (batches: seq<seq<VehicleData>>, reports: seq<PostReport>, alerts: seq<Alert>)
    requires c > 0 && totalBatches == BatchCount(|filtered|, c).value
    ensures batches == Chunks(filtered, c, totalBatches)
    ensures reports == Reports(filtered, 0, K, post)
    ensures alerts == AlertsOf(reports)
  {
    batches, reports, alerts := [], [], [];
    var batchNumber := 0;
    while batchNumber < totalBatches
      invariant 0 <= batchNumber <= totalBatches
      invariant batches == Chunks(filtered, c, totalBatches)[..batchNumber]
      invariant reports == Reports(filtered[..Covered(|filtered|, c, batchNumber)], 0, K, post)
      invariant alerts == AlertsOf(reports)
    {
      var startIdx := batchNumber * c;
      var endIdx := startIdx + c;
      var currentBatch := PySlice(filtered, startIdx, endIdx);
      var batchReports, batchAlerts := ProcessBatch(currentBatch, startIdx, K, post);
      BatchStep(filtered, c, totalBatches, batchNumber, K, post);
      AlertsOfAppend(reports, batchReports);
      batches := batches + [currentBatch];
      reports := reports + batchReports;
      alerts := alerts + batchAlerts;
      batchNumber := batchNumber + 1;
    }
    assert batches == Chunks(filtered, c, totalBatches);
    BatchesCoverAll(|filtered|, c);
    assert filtered[..|filtered|] == filtered;
  }

  /** `process_vehicle_data_post`, given the existing records that
      `get_vehicle` returned: filter, count the batches, and hand each batch
      in increasing order to `process_batch`. Record `k` of the filtered
      list is record `k` of the post oracle. */
  method ProcessVehicleDataPost(existing: seq<VehicleData>, newData: seq<VehicleData>, chunk: int, K: int, post: (nat, nat) -> bool)
    returns (r: Result<PostRun>)
    ensures r.Err? <==> FilterNew(existing, newData).Err? || chunk == 0
    ensures r.Err? ==> r.error == (if FilterNew(existing, newData).Err? then MissingListingUrl else DivisionByZero)
    ensures r.Ok? ==> && FilterNew(existing, newData).Ok?
                      && r.value.batches == (if chunk > 0 then Chunks(FilterNew(existing, newData).value, chunk, BatchCount(|FilterNew(existing, newData).value|, chunk).value) else [])
    ensures r.Ok? ==> r.value.reports == Reports(Flatten(r.value.batches), 0, K, post)
    ensures r.Ok? ==> r.value.alerts == AlertsOf(r.value.reports)
  {
    var filtered: seq<VehicleData>;
    match FilterNew(existing, newData) {
      case Err(e) => return Err(e);
      case Ok(f) => filtered := f;
    }
    var total := |filtered|;
    var totalBatches: nat;
    match BatchCount(total, chunk) {
      case Err(e) => return Err(e);
      case Ok(n) => totalBatches := n;
    }
    if chunk < 0 {
      // range() of a non-positive count: no rounds
      return Ok(PostRun([], [], []));
    }
    var batches, reports, alerts := SendBatches(filtered, chunk, totalBatches, K, post);
    BatchesPartition(filtered, chunk);
    r := Ok(PostRun(batches, reports, alerts));
  }
}
