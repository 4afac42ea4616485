/** Page count discovery and the page-by-page link walk, shared by the
    current extractor (app/src/carguru_vehicle/vehicle_data_extraction.py)
    and the legacy scraper (app/src/scraper.py), whose loops have the same
    shape and differ only in how one page's links are extracted. */
module Pagination {
  import opened Wrappers
  import opened PyText
  import opened Pages

  // ---------------------------------------------------------------------
  // Page count

  /** The `string=` filter of the page-indicator lookup: a non-empty span
      string that contains "Page". */
  predicate IsIndicator(o: Option<string>) {
    o.Some? && o.value != [] && HasInfix(o.value, "Page")
  }

  /** Position of the first indicator span, `|spans|` when there is none. */
  function FirstIndicator(spans: seq<Option<string>>): (k: nat)
    ensures k <= |spans|
    ensures k < |spans| ==> IsIndicator(spans[k])
    ensures forall j | 0 <= j < k :: !IsIndicator(spans[j])
  {
    if spans == [] then 0
    else if IsIndicator(spans[0]) then 0
    else 1 + FirstIndicator(spans[1..])
  }

  /** The text of the span `find` returns, if any. */
  function PageIndicator(doc: ListingPage): Option<string> {
    var k := FirstIndicator(doc.spanStrings);
    if k < |doc.spanStrings| then doc.spanStrings[k] else None
  }

  /** `get_total_pages`: the last whitespace token of the indicator when the
      text has at least four tokens and that token is all digits; 1 otherwise. */
  function TotalPages(doc: ListingPage): (n: nat)
    ensures PageIndicator(doc).None? ==> n == 1
    ensures n != 1 ==> PageIndicator(doc).Some? && PagesOfIndicator(PageIndicator(doc).value) == n
  {
    match PageIndicator(doc)
    case None => 1
    case Some(text) => PagesOfIndicator(text)
  }

  /** The page count one indicator text gives. */
  function PagesOfIndicator(text: string): (n: nat)
    ensures n != 1 ==> var parts := Split(text);
                       && |parts| >= 4
                       && IsDigitString(parts[|parts| - 1])
                       && DigitsValue(parts[|parts| - 1]) == n
  {
    var parts := Split(text);
    if |parts| >= 4 && IsDigitString(parts[|parts| - 1]) then DigitsValue(parts[|parts| - 1]) else 1
  }

  /** A listing page without any "Page" span has one page. */
  lemma TotalPagesWithoutIndicator(doc: ListingPage)
    requires forall i | 0 <= i < |doc.spanStrings| :: !IsIndicator(doc.spanStrings[i])
    ensures TotalPages(doc) == 1
  {
    assert FirstIndicator(doc.spanStrings) == |doc.spanStrings|;
  }

  /** When the indicator reads as a list of words, the page count is the
      last word's value exactly when there are at least four words and the
      last one is a numeral. */
  lemma TotalPagesOfWords(doc: ListingPage, words: seq<string>)
    requires forall i | 0 <= i < |words| :: words[i] != [] && NoSpace(words[i])
    requires PageIndicator(doc) == Some(JoinWords(words))
    ensures |words| >= 4 && IsDigitString(words[|words| - 1]) ==> TotalPages(doc) == DigitsValue(words[|words| - 1])
    ensures !(|words| >= 4 && IsDigitString(words[|words| - 1])) ==> TotalPages(doc) == 1
  {
    var text := JoinWords(words);
    assert TotalPages(doc) == PagesOfIndicator(text);
    SplitJoinWords(words);
  }

  /** The span text of `words`, one space apart. */
  lemma JoinFourWords(w0: string, w1: string, w2: string, w3: string)
    ensures JoinWords([w0, w1, w2, w3]) == w0 + " " + w1 + " " + w2 + " " + w3
  {
    var ws := [w0, w1, w2, w3];
    assert JoinWords([w3]) == w3;
    assert [w2, w3][1..] == [w3];
    assert JoinWords([w2, w3]) == w2 + " " + w3;
    assert [w1, w2, w3][1..] == [w2, w3];
    assert JoinWords([w1, w2, w3]) == w1 + " " + w2 + " " + w3;
    assert ws[1..] == [w1, w2, w3];
  }

  /** A listing page whose only indicator is its single span. */
  lemma LoneIndicator(text: string, anchors: seq<Anchor>)
    requires |text| >= 4 && text[..4] == "Page"
    ensures PageIndicator(ListingPage([Some(text)], anchors)) == Some(text)
  {
    assert IsIndicator(Some(text));
  }

  /** "Page <a> of <b>": the count is the value of `b` when `b` is a
      numeral, one otherwise. */
  lemma TotalPagesOfPageOf(a: string, b: string, anchors: seq<Anchor>)
    requires a != [] && NoSpace(a) && b != [] && NoSpace(b)
    ensures TotalPages(ListingPage([Some("Page" + " " + a + " " + "of" + " " + b)], anchors))
      == if IsDigitString(b) then DigitsValue(b) else 1
  {
    var text := "Page" + " " + a + " " + "of" + " " + b;
    var words := ["Page", a, "of", b];
    JoinFourWords("Page", a, "of", b);
    assert text[..4] == "Page";
    LoneIndicator(text, anchors);
    TotalPagesOfWords(ListingPage([Some(text)], anchors), words);
  }

  /** "Page <m> of <n>" with numerals gives `n` pages: "Page 1 of 5" gives
      five pages. */
  lemma TotalPagesOfCount(m: nat, n: nat, anchors: seq<Anchor>)
    ensures TotalPages(ListingPage([Some("Page" + " " + NatToString(m) + " " + "of" + " " + NatToString(n))], anchors)) == n
  {
    DigitsNoSpace(NatToString(m));
    DigitsNoSpace(NatToString(n));
    TotalPagesOfPageOf(NatToString(m), NatToString(n), anchors);
    NatToStringValue(n);
  }

  /** An indicator of two tokens, "Page <a>", falls back to one page. */
  lemma TotalPagesOfShortIndicator(a: string, anchors: seq<Anchor>)
    requires a != [] && NoSpace(a)
    ensures TotalPages(ListingPage([Some("Page" + " " + a)], anchors)) == 1
  {
    var text := "Page" + " " + a;
    var words := ["Page", a];
    assert words[1..] == [a];
    assert text[..4] == "Page";
    LoneIndicator(text, anchors);
    TotalPagesOfWords(ListingPage([Some(text)], anchors), words);
  }

  // ---------------------------------------------------------------------
  // Links of one page

  /** The anchors `keep` selects, in document order. */
  function Selected(anchors: seq<Anchor>, keep: Anchor -> bool): (r: seq<Anchor>)
    ensures |r| <= |anchors|
    ensures forall k | 0 <= k < |r| :: keep(r[k]) && r[k] in anchors
  {
    if anchors == [] then []
    else (if keep(anchors[0]) then [anchors[0]] else []) + Selected(anchors[1..], keep)
  }

  /** The selected anchors' hrefs, each resolved against `base` by `join`
      (the model of `urljoin`). */
  function SelectedLinks(anchors: seq<Anchor>, base: string, join: (string, string) -> string, keep: Anchor -> bool): (r: seq<string>)
    ensures |r| <= |anchors|
  {
    if anchors == [] then []
    else (if keep(anchors[0]) then [join(base, anchors[0].href.GetOr(""))] else [])
         + SelectedLinks(anchors[1..], base, join, keep)
  }

  /** Link k is the resolved href of the k-th selected anchor: one link per
      selected anchor, in document order, and nothing else. */
  lemma {:induction false} SelectedLinksAreResolvedHrefs(anchors: seq<Anchor>, base: string, join: (string, string) -> string, keep: Anchor -> bool)
    ensures |SelectedLinks(anchors, base, join, keep)| == |Selected(anchors, keep)|
    ensures forall k | 0 <= k < |Selected(anchors, keep)| ::
      SelectedLinks(anchors, base, join, keep)[k] == join(base, Selected(anchors, keep)[k].href.GetOr(""))
  {
    if anchors != [] {
      SelectedLinksAreResolvedHrefs(anchors[1..], base, join, keep);
    }
  }

  /** Links of a concatenated document are the concatenated links. */
  lemma {:induction false} SelectedLinksConcat(a1: seq<Anchor>, a2: seq<Anchor>, base: string, join: (string, string) -> string, keep: Anchor -> bool)
    ensures SelectedLinks(a1 + a2, base, join, keep) == SelectedLinks(a1, base, join, keep) + SelectedLinks(a2, base, join, keep)
  {
    if a1 == [] {
      assert a1 + a2 == a2;
    } else {
      assert (a1 + a2)[1..] == a1[1..] + a2;
      SelectedLinksConcat(a1[1..], a2, base, join, keep);
    }
  }

  /** A page yields no link exactly when it has no selected anchor. */
  lemma {:induction false} SelectedLinksEmpty(anchors: seq<Anchor>, base: string, join: (string, string) -> string, keep: Anchor -> bool)
    ensures SelectedLinks(anchors, base, join, keep) == [] <==> forall i | 0 <= i < |anchors| :: !keep(anchors[i])
  {
    if anchors != [] {
      SelectedLinksEmpty(anchors[1..], base, join, keep);
      assert forall i | 1 <= i < |anchors| :: anchors[i] == anchors[1..][i - 1];
    }
  }

  // ---------------------------------------------------------------------
  // The walk over pages 1..N

  /** What processing one page gave: an exception (the page URL is reported),
      or that page's links. */
  datatype PageStep = Failed(pageUrl: string) | Found(links: seq<string>)

  /** The walk's observable result: collected links, alerts, and how many
      pages were requested. */
  datatype Walked = Walked(links: seq<string>, alerts: seq<Alert>, visited: nat)

  function Then(a: Walked, b: Walked): Walked {
    Walked(a.links + b.links, a.alerts + b.alerts, a.visited + b.visited)
  }

  lemma ThenAssoc(a: Walked, b: Walked, c: Walked)
    ensures Then(Then(a, b), c) == Then(a, Then(b, c))
  {
    assert (a.links + b.links) + c.links == a.links + (b.links + c.links);
    assert (a.alerts + b.alerts) + c.alerts == a.alerts + (b.alerts + c.alerts);
  }

  predicate IsStop(s: PageStep) {
    s.Found? && s.links == []
  }

  predicate NoStop(steps: seq<PageStep>) {
    forall i | 0 <= i < |steps| :: !IsStop(steps[i])
  }

  /** What page number `page` contributes on its own: a failed page is
      reported, an empty page is reported, any other page gives its links. */
  function Visit(s: PageStep, page: nat): (r: Walked)
    ensures r.visited == 1
    ensures r.links == (if s.Found? then s.links else [])
  {
    match s
    case Failed(u) => Walked([], [PageFailed(u)], 1)
    case Found(l) => if l == [] then Walked([], [NoLinksOnPage(page)], 1) else Walked(l, [], 1)
  }

  /** The walk's specification, page by page, from page number `page`:
      each page contributes what `Visit` says, and an empty page ends the
      walk. */
  function Walk(steps: seq<PageStep>, page: nat): Walked
    decreases |steps|
  {
    if steps == [] then Walked([], [], 0)
    else if IsStop(steps[0]) then Visit(steps[0], page)
    else Then(Visit(steps[0], page), Walk(steps[1..], page + 1))
  }

  /** A walk of one page is that page's contribution. */
  lemma WalkOne(s: PageStep, page: nat)
    ensures Walk([s], page) == Visit(s, page)
  {
    var v := Visit(s, page);
    assert [s][1..] == [];
    assert v.links + [] == v.links && v.alerts + [] == v.alerts;
  }

  lemma {:induction false} WalkAppend(p: seq<PageStep>, q: seq<PageStep>, page: nat)
    requires NoStop(p)
    ensures Walk(p + q, page) == Then(Walk(p, page), Walk(q, page + |p|))
    decreases |p|
  {
    if p == [] {
      assert p + q == q;
      var w := Walk(q, page);
      assert [] + w.links == w.links && [] + w.alerts == w.alerts;
      assert Then(Walk(p, page), w) == w;
      assert Walk(p + q, page) == Then(Walk(p, page), Walk(q, page + |p|));
    } else {
      var t := p[1..];
      assert (p + q)[1..] == t + q && (p + q)[0] == p[0];
      assert NoStop(t) by {
        assert forall i | 0 <= i < |t| :: t[i] == p[i + 1];
      }
      assert !IsStop(p[0]);
      WalkAppend(t, q, page + 1);
      assert page + 1 + |t| == page + |p|;
      var a, b, c := Visit(p[0], page), Walk(t, page + 1), Walk(q, page + |p|);
      assert Walk(t + q, page + 1) == Then(b, c);
      assert Walk(p + q, page) == Then(a, Walk(t + q, page + 1));
      assert Walk(p, page) == Then(a, b);
      ThenAssoc(a, b, c);
      assert Walk(p + q, page) == Then(Walk(p, page), Walk(q, page + |p|));
    }
  }

  /** Walking one more page that does not stop the walk. */
  lemma WalkExtend(steps: seq<PageStep>, n: nat)
    requires n < |steps| && NoStop(steps[..n]) && !IsStop(steps[n])
    ensures NoStop(steps[..n + 1])
    ensures Walk(steps[..n + 1], 1) == Then(Walk(steps[..n], 1), Visit(steps[n], n + 1))
  {
    assert steps[..n + 1] == steps[..n] + [steps[n]];
    WalkAppend(steps[..n], [steps[n]], 1);
    WalkOne(steps[n], n + 1);
  }

  /** Reaching the first page that stops the walk. */
  lemma WalkStopsAt(steps: seq<PageStep>, n: nat)
    requires n < |steps| && NoStop(steps[..n]) && IsStop(steps[n])
    ensures Walk(steps, 1) == Then(Walk(steps[..n], 1), Walked([], [NoLinksOnPage(n + 1)], 1))
  {
    var p, q := steps[..n], steps[n..];
    assert |p| == n && q[0] == steps[n];
    assert steps == p + q;
    WalkAppend(p, q, 1);
    assert Walk(q, n + 1) == Walked([], [NoLinksOnPage(n + 1)], 1);
  }

  /** Index of the first empty page, `|steps|` when there is none. */
  function StopIndex(steps: seq<PageStep>): (k: nat)
    ensures k <= |steps|
    ensures k < |steps| ==> IsStop(steps[k])
    ensures NoStop(steps[..k])
  {
    if steps == [] then 0
    else if IsStop(steps[0]) then 0
    else
      var k := 1 + StopIndex(steps[1..]);
      assert forall i | 1 <= i < k :: steps[..k][i] == steps[1..][..k - 1][i - 1];
      k
  }

  /** All links of the pages that were found, failed pages contributing none. */
  function FoundLinks(steps: seq<PageStep>): seq<string> {
    if steps == [] then []
    else (if steps[0].Found? then steps[0].links else []) + FoundLinks(steps[1..])
  }

  /** One alert per failed page, in page order. */
  function FailureAlerts(steps: seq<PageStep>): seq<Alert> {
    if steps == [] then []
    else (if steps[0].Failed? then [PageFailed(steps[0].pageUrl)] else []) + FailureAlerts(steps[1..])
  }

  /** The pages before the first empty page, and what happens around it. */
  lemma StopIndexStep(steps: seq<PageStep>)
    requires steps != [] && !IsStop(steps[0])
    ensures StopIndex(steps) == StopIndex(steps[1..]) + 1
    ensures steps[..StopIndex(steps)][0] == steps[0]
    ensures steps[..StopIndex(steps)][1..] == steps[1..][..StopIndex(steps[1..])]
  {
  }

  lemma {:induction false} WalkLinksBeforeFirstEmptyPage(steps: seq<PageStep>, page: nat)
    ensures Walk(steps, page).links == FoundLinks(steps[..StopIndex(steps)])
    decreases |steps|
  {
    if steps != [] {
      if IsStop(steps[0]) {
        assert steps[..0] == [];
      } else {
        var rest := steps[1..];
        WalkLinksBeforeFirstEmptyPage(rest, page + 1);
        StopIndexStep(steps);
        assert Walk(steps, page) == Then(Visit(steps[0], page), Walk(rest, page + 1));
      }
    }
  }

  lemma {:induction false} WalkVisitsUpToFirstEmptyPage(steps: seq<PageStep>, page: nat)
    ensures Walk(steps, page).visited == if StopIndex(steps) < |steps| then StopIndex(steps) + 1 else |steps|
    decreases |steps|
  {
    if steps != [] && !IsStop(steps[0]) {
      var rest := steps[1..];
      WalkVisitsUpToFirstEmptyPage(rest, page + 1);
      StopIndexStep(steps);
      assert Walk(steps, page) == Then(Visit(steps[0], page), Walk(rest, page + 1));
    }
  }

  /** The alerts a walk raises: the failed pages before the first empty
      page, then the empty page itself. */
  function StopAlerts(steps: seq<PageStep>, page: nat): seq<Alert> {
    var k := StopIndex(steps);
    FailureAlerts(steps[..k]) + if k < |steps| then [NoLinksOnPage(page + k)] else []
  }

  lemma {:induction false} WalkAlertsBeforeFirstEmptyPage(steps: seq<PageStep>, page: nat)
    ensures Walk(steps, page).alerts == StopAlerts(steps, page)
    decreases |steps|
  {
    if steps != [] {
      if IsStop(steps[0]) {
        assert steps[..0] == [];
        assert FailureAlerts([]) + [NoLinksOnPage(page)] == [NoLinksOnPage(page)];
      } else {
        var rest := steps[1..];
        WalkAlertsBeforeFirstEmptyPage(rest, page + 1);
        StopIndexStep(steps);
        var k' := StopIndex(rest);
        var v, w := Visit(steps[0], page), Walk(rest, page + 1);
        assert Walk(steps, page) == Then(v, w);
        var own := if steps[0].Failed? then [PageFailed(steps[0].pageUrl)] else [];
        assert v.alerts == own;
        assert FailureAlerts(steps[..StopIndex(steps)]) == own + FailureAlerts(rest[..k']);
        var last := if k' < |rest| then [NoLinksOnPage(page + 1 + k')] else [];
        assert own + (FailureAlerts(rest[..k']) + last) == (own + FailureAlerts(rest[..k'])) + last;
      }
    }
  }

  /** The walk collects exactly the links of the pages before the first
      empty page, in page order, duplicates kept; it requests every page up to
      and including that empty page, and no further; it reports every failed
      page before it, then the empty page itself. */
  lemma WalkStopsAtFirstEmptyPage(steps: seq<PageStep>, page: nat)
    ensures Walk(steps, page).links == FoundLinks(steps[..StopIndex(steps)])
    ensures Walk(steps, page).visited == if StopIndex(steps) < |steps| then StopIndex(steps) + 1 else |steps|
    ensures Walk(steps, page).alerts == FailureAlerts(steps[..StopIndex(steps)])
      + if StopIndex(steps) < |steps| then [NoLinksOnPage(page + StopIndex(steps))] else []
  {
    WalkLinksBeforeFirstEmptyPage(steps, page);
    WalkVisitsUpToFirstEmptyPage(steps, page);
    WalkAlertsBeforeFirstEmptyPage(steps, page);
  }

  /** The URL of listing page `n`. */
  function PageUrl(base: string, n: nat): string {
    base + "#resultsPage=" + NatToString(n)
  }

  /** What one page request gave: the exception, or the links of the rendered page. */
  function StepOf(f: Fetch<ListingPage>, url: string, base: string, join: (string, string) -> string, keep: Anchor -> bool): PageStep {
    match f
    case Raised => Failed(url)
    case Rendered(doc) => Found(SelectedLinks(doc.anchors, base, join, keep))
  }

  /** The outcome of every page 1..total, as the oracle `render` decides. */
  function Steps(total: nat, base: string, render: string -> Fetch<ListingPage>, join: (string, string) -> string, keep: Anchor -> bool): (r: seq<PageStep>)
    ensures |r| == total
  {
    seq(total, i requires 0 <= i => StepOf(render(PageUrl(base, i + 1)), PageUrl(base, i + 1), base, join, keep))
  }

  /** The body of the page loop for one page: the links it contributes and
      the alert it raises, and whether the loop stops after it. */
  method VisitPage(pageNum: nat, pageUrl: string, fetch: Fetch<ListingPage>, base: string, join: (string, string) -> string, keep: Anchor -> bool)
    returns (pageLinks: seq<string>, alert: seq<Alert>, stop: bool)
    ensures stop == IsStop(StepOf(fetch, pageUrl, base, join, keep))
    ensures Walked(pageLinks, alert, 1) == Visit(StepOf(fetch, pageUrl, base, join, keep), pageNum)
  {
    match fetch {
      case Raised =>
        pageLinks, alert, stop := [], [PageFailed(pageUrl)], false;
      case Rendered(doc) =>
        pageLinks := SelectedLinks(doc.anchors, base, join, keep);
        if pageLinks == [] {
          alert, stop := [NoLinksOnPage(pageNum)], true;
        } else {
          alert, stop := [], false;
        }
    }
  }

  /** One page more of the loop: after a stopping page the walk is
      complete, after any other page it has grown by that page's visit. */
  lemma WalkStep(steps: seq<PageStep>, n: nat, acc: Walked, v: Walked)
    requires n < |steps| && NoStop(steps[..n])
    requires acc == Walk(steps[..n], 1) && v == Visit(steps[n], n + 1)
    ensures IsStop(steps[n]) ==> Then(acc, v) == Walk(steps, 1)
    ensures !IsStop(steps[n]) ==> NoStop(steps[..n + 1]) && Then(acc, v) == Walk(steps[..n + 1], 1)
  {
    if IsStop(steps[n]) {
      WalkStopsAt(steps, n);
    } else {
      WalkExtend(steps, n);
    }
  }

  /** Page `n` of the walk is the outcome of requesting its URL. */
  lemma StepsAt(total: nat, base: string, render: string -> Fetch<ListingPage>, join: (string, string) -> string, keep: Anchor -> bool, n: nat)
    requires 1 <= n <= total
    ensures Steps(total, base, render, join, keep)[n - 1] == StepOf(render(PageUrl(base, n)), PageUrl(base, n), base, join, keep)
  {
  }

  /** Requesting the next page keeps the list of requested URLs in page order. */
  lemma VisitedStep(visited: seq<string>, base: string, next: seq<string>)
    requires forall i | 0 <= i < |visited| :: visited[i] == PageUrl(base, i + 1)
    requires next == visited + [PageUrl(base, |visited| + 1)]
    ensures forall i | 0 <= i < |next| :: next[i] == PageUrl(base, i + 1)
  {
  }

  /** The loop of `get_all_vehicle_links`: request pages 1..total in order,
      skip (and report) a page whose processing raises, stop at (and report)
      the first page without links, and extend the result with every other
      page's links, each resolved against `base`. */
  method CollectLinks(total: nat, base: string, render: string -> Fetch<ListingPage>, join: (string, string) -> string, keep: Anchor -> bool)
    returns (links: seq<string>, alerts: seq<Alert>, visited: seq<string>)
    ensures Walked(links, alerts, |visited|) == Walk(Steps(total, base, render, join, keep), 1)
    ensures forall i | 0 <= i < |visited| :: visited[i] == PageUrl(base, i + 1)
  {
    ghost var steps := Steps(total, base, render, join, keep);
    links, alerts, visited := [], [], [];
    var pageNum := 1;
    while pageNum <= total
      invariant 1 <= pageNum <= total + 1
      invariant NoStop(steps[..pageNum - 1])
      invariant |visited| == pageNum - 1
      invariant Walked(links, alerts, |visited|) == Walk(steps[..pageNum - 1], 1)
      invariant forall i | 0 <= i < |visited| :: visited[i] == PageUrl(base, i + 1)
    {
      var pageUrl := PageUrl(base, pageNum);
      ghost var before := visited;
      visited := visited + [pageUrl];
      VisitedStep(before, base, visited);
      var pageLinks, alert, stop := VisitPage(pageNum, pageUrl, render(pageUrl), base, join, keep);
      StepsAt(total, base, render, join, keep, pageNum);
      WalkStep(steps, pageNum - 1, Walked(links, alerts, |before|), Walked(pageLinks, alert, 1));
      links, alerts := links + pageLinks, alerts + alert;
      if stop {
        return;
      }
      pageNum := pageNum + 1;
    }
    assert steps[..total] == steps;
  }
}
