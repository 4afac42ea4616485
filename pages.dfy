/** Rendered documents as abstract values (the DOM library is not modelled),
    the outcome of rendering a URL, and the alerts the pipeline emits. */
module Pages {
  import opened Wrappers

  /** An `<a>` element: its `data-testid` attribute and its `href` attribute. */
  datatype Anchor = Anchor(dataTestId: Option<string>, href: Option<string>)

  /** A dealership listing page: the `.string` of every `<span>` in document
      order (`None` for a span whose content is not a single string), and
      every anchor in document order. */
  datatype ListingPage = ListingPage(spanStrings: seq<Option<string>>, anchors: seq<Anchor>)

  /** One labelled list item: the text of its label element and of its value
      element, each `None` when that element is missing. */
  datatype Item = Item(labelText: Option<string>, valueText: Option<string>)

  /** A vehicle detail page.
      - `featureItems`: the `li._listItem_1tanl_14` items (`h5` label, `p` value);
      - `statsItems`: the `li` items of the first `ul` of the `listing-vdp-stats`
        records block, empty when the block or its list is missing
        (`span._label_zbkq7_7` label, `span._value_zbkq7_14` value);
      - `priceText`: the text of `h5.WoAzt` inside `div._dealInfo_uw1k0_70`,
        `None` when either element is missing. */
  datatype DetailPage = DetailPage(featureItems: seq<Item>, statsItems: seq<Item>, priceText: Option<string>)

  /** A dealership page, one field per CSS selector:
      - `title`, `link`, `phone`, `hours`: the text of the selected element;
      - `infoStrings`: the direct text children of `div.dealerDetailsInfo`;
      - `logo`: for `div.dealerLogo img`, its `src` attribute (itself optional). */
  datatype DealerPage = DealerPage(
    title: Option<string>,
    link: Option<string>,
    infoStrings: Option<seq<string>>,
    phone: Option<string>,
    hours: Option<string>,
    logo: Option<Option<string>>)

  /** What acquiring a driver, waiting and reading `page_source` produced:
      an exception anywhere on the way, or the rendered document. */
  datatype Fetch<T> = Raised | Rendered(doc: T)

  /** Messages handed to the alerting channel, as events. */
  datatype Alert =
    | NoLinksOnPage(pageNum: nat)
    | PageFailed(pageUrl: string)
    | DeliveryFailed(listingUrl: string, attempts: nat)
    | TaskFailed
    | DuplicateSkipped(duplicateUrl: Option<string>)
    | DetailsFailed(detailsUrl: string)
    | RecordFailed(recordUrl: string, recordDealership: Option<string>)
    | DealerDetailsFailed(dealerName: string, dealerUrl: string)
}
