/** Optional values and error-carrying results, used wherever the Python code
    returns `None` or raises. */
module Wrappers {

  datatype Option<+T> = None | Some(value: T) {
    function GetOr(default: T): T {
      match this
      case Some(v) => v
      case None => default
    }
  }

  /** The exceptions the modelled code can raise and does not catch itself. */
  datatype Error =
    | MissingListingUrl     // `record['listing_url']` on a dict without that key
    | DivisionByZero        // `total / chunk_size` with a zero batch size
    | CeilOfNone            // `ceil(None)` in the legacy batch count
    | MissingInventorySource // `dealer.inventory_source.url` on a `None` source
    | UnknownPostMethod     // attribute lookup of a method the class does not have
    | UnboundDriver         // `driver.quit()` in a `finally` after `init_driver` raised

  datatype Result<+T> = Ok(value: T) | Err(error: Error)

  function MapOption<T, U>(o: Option<T>, f: T -> U): (r: Option<U>)
    ensures r.Some? <==> o.Some?
    ensures r.Some? ==> r.value == f(o.value)
  {
    match o
    case None => None
    case Some(v) => Some(f(v))
  }
}
