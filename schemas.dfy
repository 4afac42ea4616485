/** The record shapes of app/models/schemas.py. Every field is optional, as
    in the pydantic models; a `None` field is a key that `model_dump(exclude_none=True)`
    leaves out. Timestamps and URLs are kept as their text. */
module Schemas {
  import opened Wrappers

  datatype InventorySource = InventorySource(
    id: Option<string>,
    url: Option<string>,
    category: Option<string>,
    createdAt: Option<string>,
    updatedAt: Option<string>)

  /** A dealership as the dealership API returns it. */
  datatype Dealership = Dealership(
    id: Option<string>,
    addressId: Option<string>,
    inventorySourceId: Option<string>,
    name: Option<string>,
    phoneNumber: Option<string>,
    email: Option<string>,
    generalManager: Option<string>,
    website: Option<string>,
    createdAt: Option<string>,
    updatedAt: Option<string>,
    inventorySource: Option<InventorySource>)

  /** The crawl's view of one dealership. */
  datatype DealershipData = DealershipData(
    dealershipId: Option<string>,
    dealershipName: Option<string>,
    url: Option<string>,
    inventorySourceId: Option<string>,
    category: Option<string>)

  /** Contact details scraped from a dealership page. */
  datatype DealershipDetails = DealershipDetails(
    title: Option<string>,
    link: Option<string>,
    address: Option<string>,
    phone: Option<string>,
    hoursOperation: Option<string>,
    logo: Option<string>)

  datatype Make = Make(name: Option<string>)

  datatype Model = Model(
    name: Option<string>,
    year: Option<string>,
    trim: Option<string>,
    bodyStyle: Option<string>,
    transmission: Option<string>,
    fuelType: Option<string>,
    drivetrain: Option<string>,
    engine: Option<string>,
    make: Option<Make>)

  datatype VehicleDetails = VehicleDetails(
    dealershipId: Option<string>,
    vin: Option<string>,
    mileage: Option<int>,
    stockNumber: Option<string>,
    description: Option<string>,
    exteriorColor: Option<string>,
    interiorColor: Option<string>,
    model: Option<Model>)

  /** One vehicle listing, the unit that is deduplicated and posted. Prices
      are exact rationals (see PyText.PyDecimal). */
  datatype VehicleData = VehicleData(
    inventorySourceId: Option<string>,
    listingUrl: Option<string>,
    status: Option<string>,
    price: Option<real>,
    vehicleData: Option<VehicleDetails>)

  /** Python's f-string/`str()` rendering of an optional URL. */
  function UrlText(u: Option<string>): string {
    match u
    case Some(s) => s
    case None => "None"
  }
}
