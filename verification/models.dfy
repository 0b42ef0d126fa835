/** The records the crawler produces and stores: raw listings as scraped, and the vehicles and
    parts derived from them. A vehicle carries the `identifier` its listing hashes to. */
module Models {
  import opened Price

  /** A spare part as scraped: every field is page text. */
  datatype RawPart = RawPart(
    name: string,
    description: string,
    partIdentifier: string,
    price: string,
    imgUrl: string,
    imgThumbUrl: string)

  /** A normalised spare part; the price is the exact value of its numeral. */
  datatype Part = Part(
    name: string,
    description: string,
    partIdentifier: string,
    price: Decimal,
    imgUrl: string,
    imgThumbUrl: string)

  /** A vehicle listing as scraped. */
  datatype RawVehicle = RawVehicle(
    name: string,
    brand: string,
    model: string,
    year: string,
    url: string,
    rawParts: seq<RawPart>)

  /** A normalised vehicle with its parts. */
  datatype Vehicle = Vehicle(
    name: string,
    brand: string,
    model: string,
    vehicleType: string,
    year: int,
    url: string,
    identifier: string,
    parts: seq<Part>)

  /** The number of parts of the vehicles, all together. */
  function TotalParts(vs: seq<Vehicle>): nat {
    if vs == [] then 0 else TotalParts(vs[..|vs| - 1]) + |vs[|vs| - 1].parts|
  }
}
