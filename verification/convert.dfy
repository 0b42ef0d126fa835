/** `processRawVehicle` and `convertRawVehiclesToVehicles`: raw listings become normalised
    vehicles whose name is space-standardised, whose year, brand and model are extracted from
    that name, and whose identifier and part identifiers are FNV-1a hashes. */
module Convert {
  import opened Text
  import opened Spaces
  import opened Price
  import opened Hash
  import opened Extract
  import opened Models

  /** One part of a vehicle named `vehicleName`: text fields standardised, the identifier hashed
      together with the vehicle's name, the price read from its first numeral or 0. */
  function ProcessRawPart(raw: RawPart, vehicleName: string): (p: Part)
    ensures p.imgUrl == raw.imgUrl && p.imgThumbUrl == raw.imgThumbUrl
  {
    Part(
      StandardizeSpaces(raw.name),
      StandardizeSpaces(raw.description),
      GenerateHash([raw.partIdentifier, vehicleName]),
      PriceOrZero(raw.price),
      raw.imgUrl,
      raw.imgThumbUrl)
  }

  /** What a processed part is: the raw text standardised, so with the raw text's fields and
      characters, an identifier
      that is the decimal FNV-1a hash of the raw identifier followed by the vehicle name, and the
      price of the first numeral of the raw price, or 0 when it has none. */
  lemma ProcessedPart(raw: RawPart, vehicleName: string)
    ensures var p := ProcessRawPart(raw, vehicleName);
      && p.name == StandardizeSpaces(raw.name) && p.description == StandardizeSpaces(raw.description)
      && Standardized(p.name) && NonSpace(p.name) == NonSpace(raw.name) && Fields(p.name) == Fields(raw.name)
      && Standardized(p.description) && NonSpace(p.description) == NonSpace(raw.description)
      && Fields(p.description) == Fields(raw.description)
      && AllDigits(p.partIdentifier) && DigitsValue(p.partIdentifier) < 0x1_0000_0000
      && DigitsValue(p.partIdentifier) == Fnv1a(OffsetBasis32, Utf8(raw.partIdentifier + vehicleName)) as nat
      && ((forall k :: 0 <= k < |raw.price| ==> !IsDigit(raw.price[k])) ==> p.price == ZeroPrice)
      && (ParsePrice(raw.price).Success? ==> p.price == Value(ParsePrice(raw.price).value))
  {
    ConcatPair(raw.partIdentifier, vehicleName);
  }

  /** The parts of a vehicle, one per raw part, in order. */
  function ProcessRawParts(raws: seq<RawPart>, vehicleName: string): (ps: seq<Part>)
    ensures |ps| == |raws|
    ensures forall i :: 0 <= i < |raws| ==> ps[i] == ProcessRawPart(raws[i], vehicleName)
  {
    seq(|raws|, i requires 0 <= i < |raws| => ProcessRawPart(raws[i], vehicleName))
  }

  /** The name a raw listing is known by once its white space is standardised. */
  function NormalName(raw: RawVehicle): string {
    StandardizeSpaces(raw.name)
  }

  /** `processRawVehicle`. The model extractor needs its slice to be well defined, which is
      stated of the standardised name. */
  function ProcessRawVehicle(raw: RawVehicle, category: string, lexicon: seq<string>): (v: Vehicle)
    requires ModelSliceable(NormalName(raw), lexicon)
    ensures v.name == NormalName(raw) && v.url == raw.url && v.vehicleType == category
    ensures |v.parts| == |raw.rawParts|
    ensures forall i :: 0 <= i < |raw.rawParts| ==> v.parts[i] == ProcessRawPart(raw.rawParts[i], v.name)
  {
    var name := NormalName(raw);
    Vehicle(
      name,
      ExtractBrand(name, lexicon),
      ExtractModel(name, lexicon),
      category,
      ExtractYear(name),
      raw.url,
      GenerateHash([raw.url, name]),
      ProcessRawParts(raw.rawParts, name))
  }

  /** Every listing of the batch meets the model extractor's precondition. */
  predicate AllSliceable(raws: seq<RawVehicle>, lexicon: seq<string>) {
    forall i :: 0 <= i < |raws| ==> ModelSliceable(NormalName(raws[i]), lexicon)
  }

  /** `convertRawVehiclesToVehicles`: one vehicle per listing, in order. */
  function ConvertRawVehiclesToVehicles(raws: seq<RawVehicle>, category: string, lexicon: seq<string>)
    : (vs: seq<Vehicle>)
    requires AllSliceable(raws, lexicon)
    ensures |vs| == |raws|
    ensures forall i :: 0 <= i < |raws| ==> vs[i] == ProcessRawVehicle(raws[i], category, lexicon)
  {
    seq(|raws|, i requires 0 <= i < |raws| => ProcessRawVehicle(raws[i], category, lexicon))
  }

  /** What a processed vehicle is: its name is the listing's name with white space
      standardised; year, brand and model are extracted from that name; its identifier is the
      decimal FNV-1a hash of the URL followed by the name. */
  lemma ProcessedVehicle(raw: RawVehicle, category: string, lexicon: seq<string>)
    requires ModelSliceable(NormalName(raw), lexicon)
    ensures var v := ProcessRawVehicle(raw, category, lexicon);
      && Standardized(v.name) && NonSpace(v.name) == NonSpace(raw.name) && Fields(v.name) == Fields(raw.name)
      && 0 <= v.year <= 9999 && v.year == ExtractYear(v.name)
      && (v.brand == "" || v.brand in lexicon) && v.brand == ExtractBrand(v.name, lexicon)
      && v.model == ExtractModel(v.name, lexicon)
      && AllDigits(v.identifier) && DigitsValue(v.identifier) < 0x1_0000_0000
      && DigitsValue(v.identifier) == Fnv1a(OffsetBasis32, Utf8(raw.url + v.name)) as nat
  {
    ConcatPair(raw.url, NormalName(raw));
  }

  /** The scraped brand, model and year of a listing play no part: only its name, URL and raw
      parts do. */
  lemma RawFieldsIgnored(raw: RawVehicle, brand: string, model: string, year: string,
                         category: string, lexicon: seq<string>)
    requires ModelSliceable(NormalName(raw), lexicon)
    ensures ProcessRawVehicle(raw.(brand := brand, model := model, year := year), category, lexicon)
      == ProcessRawVehicle(raw, category, lexicon)
  {
  }
}
