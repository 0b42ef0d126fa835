/** A listing taken through `processRawVehicle`, with the lexicon of the extractor examples. */
module ConvertExamples {
  import opened Results
  import opened Text
  import opened Spaces
  import opened Price
  import opened Extract
  import opened ExtractExamples
  import opened Models
  import opened Convert

  lemma FieldsGlued(a: string, b: string, c: string)
    requires IsField(a) && IsField(b) && IsField(c)
    ensures Standardized(a + " " + (b + " " + c))
  {
    assert Standardized(c);
    GlueStandardized(b, c);
    GlueStandardized(a, b + " " + c);
  }

  lemma NameStandardized(s: string)
    requires s == "Suzuki RX 2019"
    ensures StandardizeSpaces(s) == s
  {
    FieldsGlued("Suzuki", "RX", "2019");
    assert s == "Suzuki" + " " + ("RX" + " " + "2019");
    StandardizeFixpoint(s);
  }

  lemma NameFacts(s: string)
    requires s == "Suzuki RX 2019"
    ensures ExtractBrand(s, Lexicon) == "Suzuki" && ExtractYear(s) == 2019
    ensures ModelSliceable(s, Lexicon) && ExtractModel(s, Lexicon) == "RX"
  {
    SuzukiRX();
    SuzukiName(s, "RX", "");
  }

  /** The listing "Suzuki RX 2019" with one part priced "45,00 €" becomes a Suzuki of model RX
      from 2019 with one part of price 45. */
  lemma ProcessListing(raw: RawVehicle, part: RawPart)
    requires part == RawPart("Front  brake", "", "FB-1", "45,00 €", "", "")
    requires raw == RawVehicle("Suzuki RX 2019", "", "", "", "https://example.test/rx", [part])
    ensures ModelSliceable(NormalName(raw), Lexicon)
    ensures var v := ProcessRawVehicle(raw, "motorcycle", Lexicon);
      && v.name == "Suzuki RX 2019" && v.brand == "Suzuki" && v.model == "RX" && v.year == 2019
      && v.vehicleType == "motorcycle" && |v.parts| == 1 && v.parts[0].price == Decimal(45, 0)
  {
    NameStandardized(raw.name);
    NameFacts(raw.name);
    ProcessedVehicle(raw, "motorcycle", Lexicon);
    ParseCommaPrice();
  }
}
