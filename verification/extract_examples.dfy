/** The crawler's extractor test cases, read off the model with a three-entry lexicon. Each
    step about one literal sits in a lemma of its own, which keeps the proofs small. */
module ExtractExamples {
  import opened Results
  import opened Text
  import opened Extract

  const Lexicon: seq<string> := ["Suzuki", "Kawasaki", "Harley Davidson"]

  lemma SuzukiKey()
    ensures BrandKey("Suzuki") == Lower("Suzuki")
  {
    PlainKey("Suzuki");
  }

  lemma KawasakiKey()
    ensures BrandKey("Kawasaki") == Lower("Kawasaki")
  {
    PlainKey("Kawasaki");
  }

  lemma HarleyDavidsonKey()
    ensures BrandKey("Harley Davidson") == Lower("HarleyDavidson")
  {
    SeparatedKey("Harley", "Davidson", "Harley Davidson", "HarleyDavidson");
  }

  /** The keys of the lexicon have lengths 6, 8 and 14, so no two entries share a key. */
  lemma LexiconKeyLengths()
    ensures |BrandKey("Suzuki")| == 6 && |BrandKey("Kawasaki")| == 8
    ensures |BrandKey("Harley Davidson")| == 14
  {
    SuzukiKey();
    KawasakiKey();
    HarleyDavidsonKey();
  }

  lemma SuzukiOnly()
    ensures forall e :: e in Lexicon && BrandKey(e) == BrandKey("Suzuki") ==> e == "Suzuki"
  {
    LexiconKeyLengths();
  }

  lemma HarleyDavidsonOnly()
    ensures forall e :: e in Lexicon && BrandKey(e) == BrandKey("Harley Davidson") ==> e == "Harley Davidson"
  {
    LexiconKeyLengths();
  }

  lemma TwoBrandsWindows(s: string)
    requires s == "Suzuki RX 203 2019 or Kawasaki XP"
    ensures TrimSpace(s) == s
    ensures WindowMatch(s, OneWord) == Some("Suzuki")
  {
    Untrimmed(s);
    TwoBrandsSplit(s);
    WindowsOf("Suzuki", ' ', "RX", " 203 2019 or Kawasaki XP");
  }

  lemma TwoBrandsSplit(s: string)
    requires s == "Suzuki RX 203 2019 or Kawasaki XP"
    ensures s == "Suzuki" + [' '] + "RX" + " 203 2019 or Kawasaki XP"
  {
  }

  /** A name that is just a brand is of that brand. */
  lemma BrandPlain(s: string)
    requires s == "Suzuki"
    ensures ExtractBrand(s, Lexicon) == "Suzuki"
  {
    Untrimmed(s);
    assert s == "Suzuki" + [];
    OneWordWindowOf("Suzuki", []);
    SuzukiOnly();
    OneWordBrand(s, Lexicon, "Suzuki");
  }

  /** A second brand later in the name is ignored: the first word decides. */
  lemma BrandTwoBrandsInName()
    ensures ExtractBrand("Suzuki RX 203 2019 or Kawasaki XP", Lexicon) == "Suzuki"
  {
    TwoBrandsWindows("Suzuki RX 203 2019 or Kawasaki XP");
    SuzukiOnly();
    OneWordBrand("Suzuki RX 203 2019 or Kawasaki XP", Lexicon, "Suzuki");
  }

  lemma HyphenWindows(s: string)
    requires s == "Harley-Davidson RX203 2020"
    ensures TrimSpace(s) == s
    ensures WindowMatch(s, OneWord) == Some("Harley-Davidson")
  {
    Untrimmed(s);
    HyphenSplit(s);
    WindowsOf("Harley-Davidson", ' ', "RX203", " 2020");
  }

  lemma HyphenSplit(s: string)
    requires s == "Harley-Davidson RX203 2020"
    ensures s == "Harley-Davidson" + [' '] + "RX203" + " 2020"
  {
  }

  lemma HyphenKey()
    ensures BrandKey("Harley-Davidson") == BrandKey("Harley Davidson")
  {
    BrandKeySeparators("Harley", "Davidson");
    assert "Harley" + "-" + "Davidson" == "Harley-Davidson";
    assert "Harley" + " " + "Davidson" == "Harley Davidson";
  }

  /** A hyphenated spelling of a lexicon entry is one word, and finds the entry. */
  lemma BrandHyphenSeparated()
    ensures ExtractBrand("Harley-Davidson RX203 2020", Lexicon) == "Harley Davidson"
  {
    HyphenWindows("Harley-Davidson RX203 2020");
    HyphenKey();
    HarleyDavidsonOnly();
    OneWordBrand("Harley-Davidson RX203 2020", Lexicon, "Harley Davidson");
  }

  lemma SpaceWindows(s: string)
    requires s == "Harley Davidson RX203 2020"
    ensures TrimSpace(s) == s
    ensures WindowMatch(s, OneWord) == Some("Harley")
    ensures WindowMatch(s, TwoWords) == Some("Harley Davidson")
  {
    Untrimmed(s);
    SpaceSplit(s);
    WindowsOf("Harley", ' ', "Davidson", " RX203 2020");
  }

  lemma SpaceSplit(s: string)
    requires s == "Harley Davidson RX203 2020"
    ensures s == "Harley" + [' '] + "Davidson" + " RX203 2020"
    ensures "Harley" + [' '] + "Davidson" == "Harley Davidson"
  {
  }

  lemma HarleyMisses()
    ensures forall e :: e in Lexicon ==> BrandKey(e) != BrandKey("Harley")
  {
    KeyStart("Harley", 'h');
    KeyStart("Suzuki", 's');
    LexiconKeyLengths();
  }

  /** A word without hyphens or spaces has a key of its own length that starts with its first
      letter lower-cased. */
  lemma KeyStart(x: string, c: char)
    requires forall i :: 0 <= i < |x| ==> x[i] != '-' && x[i] != ' '
    requires |x| > 0 && LowerChar(x[0]) == c
    ensures |BrandKey(x)| == |x| && BrandKey(x)[0] == c
  {
    PlainKey(x);
  }

  /** A lexicon entry of two words is found by the retry with the two-word window. */
  lemma BrandSpaceSeparated()
    ensures ExtractBrand("Harley Davidson RX203 2020", Lexicon) == "Harley Davidson"
  {
    SpaceWindows("Harley Davidson RX203 2020");
    HarleyMisses();
    HarleyDavidsonOnly();
    TwoWordBrand("Harley Davidson RX203 2020", Lexicon, "Harley Davidson");
  }

  lemma UnknownWindows(s: string)
    requires s == "Unknown Thing 2020"
    ensures TrimSpace(s) == s
    ensures WindowMatch(s, OneWord) == Some("Unknown")
    ensures WindowMatch(s, TwoWords) == Some("Unknown Thing")
  {
    Untrimmed(s);
    UnknownSplit(s);
    WindowsOf("Unknown", ' ', "Thing", " 2020");
  }

  lemma UnknownSplit(s: string)
    requires s == "Unknown Thing 2020"
    ensures s == "Unknown" + [' '] + "Thing" + " 2020"
    ensures "Unknown" + [' '] + "Thing" == "Unknown Thing"
  {
  }

  lemma UnknownKey()
    ensures |BrandKey("Unknown")| == 7
  {
    PlainKey("Unknown");
  }

  lemma UnknownThingKey()
    ensures |BrandKey("Unknown Thing")| == 12
  {
    SeparatedKey("Unknown", "Thing", "Unknown Thing", "UnknownThing");
  }

  /** Keys of lengths 7 and 12 are not keys of the lexicon, whose keys have 6, 8 and 14. */
  lemma UnknownMisses()
    ensures forall e :: e in Lexicon ==> BrandKey(e) != BrandKey("Unknown")
    ensures forall e :: e in Lexicon ==> BrandKey(e) != BrandKey("Unknown Thing")
  {
    UnknownWordMisses();
    UnknownPairMisses();
  }

  lemma UnknownWordMisses()
    ensures forall e :: e in Lexicon ==> BrandKey(e) != BrandKey("Unknown")
  {
    UnknownKey();
    LexiconKeyLengths();
  }

  lemma UnknownPairMisses()
    ensures forall e :: e in Lexicon ==> BrandKey(e) != BrandKey("Unknown Thing")
  {
    UnknownThingKey();
    LexiconKeyLengths();
  }

  /** A name that starts with no lexicon entry has no brand. */
  lemma BrandUnknown()
    ensures ExtractBrand("Unknown Thing 2020", Lexicon) == ""
  {
    UnknownWindows("Unknown Thing 2020");
    UnknownMisses();
    NoBrand("Unknown Thing 2020", Lexicon);
  }

  lemma Year2019()
    ensures AllDigits("2019") && DigitsValue("2019") == 2019
  {
    assert "2019"[..3] == "201" && "201"[..2] == "20" && "20"[..1] == "2" && "2"[..0] == "";
  }

  /** "Suzuki", then a model `m` without a four-digit run, then the year 2019. */
  lemma SuzukiParts(m: string)
    requires |m| > 0 && !IsSpace(m[0]) && !IsSpace(m[|m| - 1])
    requires forall i :: 0 <= i <= |m| + 7 ==> !FourDigitsAt("Suzuki " + m, i)
    ensures NameParts("Suzuki", m, "2019", Lexicon)
  {
    SuzukiOnly();
    Year2019();
    assert "Suzuki" + " " + m == "Suzuki " + m;
  }

  lemma SuzukiRX()
    ensures NameParts("Suzuki", "RX", "2019", Lexicon)
  {
    SuzukiParts("RX");
  }

  lemma SuzukiRX3()
    ensures NameParts("Suzuki", "RX 3", "2019", Lexicon)
  {
    SuzukiParts("RX 3");
  }

  lemma SuzukiRXHyphen3()
    ensures NameParts("Suzuki", "RX-3", "2019", Lexicon)
  {
    SuzukiParts("RX-3");
  }

  lemma SuzukiRX203()
    ensures NameParts("Suzuki", "RX 203", "2019", Lexicon)
  {
    SuzukiParts("RX 203");
  }

  // The statements below name the example through a parameter equal to it: a literal
  // argument would let the solver unfold the extractors on it eagerly.

  lemma SuzukiName(s: string, m: string, rest: string)
    requires s == Name("Suzuki", m, "2019") + rest && NameParts("Suzuki", m, "2019", Lexicon) && Tail(rest)
    ensures ExtractBrand(s, Lexicon) == "Suzuki"
    ensures ExtractYear(s) == 2019
    ensures ModelSliceable(s, Lexicon) && ExtractModel(s, Lexicon) == m
  {
    Year2019();
    NameRoundTrip("Suzuki", m, "2019", rest, Lexicon);
  }

  /** A run of four digits with none before it is the year. */
  lemma FirstYearAt(s: string, i: nat)
    requires FourDigitsAt(s, i)
    requires forall k :: 0 <= k < i ==> !FourDigitsAt(s, k)
    ensures ExtractYear(s) == DigitsValue(s[i..i + 4])
  {
  }

  /** A name that is only the year. */
  lemma YearPlain(s: string)
    requires s == "2019"
    ensures ExtractYear(s) == 2019
  {
    Year2019();
    assert s[0..4] == s;
    FirstYearAt(s, 0);
  }

  /** Text before the year does not start a run of four digits. */
  lemma YearWithText(s: string)
    requires s == "Suzuki 2019"
    ensures ExtractYear(s) == 2019
  {
    Year2019();
    forall k | 0 <= k < 7 ensures !FourDigitsAt(s, k) {
      assert !IsDigit(s[k]);
    }
    assert s[7..11] == "2019";
    FirstYearAt(s, 7);
  }

  /** A model between the brand and the year changes nothing. */
  lemma YearWithTextAndSpaces(s: string)
    requires s == "Suzuki RX 2019"
    ensures ExtractYear(s) == 2019
  {
    SuzukiRX();
    assert s == Name("Suzuki", "RX", "2019") + [];
    SuzukiName(s, "RX", "");
  }

  /** The year is the first four-digit run, other numbers in the name notwithstanding. */
  lemma YearWithOtherNumbers(s: string)
    requires s == "Suzuki RX 203 2019"
    ensures ExtractYear(s) == 2019
  {
    SuzukiRX203();
    SuzukiName(s, "RX 203", "");
  }

  /** The first word is the brand, whatever follows it. */
  lemma BrandWithText(s: string)
    requires s == "Suzuki RX"
    ensures ExtractBrand(s, Lexicon) == "Suzuki"
  {
    SuzukiRX();
    assert s == "Suzuki" + " " + "RX";
    ShortNameRoundTrip("Suzuki", "RX", Lexicon);
  }

  lemma BrandWithNumbers(s: string)
    requires s == "Suzuki RX 203"
    ensures ExtractBrand(s, Lexicon) == "Suzuki"
  {
    SuzukiRX203();
    assert s == "Suzuki" + " " + "RX 203";
    ShortNameRoundTrip("Suzuki", "RX 203", Lexicon);
  }

  lemma BrandWithYear(s: string)
    requires s == "Suzuki RX 203 2019"
    ensures ExtractBrand(s, Lexicon) == "Suzuki"
  {
    SuzukiRX203();
    SuzukiName(s, "RX 203", "");
  }

  /** Without a year the model runs to the end of the name. */
  lemma ModelWithBrand(s: string)
    requires s == "Suzuki RX"
    ensures ModelSliceable(s, Lexicon)
    ensures ExtractModel(s, Lexicon) == "RX"
  {
    SuzukiRX();
    assert s == "Suzuki" + " " + "RX";
    ShortNameRoundTrip("Suzuki", "RX", Lexicon);
  }

  lemma ModelWithBrandAndYear(s: string)
    requires s == "Suzuki RX 2019"
    ensures ModelSliceable(s, Lexicon)
    ensures ExtractModel(s, Lexicon) == "RX"
  {
    SuzukiRX();
    SuzukiName(s, "RX", "");
  }

  /** Spaces inside the model are kept. */
  lemma ModelWithSpaces(s: string)
    requires s == "Suzuki RX 3 2019"
    ensures ModelSliceable(s, Lexicon)
    ensures ExtractModel(s, Lexicon) == "RX 3"
  {
    SuzukiRX3();
    SuzukiName(s, "RX 3", "");
  }

  /** Hyphens inside the model are kept. */
  lemma ModelWithHyphen(s: string)
    requires s == "Suzuki RX-3 2019"
    ensures ModelSliceable(s, Lexicon)
    ensures ExtractModel(s, Lexicon) == "RX-3"
  {
    SuzukiRXHyphen3();
    SuzukiName(s, "RX-3", "");
  }

  /** Numbers after the year do not reach the model. */
  lemma ModelWithOtherNumbers(s: string)
    requires s == "Suzuki RX 3 2019 203"
    ensures ModelSliceable(s, Lexicon)
    ensures ExtractModel(s, Lexicon) == "RX 3"
  {
    SuzukiRX3();
    SuzukiName(s, "RX 3", " 203");
  }
}
