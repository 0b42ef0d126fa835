/** `parsePrice`: the leftmost numeral of a price text, matched by `(\d+\.\d+|\d+)`.
    The numeral is kept as its digit strings and as an exact decimal; the conversion to a
    64-bit float is not modelled. */
module Price {
  import opened Results
  import opened Text

  /** The matched token: an integer part and, for the `\d+\.\d+` alternative, a fraction part. */
  datatype Numeral = Numeral(whole: string, fraction: Option<string>)

  /** An exact decimal value `units / 10^scale`. */
  datatype Decimal = Decimal(units: nat, scale: nat)

  datatype PriceError = NoPriceFound

  /** The zero a part's price takes when its text holds no numeral. */
  const ZeroPrice := Decimal(0, 0)

  function Token(n: Numeral): string {
    match n.fraction
    case None => n.whole
    case Some(f) => n.whole + "." + f
  }

  /** Length of the leading run of digits. */
  function DigitRun(s: string): (n: nat)
    ensures n <= |s| && AllDigits(s[..n])
    ensures n == |s| || !IsDigit(s[n])
  {
    if s == [] || !IsDigit(s[0]) then 0
    else
      var k := DigitRun(s[1..]);
      assert s[..k + 1] == [s[0]] + s[1..][..k];
      k + 1
  }

  /** The position of the first digit at or after `from`. */
  function FirstDigitFrom(s: string, from: nat): (r: Option<nat>)
    requires from <= |s|
    ensures r.Some? ==> from <= r.value < |s| && IsDigit(s[r.value])
    ensures r.Some? ==> forall k :: from <= k < r.value ==> !IsDigit(s[k])
    ensures r.None? ==> forall k :: from <= k < |s| ==> !IsDigit(s[k])
    decreases |s| - from
  {
    if from == |s| then None
    else if IsDigit(s[from]) then Some(from)
    else FirstDigitFrom(s, from + 1)
  }

  function FirstDigit(s: string): (r: Option<nat>)
    ensures r.Some? ==> r.value < |s| && IsDigit(s[r.value])
    ensures r.Some? ==> forall k :: 0 <= k < r.value ==> !IsDigit(s[k])
    ensures r.None? ==> forall k :: 0 <= k < |s| ==> !IsDigit(s[k])
  {
    FirstDigitFrom(s, 0)
  }

  /** `n` is what the alternation `\d+\.\d+|\d+` matches when it starts at position `i`:
      both digit runs are maximal, and the fraction is taken exactly when a dot followed by a
      digit comes right after the integer run. */
  predicate NumeralAt(s: string, i: nat, n: Numeral) {
    var e := i + |n.whole|;
    && |n.whole| > 0 && AllDigits(n.whole) && e <= |s| && s[i..e] == n.whole
    && (e == |s| || !IsDigit(s[e]))
    && match n.fraction
       case None => !(e + 1 < |s| && s[e] == '.' && IsDigit(s[e + 1]))
       case Some(f) =>
         && |f| > 0 && AllDigits(f) && e + 1 + |f| <= |s|
         && s[e] == '.' && s[e + 1..e + 1 + |f|] == f
         && (e + 1 + |f| == |s| || !IsDigit(s[e + 1 + |f|]))
  }

  /** The match starting at a digit, computed by scanning the two digit runs. */
  function MatchNumeral(s: string, i: nat): (n: Numeral)
    requires i < |s| && IsDigit(s[i])
    ensures NumeralAt(s, i, n)
  {
    var w := DigitRun(s[i..]);
    var e := i + w;
    assert s[i..][..w] == s[i..e];
    if e + 1 < |s| && s[e] == '.' && IsDigit(s[e + 1]) then
      var f := DigitRun(s[e + 1..]);
      assert s[e + 1..][..f] == s[e + 1..e + 1 + f];
      Numeral(s[i..e], Some(s[e + 1..e + 1 + f]))
    else
      Numeral(s[i..e], None)
  }

  /** `parsePrice` up to the float conversion: it fails exactly when the text has no ASCII
      digit, and otherwise returns the numeral matched at the leftmost digit. */
  function ParsePrice(s: string): (r: Result<Numeral, PriceError>)
    ensures r.Failure? <==> forall k :: 0 <= k < |s| ==> !IsDigit(s[k])
    ensures r.Success? ==> FirstDigit(s).Some? && NumeralAt(s, FirstDigit(s).value, r.value)
  {
    match FirstDigit(s)
    case None => Failure(NoPriceFound)
    case Some(i) => Success(MatchNumeral(s, i))
  }

  predicate WellFormed(n: Numeral) {
    AllDigits(n.whole) && (n.fraction.Some? ==> AllDigits(n.fraction.value))
  }

  /** The exact value of a numeral: all its digits over a power of ten. */
  function Value(n: Numeral): (d: Decimal)
    requires WellFormed(n)
    ensures d.scale == (if n.fraction.Some? then |n.fraction.value| else 0)
  {
    match n.fraction
    case None => Decimal(DigitsValue(n.whole), 0)
    case Some(f) => Decimal(DigitsValue(n.whole) * Pow10(|f|) + DigitsValue(f), |f|)
  }

  /** The price a part gets: the numeral's value, or zero when parsing fails. */
  function PriceOrZero(s: string): (d: Decimal)
    ensures (forall k :: 0 <= k < |s| ==> !IsDigit(s[k])) ==> d == ZeroPrice
    ensures ParsePrice(s).Success? ==> d == Value(ParsePrice(s).value)
  {
    match ParsePrice(s)
    case Success(n) => Value(n)
    case Failure(_) => ZeroPrice
  }

  /** The match at a given start is determined: two numerals that both match at the same
      position are equal. */
  lemma NumeralAtUnique(s: string, i: nat, a: Numeral, b: Numeral)
    requires NumeralAt(s, i, a) && NumeralAt(s, i, b)
    ensures a == b
  {
    var ea := i + |a.whole|;
    var eb := i + |b.whole|;
    DigitsIn(s, i, a.whole);
    DigitsIn(s, i, b.whole);
    assert ea == eb;
    assert a.whole == b.whole;
    if a.fraction.Some? && b.fraction.Some? {
      DigitsIn(s, ea + 1, a.fraction.value);
      DigitsIn(s, ea + 1, b.fraction.value);
      assert |a.fraction.value| == |b.fraction.value|;
    }
  }

  lemma DigitsIn(s: string, i: nat, d: string)
    requires i + |d| <= |s| && s[i..i + |d|] == d && AllDigits(d)
    ensures forall k :: i <= k < i + |d| ==> IsDigit(s[k])
  {
    forall k | i <= k < i + |d|
      ensures IsDigit(s[k])
    {
      assert s[k] == d[k - i];
    }
  }

  /** A price with a dot decimal separator yields its integer and fraction digits. */
  lemma ParseDottedPrice()
    ensures ParsePrice("€ 123.45 incl. VAT") == Success(Numeral("123", Some("45")))
    ensures PriceOrZero("€ 123.45 incl. VAT") == Decimal(12345, 2)
  {
    DottedFirstDigit("€ 123.45 incl. VAT");
    DottedNumeral();
    NumeralAtUnique("€ 123.45 incl. VAT", 2, Numeral("123", Some("45")), ParsePrice("€ 123.45 incl. VAT").value);
    DigitsExamples();
  }

  lemma DottedFirstDigit(s: string)
    requires s == "€ 123.45 incl. VAT"
    ensures FirstDigit(s) == Some(2)
  {
    assert s[0] == '€' && s[1] == ' ' && s[2] == '1';
    assert FirstDigitFrom(s, 2) == Some(2);
    assert FirstDigitFrom(s, 1) == Some(2);
  }

  lemma DottedNumeral()
    ensures NumeralAt("€ 123.45 incl. VAT", 2, Numeral("123", Some("45")))
  {
    assert "€ 123.45 incl. VAT"[2..5] == "123";
    assert "€ 123.45 incl. VAT"[6..8] == "45";
  }

  lemma DigitsExamples()
    ensures DigitsValue("123") == 123 && DigitsValue("45") == 45
  {
  }

  /** A decimal comma is not part of the numeral pattern: only the integer part is read. */
  lemma ParseCommaPrice()
    ensures ParsePrice("45,00 €") == Success(Numeral("45", None))
    ensures PriceOrZero("45,00 €") == Decimal(45, 0)
  {
    assert FirstDigit("45,00 €") == Some(0);
    assert NumeralAt("45,00 €", 0, Numeral("45", None)) by {
      assert "45,00 €"[0..2] == "45";
    }
    NumeralAtUnique("45,00 €", 0, Numeral("45", None), ParsePrice("45,00 €").value);
    DigitsExamples();
  }

  /** A text without digits is a parse failure, and the part's price defaults to zero. */
  lemma ParseNoPrice()
    ensures ParsePrice("ask for price") == Failure(NoPriceFound)
    ensures PriceOrZero("ask for price") == ZeroPrice
  {
    assert FirstDigit("ask for price") == None;
  }
}
