/** The field extractors of the crawler: `extractYear`, `extractBrand` and `extractModel`,
    which derive year, brand and model from a vehicle's display name. The brand lexicon is a
    parameter; its contents are not part of this model. */
module Extract {
  import opened Results
  import opened Text

  // ---------------------------------------------------------------------------------------
  // extractYear: the leftmost match of `\d{4}`, read with strconv.Atoi.

  predicate FourDigitsAt(s: string, i: nat) {
    i + 4 <= |s| && IsDigit(s[i]) && IsDigit(s[i + 1]) && IsDigit(s[i + 2]) && IsDigit(s[i + 3])
  }

  function YearIndexFrom(s: string, from: nat): (r: Option<nat>)
    requires from <= |s|
    ensures r.Some? ==> from <= r.value && FourDigitsAt(s, r.value)
    ensures r.Some? ==> forall k :: from <= k < r.value ==> !FourDigitsAt(s, k)
    ensures r.None? ==> forall k :: from <= k ==> !FourDigitsAt(s, k)
    decreases |s| - from
  {
    if from + 4 > |s| then None
    else if FourDigitsAt(s, from) then Some(from)
    else YearIndexFrom(s, from + 1)
  }

  /** The position of the leftmost run of four digits. */
  function YearIndex(s: string): (r: Option<nat>)
    ensures r.Some? ==> FourDigitsAt(s, r.value)
    ensures r.Some? ==> forall k :: 0 <= k < r.value ==> !FourDigitsAt(s, k)
    ensures r.None? ==> forall k :: !FourDigitsAt(s, k)
  {
    YearIndexFrom(s, 0)
  }

  /** `extractYear`: 0 when there is no run of four digits, otherwise the value of the
      leftmost one, which is always at most 9999. */
  function ExtractYear(s: string): (y: nat)
    ensures y <= 9999
    ensures YearIndex(s).None? ==> y == 0
    ensures YearIndex(s).Some? ==> AllDigits(s[YearIndex(s).value..YearIndex(s).value + 4])
    ensures YearIndex(s).Some? ==> y == DigitsValue(s[YearIndex(s).value..YearIndex(s).value + 4])
  {
    match YearIndex(s)
    case None => 0
    case Some(i) =>
      var d := s[i..i + 4];
      assert d[0] == s[i] && d[1] == s[i + 1] && d[2] == s[i + 2] && d[3] == s[i + 3];
      assert Pow10(4) == 10000;
      DigitsValue(d)
  }

  /** A non-zero year can always be found again in the name as `strconv.Itoa(year)`: it is
      the four-digit run without its leading zeros. */
  lemma YearTextOccurs(s: string)
    requires ExtractYear(s) != 0
    ensures IndexOf(s, Itoa(ExtractYear(s))).Some?
  {
    var i := YearIndex(s).value;
    var d := s[i..i + 4];
    var r := StripZeros(d);
    ItoaOfPadded(d);
    SuffixFound(s, i, d, r);
  }

  /** A suffix of the four characters at `i` is found by `strings.Index`. */
  lemma SuffixFound(s: string, i: nat, d: string, r: string)
    requires i + 4 <= |s| && d == s[i..i + 4] && |r| <= |d| && r == d[|d| - |r|..]
    ensures IndexOf(s, r).Some?
  {
    assert OccursAt(s, r, i + 4 - |r|);
    IndexOfFound(s, r, i + 4 - |r|);
  }

  // ---------------------------------------------------------------------------------------
  // extractBrand: a lookup of the leading `^[\w-]+` window, then one retry with
  // `^[\w-]+\s[\w-]+`, in an index of the lexicon keyed by a normalised spelling.

  predicate IsBrandChar(c: char) {
    IsWordChar(c) || c == '-'
  }

  /** Length of the leading run of `[\w-]` characters. */
  function BrandRun(s: string): (n: nat)
    ensures n <= |s|
    ensures forall i :: 0 <= i < n ==> IsBrandChar(s[i])
    ensures n == |s| || !IsBrandChar(s[n])
  {
    if s == [] || !IsBrandChar(s[0]) then 0 else 1 + BrandRun(s[1..])
  }

  /** The two regular expressions the brand search tries, in this order. */
  datatype Window = OneWord | TwoWords

  /** The match of `^[\w-]+` or of `^[\w-]+\s[\w-]+` in `t`. Both runs are greedy, and the
      first run cannot give characters back because `\s` and `[\w-]` are disjoint. */
  function WindowMatch(t: string, w: Window): (m: Option<string>)
    ensures m.Some? ==> 0 < |m.value| <= |t| && m.value == t[..|m.value|]
    ensures w == OneWord ==> (m.Some? <==> BrandRun(t) > 0)
    ensures w == OneWord && m.Some? ==> m.value == t[..BrandRun(t)]
  {
    var n := BrandRun(t);
    if n == 0 then None
    else
      match w
      case OneWord => Some(t[..n])
      case TwoWords =>
        if n < |t| && IsRegexSpace(t[n]) then
          var k := BrandRun(t[n + 1..]);
          if k == 0 then None else Some(t[..n + 1 + k])
        else None
  }

  function ReplaceHyphens(s: string): (r: string)
    ensures |r| == |s|
    ensures forall i :: 0 <= i < |s| ==> r[i] == (if s[i] == '-' then ' ' else s[i])
  {
    seq(|s|, i requires 0 <= i < |s| => if s[i] == '-' then ' ' else s[i])
  }

  function RemoveSpaces(s: string): (r: string)
    ensures forall i :: 0 <= i < |r| ==> r[i] != ' '
    ensures forall i :: 0 <= i < |r| ==> r[i] in s
  {
    if s == [] then []
    else (if s[0] == ' ' then [] else [s[0]]) + RemoveSpaces(s[1..])
  }

  /** The normalised spelling used for lookups: hyphens and spaces removed, lower-cased
      (`strings.ToLower(strings.ReplaceAll(strings.ReplaceAll(x, "-", " "), " ", ""))`). */
  function BrandKey(s: string): (k: string)
    ensures forall i :: 0 <= i < |k| ==> k[i] != '-' && k[i] != ' ' && !('A' <= k[i] <= 'Z')
  {
    var r := RemoveSpaces(ReplaceHyphens(s));
    assert forall i :: 0 <= i < |r| ==> r[i] != '-';
    Lower(r)
  }

  /** The lookup index built from the lexicon by assigning `index[key(b)] = b` for every
      entry in order. Every key maps to an entry with that key, and every entry's key is
      present. */
  function BrandIndex(lexicon: seq<string>): (index: map<string, string>)
    ensures forall k :: k in index ==> index[k] in lexicon && BrandKey(index[k]) == k
    ensures forall b :: b in lexicon ==> BrandKey(b) in index
  {
    if lexicon == [] then map[]
    else
      var prefix := lexicon[..|lexicon| - 1];
      assert lexicon == prefix + [Last(lexicon)];
      BrandIndex(prefix)[BrandKey(Last(lexicon)) := Last(lexicon)]
  }

  /** Whether the key of window `w`'s match in `t` is in the index of the lexicon. */
  predicate Hit(t: string, lexicon: seq<string>, w: Window) {
    WindowMatch(t, w).Some? && BrandKey(WindowMatch(t, w).value) in BrandIndex(lexicon)
  }

  /** The entry found by a hit. */
  function HitBrand(t: string, lexicon: seq<string>, w: Window): (b: string)
    requires Hit(t, lexicon, w)
    ensures b in lexicon
    ensures BrandKey(b) == BrandKey(WindowMatch(t, w).value)
  {
    BrandIndex(lexicon)[BrandKey(WindowMatch(t, w).value)]
  }

  /** `extractBrand(s, matcher)`, the matcher given as a window. The search trims the name,
      looks up the key of the window's match, and on a miss with the one-word window calls
      itself once with the two-word window; the second call gives up on a miss. */
  function SearchBrand(s: string, lexicon: seq<string>, w: Window): (r: string)
    ensures r == "" || r in lexicon
    ensures Hit(TrimSpace(s), lexicon, w) ==> r == HitBrand(TrimSpace(s), lexicon, w)
    ensures !Hit(TrimSpace(s), lexicon, w) && w == TwoWords ==> r == ""
    ensures !Hit(TrimSpace(s), lexicon, w) && w == OneWord ==>
      r == (if Hit(TrimSpace(s), lexicon, TwoWords) then HitBrand(TrimSpace(s), lexicon, TwoWords) else "")
    decreases if w == OneWord then 1 else 0
  {
    var t := TrimSpace(s);
    match WindowMatch(t, w)
    case None =>
      if w == OneWord && WindowMatch(t, TwoWords).Some? then
        // A two-word match starts with a one-word match, so the retry is never reached here.
        assert false; ""
      else ""
    case Some(m) =>
      var index := BrandIndex(lexicon);
      var key := BrandKey(m);
      if key in index then index[key]
      else if w == OneWord then
        TrimSpaceIdempotent(s);
        SearchBrand(t, lexicon, TwoWords)
      else ""
  }

  /** `extractBrand(s, BrandReMatcher)`: "" or an entry of the lexicon. A hit on the one-word
      window wins; the two-word window is consulted only after a one-word miss; with no hit
      at all the brand is "". */
  function ExtractBrand(s: string, lexicon: seq<string>): (r: string)
    ensures r == "" || r in lexicon
    ensures Hit(TrimSpace(s), lexicon, OneWord) ==> r == HitBrand(TrimSpace(s), lexicon, OneWord)
    ensures !Hit(TrimSpace(s), lexicon, OneWord) && Hit(TrimSpace(s), lexicon, TwoWords) ==>
      r == HitBrand(TrimSpace(s), lexicon, TwoWords)
    ensures !Hit(TrimSpace(s), lexicon, OneWord) && !Hit(TrimSpace(s), lexicon, TwoWords) ==> r == ""
  {
    SearchBrand(s, lexicon, OneWord)
  }

  /** When several entries share a key, the index keeps the last of them. */
  lemma {:induction false} BrandIndexLastWins(lexicon: seq<string>, j: nat)
    requires j < |lexicon|
    requires forall j' :: j < j' < |lexicon| ==> BrandKey(lexicon[j']) != BrandKey(lexicon[j])
    ensures BrandIndex(lexicon)[BrandKey(lexicon[j])] == lexicon[j]
  {
    var prefix := lexicon[..|lexicon| - 1];
    if j < |lexicon| - 1 {
      assert prefix[j] == lexicon[j];
      BrandIndexLastWins(prefix, j);
    }
  }

  lemma {:induction false} RemoveSpacesAppend(a: string, b: string)
    ensures RemoveSpaces(a + b) == RemoveSpaces(a) + RemoveSpaces(b)
  {
    if a == [] {
      assert a + b == b;
    } else {
      assert (a + b)[1..] == a[1..] + b;
      RemoveSpacesAppend(a[1..], b);
    }
  }

  /** Hyphen, space or nothing between two parts of a name give the same key, so
      "Harley-Davidson", "Harley Davidson" and "HarleyDavidson" are looked up alike. */
  lemma BrandKeySeparators(a: string, b: string)
    ensures BrandKey(a + "-" + b) == BrandKey(a + b)
    ensures BrandKey(a + " " + b) == BrandKey(a + b)
  {
    assert ReplaceHyphens(a + "-" + b) == ReplaceHyphens(a) + " " + ReplaceHyphens(b);
    assert ReplaceHyphens(a + " " + b) == ReplaceHyphens(a) + " " + ReplaceHyphens(b);
    assert ReplaceHyphens(a + b) == ReplaceHyphens(a) + ReplaceHyphens(b);
    RemoveSpacesAppend(ReplaceHyphens(a) + " ", ReplaceHyphens(b));
    RemoveSpacesAppend(ReplaceHyphens(a), " ");
    RemoveSpacesAppend(ReplaceHyphens(a), ReplaceHyphens(b));
    assert RemoveSpaces(" ") == [];
    assert RemoveSpaces(ReplaceHyphens(a)) + [] == RemoveSpaces(ReplaceHyphens(a));
  }

  // ---------------------------------------------------------------------------------------
  // extractModel: the trimmed text between the brand and the year.

  /** Where the model text begins in the trimmed name `t`: the end of the first occurrence of
      `brand`, found ignoring case. */
  function ModelStart(t: string, brand: string): (start: nat)
    requires IndexOf(Lower(t), Lower(brand)).Some?
    ensures |brand| <= start <= |t|
    ensures OccursAt(Lower(t), Lower(brand), start - |brand|)
    ensures forall k :: 0 <= k < start - |brand| ==> !OccursAt(Lower(t), Lower(brand), k)
  {
    IndexOf(Lower(t), Lower(brand)).value + |brand|
  }

  /** Where the model text ends in the trimmed name `t`: the first occurrence of the year's
      decimal spelling, or the end of the name when no year is found. */
  function ModelStop(t: string): (stop: nat)
    ensures stop <= |t|
    ensures ExtractYear(t) == 0 ==> stop == |t|
  {
    if ExtractYear(t) == 0 then |t|
    else
      YearTextOccurs(t);
      IndexOf(t, Itoa(ExtractYear(t))).value
  }

  /** With a year found, the model ends at the first occurrence of its decimal spelling. */
  lemma ModelStopAtYear(t: string)
    requires ExtractYear(t) != 0
    ensures OccursAt(t, Itoa(ExtractYear(t)), ModelStop(t))
    ensures forall k :: 0 <= k < ModelStop(t) ==> !OccursAt(t, Itoa(ExtractYear(t)), k)
  {
    YearTextOccurs(t);
  }

  /** The slice between `brand` and the year is well defined in `t`: the brand occurs (ignoring
      case) and ends no later than where the year begins. */
  predicate SliceableFor(t: string, brand: string) {
    IndexOf(Lower(t), Lower(brand)).Some? && ModelStart(t, brand) <= ModelStop(t)
  }

  /** The untrimmed text between the end of `brand` and the start of the year in `t`. */
  function ModelSlice(t: string, brand: string): string
    requires SliceableFor(t, brand)
  {
    t[ModelStart(t, brand)..ModelStop(t)]
  }

  /** The text between `brand` and the year in the trimmed name `t`, trimmed again: the slice
      is white space, then the result, then white space, and the result has no white space at
      its ends. ModelBetweenUnique says no other text has both properties. */
  function ModelBetween(t: string, brand: string): (r: string)
    requires SliceableFor(t, brand)
    ensures r == [] || (!IsSpace(r[0]) && !IsSpace(r[|r| - 1]))
    ensures PaddedBy(ModelSlice(t, brand), r)
  {
    TrimSpaceSplit(ModelSlice(t, brand));
    TrimSpace(ModelSlice(t, brand))
  }

  lemma ModelBetweenUnique(t: string, brand: string, m: string)
    requires SliceableFor(t, brand)
    requires PaddedBy(ModelSlice(t, brand), m) && (m == [] || (!IsSpace(m[0]) && !IsSpace(m[|m| - 1])))
    ensures ModelBetween(t, brand) == m
  {
    PaddedUnique(ModelSlice(t, brand), m);
  }

  /** The conditions under which `extractModel`'s slice is well defined: when a brand is found,
      its canonical spelling occurs in the name (ignoring case) and ends no later than where the
      year begins. Otherwise the code slices from a wrong position, or panics. */
  predicate ModelSliceable(s: string, lexicon: seq<string>) {
    var t := TrimSpace(s);
    ExtractBrand(t, lexicon) != "" ==> SliceableFor(t, ExtractBrand(t, lexicon))
  }

  /** `extractModel`: "" when no brand is found; otherwise the text between the end of the first
      case-insensitive brand occurrence and the start of the year (or the end of the name),
      with the white space around it removed. */
  function ExtractModel(s: string, lexicon: seq<string>): (r: string)
    requires ModelSliceable(s, lexicon)
    ensures ExtractBrand(TrimSpace(s), lexicon) == "" ==> r == ""
    ensures r == [] || (!IsSpace(r[0]) && !IsSpace(r[|r| - 1]))
    ensures var t := TrimSpace(s);
      ExtractBrand(t, lexicon) != "" ==> PaddedBy(ModelSlice(t, ExtractBrand(t, lexicon)), r)
  {
    var t := TrimSpace(s);
    var brand := ExtractBrand(t, lexicon);
    if |brand| == 0 then "" else ModelBetween(t, brand)
  }

  /** With a brand found, the model is exactly the text that, padded with white space, makes up
      the slice between the brand and the year and has no white space at its ends. */
  lemma ExtractModelExactly(s: string, lexicon: seq<string>, m: string)
    requires ModelSliceable(s, lexicon) && ExtractBrand(TrimSpace(s), lexicon) != ""
    ensures var t := TrimSpace(s);
      ExtractModel(s, lexicon) == m <==>
        PaddedBy(ModelSlice(t, ExtractBrand(t, lexicon)), m) && (m == [] || (!IsSpace(m[0]) && !IsSpace(m[|m| - 1])))
  {
    var t := TrimSpace(s);
    var brand := ExtractBrand(t, lexicon);
    if PaddedBy(ModelSlice(t, brand), m) && (m == [] || (!IsSpace(m[0]) && !IsSpace(m[|m| - 1]))) {
      ModelBetweenUnique(t, brand, m);
    }
  }

  // ---------------------------------------------------------------------------------------
  // A name "<brand> <model> <year><rest>", or "<brand> <model>" without a year, is taken
  // apart into exactly its parts.

  function Name(b: string, m: string, d: string): string {
    b + " " + m + " " + d
  }

  /** A one-word lexicon entry made of `[\w-]` characters whose key no other entry shares. */
  predicate LexiconBrand(b: string, lexicon: seq<string>) {
    && |b| > 0 && (forall i :: 0 <= i < |b| ==> IsBrandChar(b[i]))
    && b in lexicon
    && (forall e :: e in lexicon && BrandKey(e) == BrandKey(b) ==> e == b)
  }

  /** The brand and model the extractors are written for: a lexicon brand, and a model without
      white space at its ends such that "<brand> <model>" has no four-digit run. */
  predicate BrandModel(b: string, m: string, lexicon: seq<string>) {
    && LexiconBrand(b, lexicon)
    && (m == [] || (!IsSpace(m[0]) && !IsSpace(m[|m| - 1])))
    && (forall i :: 0 <= i <= |b| + |m| + 1 ==> !FourDigitsAt(b + " " + m, i))
  }

  /** Brand and model as above, followed by a four-digit year that does not start with 0. */
  predicate NameParts(b: string, m: string, d: string, lexicon: seq<string>) {
    BrandModel(b, m, lexicon) && |d| == 4 && AllDigits(d) && d[0] != '0'
  }

  /** Text after the year: anything, as long as the name does not end in white space. */
  predicate Tail(rest: string) {
    rest == [] || !IsSpace(rest[|rest| - 1])
  }

  lemma Untrimmed(n: string)
    requires |n| > 0 && !IsSpace(n[0]) && !IsSpace(n[|n| - 1])
    ensures TrimSpace(n) == n
  {
    TrimSpaceNoPadding(n);
  }

  /** A run of `[\w-]` characters followed by another character ends where that one begins. */
  lemma {:induction false} BrandRunPrefix(b: string, rest: string)
    requires forall i :: 0 <= i < |b| ==> IsBrandChar(b[i])
    requires rest == [] || !IsBrandChar(rest[0])
    ensures BrandRun(b + rest) == |b|
  {
    if b == [] {
      assert b + rest == rest;
    } else {
      assert (b + rest)[1..] == b[1..] + rest;
      BrandRunPrefix(b[1..], rest);
    }
  }

  /** A trimmed name that starts with a lexicon brand followed by a space has that brand, and the
      brand is found at position 0 when the model is located. */
  lemma LeadingBrand(n: string, b: string, tail: string, lexicon: seq<string>)
    requires LexiconBrand(b, lexicon) && |tail| > 0 && tail[0] == ' '
    requires n == b + tail && TrimSpace(n) == n
    ensures ExtractBrand(n, lexicon) == b
    ensures IndexOf(Lower(n), Lower(b)) == Some(0)
  {
    BrandRunPrefix(b, tail);
    assert n[..|b|] == b;
    assert WindowMatch(n, OneWord) == Some(b);
    assert Hit(n, lexicon, OneWord);
    BrandAtStart(n, b, tail);
  }

  lemma BrandAtStart(n: string, b: string, tail: string)
    requires n == b + tail
    ensures IndexOf(Lower(n), Lower(b)) == Some(0)
  {
    assert Lower(n)[0..|b|] == Lower(b);
    IndexOfFound(Lower(n), Lower(b), 0);
  }

  /** The leftmost four-digit run of "<brand> <model> <year><rest>" is the year. */
  lemma NameYearIndex(n: string, b: string, m: string, d: string, rest: string, lexicon: seq<string>)
    requires NameParts(b, m, d, lexicon) && n == Name(b, m, d) + rest
    ensures YearIndex(n) == Some(|b| + |m| + 2)
    ensures n[|b| + |m| + 2..|b| + |m| + 6] == d
  {
    var p := b + " " + m;
    assert n == p + " " + d + rest;
    var y := |p| + 1;
    assert n[y..y + 4] == d;
    assert FourDigitsAt(n, y);
    forall k | 0 <= k < y
      ensures !FourDigitsAt(n, k)
    {
      if k + 4 <= |p| {
        assert n[k] == p[k] && n[k + 1] == p[k + 1] && n[k + 2] == p[k + 2] && n[k + 3] == p[k + 3];
        assert !FourDigitsAt(p, k);
      } else {
        assert n[|p|] == ' ';
      }
    }
  }

  lemma NameYear(n: string, b: string, m: string, d: string, rest: string, lexicon: seq<string>)
    requires NameParts(b, m, d, lexicon) && n == Name(b, m, d) + rest
    ensures ExtractYear(n) == DigitsValue(d)
    ensures Itoa(ExtractYear(n)) == d
  {
    NameYearIndex(n, b, m, d, rest, lexicon);
    ItoaOfDigits(d);
  }

  /** The model ends where the year begins. */
  lemma NameStop(n: string, b: string, m: string, d: string, rest: string, lexicon: seq<string>)
    requires NameParts(b, m, d, lexicon) && n == Name(b, m, d) + rest
    ensures ModelStop(n) == |b| + |m| + 2
  {
    NameYear(n, b, m, d, rest, lexicon);
    NameYearIndex(n, b, m, d, rest, lexicon);
    var y := |b| + |m| + 2;
    assert OccursAt(n, d, y);
    IndexOfFound(n, d, y);
    var k := IndexOf(n, d).value;
    assert n[k..k + 4] == d;
    assert FourDigitsAt(n, k);
  }

  /** A model padded by one space on each side is what the model extractor returns. */
  lemma SpacedModel(n: string, b: string, m: string, stop: nat)
    requires IndexOf(Lower(n), Lower(b)) == Some(0) && ModelStop(n) == stop
    requires |b| <= stop <= |n| && (n[|b|..stop] == " " + m || n[|b|..stop] == " " + m + " ")
    requires m == [] || (!IsSpace(m[0]) && !IsSpace(m[|m| - 1]))
    ensures SliceableFor(n, b)
    ensures ModelBetween(n, b) == m
  {
    var slice := ModelSlice(n, b);
    assert slice == n[|b|..stop];
    assert AllSpace(slice[..1]) && OccursAt(slice, m, 1) && AllSpace(slice[1 + |m|..]);
    assert PaddedAt(slice, m, 1);
    ModelBetweenUnique(n, b, m);
  }

  /** The brand, year and model extracted from "<brand> <model> <year><rest>" are exactly its
      parts, and the name meets the model extractor's precondition. Text after the year does
      not matter. */
  lemma NameRoundTrip(b: string, m: string, d: string, rest: string, lexicon: seq<string>)
    requires NameParts(b, m, d, lexicon) && Tail(rest)
    ensures ExtractBrand(Name(b, m, d) + rest, lexicon) == b
    ensures ExtractYear(Name(b, m, d) + rest) == DigitsValue(d)
    ensures ModelSliceable(Name(b, m, d) + rest, lexicon)
    ensures ExtractModel(Name(b, m, d) + rest, lexicon) == m
  {
    var n := Name(b, m, d) + rest;
    NameBrand(n, b, m, d, rest, lexicon);
    NameYear(n, b, m, d, rest, lexicon);
    NameModel(n, b, m, d, rest, lexicon);
  }

  lemma NameModel(n: string, b: string, m: string, d: string, rest: string, lexicon: seq<string>)
    requires NameParts(b, m, d, lexicon) && Tail(rest) && n == Name(b, m, d) + rest
    ensures ModelSliceable(n, lexicon) && ExtractModel(n, lexicon) == m
  {
    NameBrand(n, b, m, d, rest, lexicon);
    NameBetween(n, b, m, d, rest, lexicon);
    ModelOfTrimmed(n, lexicon, b, m);
  }

  lemma NameBetween(n: string, b: string, m: string, d: string, rest: string, lexicon: seq<string>)
    requires NameParts(b, m, d, lexicon) && Tail(rest) && n == Name(b, m, d) + rest
    ensures SliceableFor(n, b) && ModelBetween(n, b) == m
  {
    var stop := |b| + |m| + 2;
    NameModelSlice(n, b, m, d, rest);
    BrandAtStart(n, b, " " + m + " " + d + rest);
    NameStop(n, b, m, d, rest, lexicon);
    assert m == [] || (!IsSpace(m[0]) && !IsSpace(m[|m| - 1]));
    SpacedModel(n, b, m, stop);
  }

  /** A trimmed name's model is the text between its brand and its year. */
  lemma ModelOfTrimmed(n: string, lexicon: seq<string>, b: string, m: string)
    requires TrimSpace(n) == n && ExtractBrand(n, lexicon) == b && b != ""
    requires SliceableFor(n, b) && ModelBetween(n, b) == m
    ensures ModelSliceable(n, lexicon) && ExtractModel(n, lexicon) == m
  {
  }

  lemma NameBrand(n: string, b: string, m: string, d: string, rest: string, lexicon: seq<string>)
    requires NameParts(b, m, d, lexicon) && Tail(rest) && n == Name(b, m, d) + rest
    ensures TrimSpace(n) == n
    ensures ExtractBrand(n, lexicon) == b
    ensures IndexOf(Lower(n), Lower(b)) == Some(0)
  {
    assert n[0] == b[0] && IsBrandChar(b[0]);
    assert n[|n| - 1] == if rest == [] then d[3] else rest[|rest| - 1];
    Untrimmed(n);
    NameModelSlice(n, b, m, d, rest);
    LeadingBrand(n, b, " " + m + " " + d + rest, lexicon);
  }

  lemma NameModelSlice(n: string, b: string, m: string, d: string, rest: string)
    requires n == Name(b, m, d) + rest
    ensures n == b + (" " + m + " " + d + rest)
    ensures |b| <= |b| + |m| + 2 <= |n|
    ensures n[|b|..|b| + |m| + 2] == " " + m + " "
  {
  }

  /** "<brand> <model>" without a year: the model is the rest of the name. */
  lemma ShortNameRoundTrip(b: string, m: string, lexicon: seq<string>)
    requires BrandModel(b, m, lexicon) && m != []
    ensures ExtractBrand(b + " " + m, lexicon) == b
    ensures ExtractYear(b + " " + m) == 0
    ensures ModelSliceable(b + " " + m, lexicon)
    ensures ExtractModel(b + " " + m, lexicon) == m
  {
    var n := b + " " + m;
    ShortNameSlice(n, b, m);
    assert IsBrandChar(b[0]);
    Untrimmed(n);
    LeadingBrand(n, b, " " + m, lexicon);
    assert YearIndex(n).None?;
    assert m == [] || (!IsSpace(m[0]) && !IsSpace(m[|m| - 1]));
    SpacedModel(n, b, m, |n|);
    ModelOfTrimmed(n, lexicon, b, m);
  }

  lemma ShortNameSlice(n: string, b: string, m: string)
    requires n == b + " " + m && |b| > 0 && |m| > 0
    ensures n == b + (" " + m) && |b| <= |n|
    ensures n[0] == b[0] && n[|n| - 1] == m[|m| - 1]
    ensures n[|b|..|n|] == " " + m
  {
  }

  // ---------------------------------------------------------------------------------------
  // Facts for reading off the brand search on concrete names.

  /** The windows of a name that starts with two `[\w-]` words separated by `\s`. */
  lemma WindowsOf(w1: string, sep: char, w2: string, rest: string)
    requires |w1| > 0 && forall i :: 0 <= i < |w1| ==> IsBrandChar(w1[i])
    requires |w2| > 0 && forall i :: 0 <= i < |w2| ==> IsBrandChar(w2[i])
    requires IsRegexSpace(sep)
    requires rest == [] || !IsBrandChar(rest[0])
    ensures WindowMatch(w1 + [sep] + w2 + rest, OneWord) == Some(w1)
    ensures WindowMatch(w1 + [sep] + w2 + rest, TwoWords) == Some(w1 + [sep] + w2)
  {
    var u := w2 + rest;
    var t := w1 + [sep] + w2 + rest;
    assert t == w1 + ([sep] + u);
    OneWordWindowOf(w1, [sep] + u);
    TwoWordWindowOf(w1, sep, w2, rest, u, t);
  }

  lemma OneWordWindowOf(w: string, tail: string)
    requires |w| > 0 && forall i :: 0 <= i < |w| ==> IsBrandChar(w[i])
    requires tail == [] || !IsBrandChar(tail[0])
    ensures WindowMatch(w + tail, OneWord) == Some(w)
  {
    BrandRunPrefix(w, tail);
    assert (w + tail)[..|w|] == w;
  }

  lemma TwoWordWindowOf(w1: string, sep: char, w2: string, rest: string, u: string, t: string)
    requires |w1| > 0 && forall i :: 0 <= i < |w1| ==> IsBrandChar(w1[i])
    requires |w2| > 0 && forall i :: 0 <= i < |w2| ==> IsBrandChar(w2[i])
    requires IsRegexSpace(sep)
    requires rest == [] || !IsBrandChar(rest[0])
    requires u == w2 + rest && t == w1 + ([sep] + u) && t == w1 + [sep] + w2 + rest
    ensures WindowMatch(t, TwoWords) == Some(w1 + [sep] + w2)
  {
    BrandRunPrefix(w1, [sep] + u);
    assert t[|w1|] == sep;
    assert t[|w1| + 1..] == u;
    BrandRunPrefix(w2, rest);
    assert t[..|w1| + 1 + |w2|] == w1 + [sep] + w2;
  }

  lemma {:induction false} RemoveSpacesNone(s: string)
    requires forall i :: 0 <= i < |s| ==> s[i] != ' '
    ensures RemoveSpaces(s) == s
  {
    if s != [] {
      RemoveSpacesNone(s[1..]);
    }
  }

  /** Without hyphens and spaces, the key of a name is its lower-case spelling. */
  lemma PlainKey(s: string)
    requires forall i :: 0 <= i < |s| ==> s[i] != '-' && s[i] != ' '
    ensures BrandKey(s) == Lower(s)
  {
    assert ReplaceHyphens(s) == s;
    RemoveSpacesNone(s);
  }

  /** A hit whose key only `b` has in the lexicon finds `b`. */
  lemma UniqueKeyHit(t: string, lexicon: seq<string>, w: Window, b: string)
    requires WindowMatch(t, w).Some?
    requires b in lexicon && BrandKey(b) == BrandKey(WindowMatch(t, w).value)
    requires forall e :: e in lexicon && BrandKey(e) == BrandKey(b) ==> e == b
    ensures Hit(t, lexicon, w) && HitBrand(t, lexicon, w) == b
  {
  }

  /** A key no lexicon entry has is a miss. */
  lemma KeyMiss(t: string, lexicon: seq<string>, w: Window)
    requires WindowMatch(t, w).Some?
    requires forall e :: e in lexicon ==> BrandKey(e) != BrandKey(WindowMatch(t, w).value)
    ensures !Hit(t, lexicon, w)
  {
  }

  /** Two words joined by a space have the key of the words run together. */
  lemma SeparatedKey(a: string, b: string, s: string, j: string)
    requires s == a + " " + b && j == a + b
    requires forall i :: 0 <= i < |j| ==> j[i] != '-' && j[i] != ' '
    ensures BrandKey(s) == Lower(j)
  {
    BrandKeySeparators(a, b);
    PlainKey(j);
  }

  /** A name whose one-word window has the key of entry `b` alone is of brand `b`. */
  lemma OneWordBrand(s: string, lexicon: seq<string>, b: string)
    requires TrimSpace(s) == s && WindowMatch(s, OneWord).Some?
    requires b in lexicon && BrandKey(b) == BrandKey(WindowMatch(s, OneWord).value)
    requires forall e :: e in lexicon && BrandKey(e) == BrandKey(b) ==> e == b
    ensures ExtractBrand(s, lexicon) == b
  {
    UniqueKeyHit(s, lexicon, OneWord, b);
  }

  /** A name whose one-word window misses and whose two-word window has the key of entry `b`
      alone is of brand `b`. */
  lemma TwoWordBrand(s: string, lexicon: seq<string>, b: string)
    requires TrimSpace(s) == s && WindowMatch(s, OneWord).Some? && WindowMatch(s, TwoWords).Some?
    requires forall e :: e in lexicon ==> BrandKey(e) != BrandKey(WindowMatch(s, OneWord).value)
    requires b in lexicon && BrandKey(b) == BrandKey(WindowMatch(s, TwoWords).value)
    requires forall e :: e in lexicon && BrandKey(e) == BrandKey(b) ==> e == b
    ensures ExtractBrand(s, lexicon) == b
  {
    KeyMiss(s, lexicon, OneWord);
    UniqueKeyHit(s, lexicon, TwoWords, b);
  }

  /** A name both of whose windows miss has no brand. */
  lemma NoBrand(s: string, lexicon: seq<string>)
    requires TrimSpace(s) == s && WindowMatch(s, OneWord).Some? && WindowMatch(s, TwoWords).Some?
    requires forall e :: e in lexicon ==> BrandKey(e) != BrandKey(WindowMatch(s, OneWord).value)
    requires forall e :: e in lexicon ==> BrandKey(e) != BrandKey(WindowMatch(s, TwoWords).value)
    ensures ExtractBrand(s, lexicon) == ""
  {
    KeyMiss(s, lexicon, OneWord);
    KeyMiss(s, lexicon, TwoWords);
  }
}
