/** Character classes and the small string primitives of Go's `strings`, `strconv` and
    `regexp` packages that the extractors rely on. Strings are sequences of Unicode scalar
    values; the regular-expression classes are RE2's ASCII classes. */
module Text {
  import opened Results

  /** `unicode.IsSpace`: the Latin-1 white space characters plus Unicode's White_Space set.
      This is the notion of white space used by `strings.Fields` and `strings.TrimSpace`. */
  predicate IsSpace(c: char) {
    var n := c as int;
    || n == 0x20 || 0x09 <= n <= 0x0D || n == 0x85 || n == 0xA0 || n == 0x1680
    || 0x2000 <= n <= 0x200A || n == 0x2028 || n == 0x2029 || n == 0x202F
    || n == 0x205F || n == 0x3000
  }

  /** RE2's `\s`: `[\t\n\f\r ]` (vertical tab is not included). */
  predicate IsRegexSpace(c: char) {
    c == ' ' || c == '\t' || c == '\n' || c == '\r' || c as int == 0x0C
  }

  /** RE2's `\d`. */
  predicate IsDigit(c: char) {
    '0' <= c <= '9'
  }

  /** RE2's `\w`: `[0-9A-Za-z_]`. */
  predicate IsWordChar(c: char) {
    IsDigit(c) || 'a' <= c <= 'z' || 'A' <= c <= 'Z' || c == '_'
  }

  predicate AllSpace(s: string) {
    forall i :: 0 <= i < |s| ==> IsSpace(s[i])
  }

  predicate AllDigits(s: string) {
    forall i :: 0 <= i < |s| ==> IsDigit(s[i])
  }

  /** The strings glued together in order, with no delimiter. */
  function Concat(ws: seq<string>): string {
    if ws == [] then [] else ws[0] + Concat(ws[1..])
  }

  /** Two strings glued together without a delimiter are the one string `a + b`. */
  lemma ConcatPair(a: string, b: string)
    ensures Concat([a, b]) == a + b
  {
    assert Concat([b]) == b + Concat([]);
  }

  function DigitValue(c: char): (d: nat)
    requires IsDigit(c)
    ensures d < 10
  {
    (c as int) - ('0' as int)
  }

  function DigitChar(d: nat): (c: char)
    requires d < 10
    ensures IsDigit(c) && DigitValue(c) == d
  {
    (('0' as int) + d) as char
  }

  function Pow10(k: nat): (p: nat)
    ensures p >= 1
  {
    if k == 0 then 1 else 10 * Pow10(k - 1)
  }

  /** The value of a run of decimal digits, as `strconv.Atoi` reads it (leading zeros allowed). */
  function DigitsValue(s: string): (n: nat)
    requires AllDigits(s)
    ensures n < Pow10(|s|)
  {
    if s == [] then 0 else DigitsValue(s[..|s| - 1]) * 10 + DigitValue(s[|s| - 1])
  }

  /** Decimal rendering of a natural number, as `strconv.Itoa` and `fmt.Sprint` write it:
      digits only, no sign, no leading zero, and it reads back as the same number. */
  function Itoa(n: nat): (s: string)
    ensures |s| >= 1 && AllDigits(s)
    ensures s[0] == '0' ==> s == "0"
    ensures DigitsValue(s) == n
  {
    if n < 10 then [DigitChar(n)]
    else
      var prefix := Itoa(n / 10);
      var s := prefix + [DigitChar(n % 10)];
      assert s[..|s| - 1] == prefix;
      s
  }

  /** Reading a digit string without a leading zero and rendering it again gives it back. */
  lemma {:induction false} ItoaOfDigits(s: string)
    requires |s| >= 1 && AllDigits(s)
    requires s[0] != '0' || |s| == 1
    ensures Itoa(DigitsValue(s)) == s
  {
    var n := DigitsValue(s);
    if |s| == 1 {
      assert s[..0] == [];
    } else {
      var p := s[..|s| - 1];
      assert p[0] == s[0];
      ItoaOfDigits(p);
      assert DigitsValue(p) >= 1 by { LeadingDigitBound(p); }
      assert n / 10 == DigitsValue(p) && n % 10 == DigitValue(s[|s| - 1]);
      assert s == p + [s[|s| - 1]];
    }
  }

  /** A digit string that does not start with '0' has value at least 10^(length-1). */
  lemma {:induction false} LeadingDigitBound(s: string)
    requires |s| >= 1 && AllDigits(s) && s[0] != '0'
    ensures DigitsValue(s) >= Pow10(|s| - 1)
  {
    if |s| > 1 {
      var p := s[..|s| - 1];
      assert p[0] == s[0];
      LeadingDigitBound(p);
    }
  }

  /** Leading zeros do not change the value of a digit string. */
  lemma {:induction false} LeadingZeroValue(s: string)
    requires |s| >= 1 && AllDigits(s) && s[0] == '0'
    ensures DigitsValue(s) == DigitsValue(s[1..])
  {
    if |s| > 1 {
      var p := s[..|s| - 1];
      LeadingZeroValue(p);
      assert p[1..] == s[1..][..|s[1..]| - 1];
    } else {
      assert s[..0] == [];
    }
  }

  /** A digit string with its leading zeros removed (a lone zero is kept). */
  function StripZeros(d: string): (r: string)
    requires |d| >= 1 && AllDigits(d)
    ensures 1 <= |r| <= |d| && r == d[|d| - |r|..]
    ensures r[0] != '0' || |r| == 1
    ensures AllDigits(r) && DigitsValue(r) == DigitsValue(d)
  {
    if |d| > 1 && d[0] == '0' then
      LeadingZeroValue(d);
      StripZeros(d[1..])
    else d
  }

  /** Rendering the value of a digit string gives the string without its leading zeros. */
  lemma ItoaOfPadded(d: string)
    requires |d| >= 1 && AllDigits(d)
    ensures Itoa(DigitsValue(d)) == StripZeros(d)
  {
    ItoaOfDigits(StripZeros(d));
  }

  /** The rendering of a number below 10^k has at most k digits. */
  lemma {:induction false} ItoaLength(n: nat, k: nat)
    requires 1 <= k && n < Pow10(k)
    ensures |Itoa(n)| <= k
  {
    if n >= 10 {
      assert k >= 2;
      ItoaLength(n / 10, k - 1);
    }
  }

  function LowerChar(c: char): char {
    if 'A' <= c <= 'Z' then ((c as int) + 32) as char else c
  }

  /** `strings.ToLower`, restricted to ASCII letters; the length is preserved. */
  function Lower(s: string): (r: string)
    ensures |r| == |s|
    ensures forall i :: 0 <= i < |s| ==> r[i] == LowerChar(s[i])
  {
    seq(|s|, i requires 0 <= i < |s| => LowerChar(s[i]))
  }

  /** Leading white space removed. */
  function TrimLeft(s: string): (r: string)
    ensures |r| <= |s| && r == s[|s| - |r|..]
    ensures AllSpace(s[..|s| - |r|])
    ensures r == [] || !IsSpace(r[0])
  {
    if s == [] || !IsSpace(s[0]) then s
    else
      var t := s[1..];
      var r := TrimLeft(t);
      TrimLeftStep(s, t, r);
      r
  }

  lemma TrimLeftStep(s: string, t: string, r: string)
    requires |s| > 0 && IsSpace(s[0]) && t == s[1..]
    requires |r| <= |t| && r == t[|t| - |r|..] && AllSpace(t[..|t| - |r|])
    ensures |r| <= |s| && r == s[|s| - |r|..] && AllSpace(s[..|s| - |r|])
  {
    var n := |t| - |r|;
    DropDrop(s, 1, n);
    var pre, tpre := s[..n + 1], t[..n];
    forall i | 0 <= i < |pre|
      ensures IsSpace(pre[i])
    {
      if i > 0 {
        assert pre[i] == tpre[i - 1];
      }
    }
  }

  /** Trailing white space removed. */
  function TrimRight(s: string): (r: string)
    ensures |r| <= |s| && r == s[..|r|]
    ensures AllSpace(s[|r|..])
    ensures r == [] || !IsSpace(r[|r| - 1])
  {
    if s == [] || !IsSpace(s[|s| - 1]) then s
    else
      var t := s[..|s| - 1];
      var r := TrimRight(t);
      TrimRightStep(s, t, r);
      r
  }

  lemma TrimRightStep(s: string, t: string, r: string)
    requires |s| > 0 && IsSpace(s[|s| - 1]) && t == s[..|s| - 1]
    requires |r| <= |t| && r == t[..|r|] && AllSpace(t[|r|..])
    ensures |r| <= |s| && r == s[..|r|] && AllSpace(s[|r|..])
  {
    assert t[..|r|] == s[..|r|];
    forall i | 0 <= i < |s| - |r|
      ensures IsSpace(s[|r|..][i])
    {
      if i < |t| - |r| {
        assert s[|r|..][i] == t[|r|..][i];
      }
    }
  }

  function Last<T>(xs: seq<T>): T
    requires |xs| > 0
  {
    xs[|xs| - 1]
  }

  /** `strings.TrimSpace`: a slice of the input whose ends are not white space. TrimSpaceSplit
      adds that only white space is cut off, and TrimSpacePadded that no other text has these
      properties. */
  function TrimSpace(s: string): (r: string)
    ensures |r| <= |s|
    ensures r == [] || (!IsSpace(r[0]) && !IsSpace(r[|r| - 1]))
    ensures OccursAt(s, r, |s| - |TrimLeft(s)|)
  {
    var l := TrimLeft(s);
    var r := TrimRight(l);
    PrefixOfSuffix(s, l, r, |s| - |l|);
    r
  }

  /** A prefix `r` of the suffix `l` of `s` that starts at `k` occurs in `s` at `k`. */
  lemma PrefixOfSuffix(s: string, l: string, r: string, k: nat)
    requires k <= |s| && l == s[k..] && |r| <= |l| && r == l[..|r|]
    ensures OccursAt(s, r, k)
  {
    DropTake(s, k, |r|);
  }

  /** `s` is `k` white-space characters, then `core`, then white space. */
  predicate PaddedAt(s: string, core: string, k: nat) {
    k + |core| <= |s| && AllSpace(s[..k]) && OccursAt(s, core, k) && AllSpace(s[k + |core|..])
  }

  /** `s` is white space, then `core`, then white space. */
  predicate PaddedBy(s: string, core: string) {
    exists k: nat | k <= |s| :: PaddedAt(s, core, k)
  }

  lemma TakeDrop<T>(s: seq<T>, n: nat)
    requires n <= |s|
    ensures s == s[..n] + s[n..]
  {
  }

  lemma HeadTail<T>(s: seq<T>)
    requires |s| > 0
    ensures s == [s[0]] + s[1..]
  {
  }

  lemma DropTake<T>(s: seq<T>, k: nat, n: nat)
    requires k + n <= |s|
    ensures s[k..][..n] == s[k..k + n]
  {
  }

  lemma DropDrop<T>(s: seq<T>, k: nat, n: nat)
    requires k + n <= |s|
    ensures s[k..][n..] == s[k + n..]
  {
  }

  /** `s` cut at `k` and `k + n`, glued back. */
  lemma SplitThree<T>(s: seq<T>, k: nat, n: nat)
    requires k + n <= |s|
    ensures s == s[..k] + s[k..k + n] + s[k + n..]
  {
  }

  lemma AppendAssoc<T>(a: seq<T>, b: seq<T>, c: seq<T>)
    ensures a + b + c == a + (b + c)
  {
  }

  /** A text with non-white ends that `s` is padded around is what trimming `s` gives. */
  lemma PaddedUnique(s: string, core: string)
    requires PaddedBy(s, core) && (core == [] || (!IsSpace(core[0]) && !IsSpace(core[|core| - 1])))
    ensures TrimSpace(s) == core
  {
    var k: nat :| k <= |s| && PaddedAt(s, core, k);
    PaddedAtUnique(s, core, k);
  }

  lemma PaddedAtUnique(s: string, core: string, k: nat)
    requires PaddedAt(s, core, k) && (core == [] || (!IsSpace(core[0]) && !IsSpace(core[|core| - 1])))
    ensures TrimSpace(s) == core
  {
    var pre, mid, post := s[..k], s[k..k + |core|], s[k + |core|..];
    SplitThree(s, k, |core|);
    assert mid == core;
    TrimSpacePadded(pre, mid, post);
  }

  /** The trimmed text is the input with a white-space prefix and suffix taken off. */
  lemma TrimSpaceSplit(s: string)
    ensures PaddedBy(s, TrimSpace(s))
  {
    var l := TrimLeft(s);
    var r := TrimRight(l);
    var k := |s| - |l|;
    PrefixOfSuffix(s, l, r, k);
    DropDrop(s, k, |r|);
    assert AllSpace(s[k + |r|..]);
    assert PaddedAt(s, r, k);
  }

  /** A text whose ends are not white space is left as it is. */
  lemma TrimSpaceNoPadding(s: string)
    requires s == [] || (!IsSpace(s[0]) && !IsSpace(s[|s| - 1]))
    ensures TrimSpace(s) == s
  {
    assert TrimLeft(s) == s;
    assert TrimRight(s) == s;
  }

  lemma TrimSpaceIdempotent(s: string)
    ensures TrimSpace(TrimSpace(s)) == TrimSpace(s)
  {
    TrimSpaceNoPadding(TrimSpace(s));
  }

  /** White space in front of a text that does not start with white space is cut off. */
  lemma {:induction false} TrimLeftPadded(p: string, x: string)
    requires AllSpace(p) && (x == [] || !IsSpace(x[0]))
    ensures TrimLeft(p + x) == x
    decreases |p|
  {
    if p == [] {
      assert p + x == x;
    } else {
      assert (p + x)[0] == p[0];
      assert (p + x)[1..] == p[1..] + x;
      TrimLeftPadded(p[1..], x);
    }
  }

  /** White space after a text that does not end with white space is cut off. */
  lemma {:induction false} TrimRightPadded(x: string, q: string)
    requires AllSpace(q) && (x == [] || !IsSpace(x[|x| - 1]))
    ensures TrimRight(x + q) == x
    decreases |q|
  {
    if q == [] {
      assert x + q == x;
    } else {
      var q' := q[..|q| - 1];
      assert (x + q)[|x + q| - 1] == q[|q| - 1];
      assert (x + q)[..|x + q| - 1] == x + q';
      TrimRightPadded(x, q');
    }
  }

  /** `TrimSpace` strips exactly the white-space padding around a core whose ends are not
      white space: the decomposition padding + core + padding is unique. */
  lemma TrimSpacePadded(p: string, m: string, q: string)
    requires AllSpace(p) && AllSpace(q)
    requires m == [] || (!IsSpace(m[0]) && !IsSpace(m[|m| - 1]))
    ensures TrimSpace(p + m + q) == m
  {
    var s := p + m + q;
    if m == [] {
      assert s == p + q;
      assert AllSpace(s);
      assert s + m == s;
      TrimLeftPadded(s, m);
    } else {
      AppendAssoc(p, m, q);
      TrimLeftPadded(p, m + q);
      TrimRightPadded(m, q);
    }
  }

  predicate OccursAt(s: string, sub: string, k: nat) {
    k + |sub| <= |s| && s[k..k + |sub|] == sub
  }

  /** `strings.Index` from position `from` on: the first occurrence at or after `from`. */
  function IndexFrom(s: string, sub: string, from: nat): (r: Option<nat>)
    requires from <= |s|
    ensures r.Some? ==> from <= r.value && OccursAt(s, sub, r.value)
    ensures r.Some? ==> forall k :: from <= k < r.value ==> !OccursAt(s, sub, k)
    ensures r.None? ==> forall k :: from <= k <= |s| ==> !OccursAt(s, sub, k)
    decreases |s| - from
  {
    if OccursAt(s, sub, from) then Some(from)
    else if from == |s| then None
    else IndexFrom(s, sub, from + 1)
  }

  /** An occurrence at `k` makes `strings.Index` succeed, at `k` or earlier. */
  lemma IndexOfFound(s: string, sub: string, k: nat)
    requires OccursAt(s, sub, k)
    ensures IndexOf(s, sub).Some? && IndexOf(s, sub).value <= k
  {
  }

  /** `strings.Index`: the position of the first occurrence of `sub` in `s`, or none. */
  function IndexOf(s: string, sub: string): (r: Option<nat>)
    ensures r.Some? ==> OccursAt(s, sub, r.value)
    ensures r.Some? ==> forall k :: 0 <= k < r.value ==> !OccursAt(s, sub, k)
    ensures r.None? ==> forall k :: 0 <= k <= |s| ==> !OccursAt(s, sub, k)
  {
    IndexFrom(s, sub, 0)
  }
}
