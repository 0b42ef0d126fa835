/** `generateHash`: FNV-1a with 32-bit state (draft-eastlake-fnv, section 2) over the UTF-8
    bytes of the argument strings, written one after another into the same hash state,
    rendered in decimal. */
module Hash {
  import opened Text

  /** The 32-bit FNV offset basis 2166136261. */
  const OffsetBasis32: bv32 := 0x811C9DC5
  /** The 32-bit FNV prime 16777619. */
  const Prime32: bv32 := 0x01000193

  /** The UTF-8 encoding of one Unicode scalar value, as Go's `[]byte(s)` produces it. */
  function EncodeChar(c: char): (b: seq<bv8>)
    ensures 1 <= |b| <= 4
    ensures (c as int < 0x80) <==> |b| == 1
    ensures c as int < 0x80 ==> b == [(c as int) as bv8]
  {
    var n := c as int;
    if n < 0x80 then [n as bv8]
    else if n < 0x800 then [(0xC0 + n / 0x40) as bv8, (0x80 + n % 0x40) as bv8]
    else if n < 0x10000 then
      [(0xE0 + n / 0x1000) as bv8, (0x80 + (n / 0x40) % 0x40) as bv8, (0x80 + n % 0x40) as bv8]
    else
      [(0xF0 + n / 0x40000) as bv8, (0x80 + (n / 0x1000) % 0x40) as bv8,
       (0x80 + (n / 0x40) % 0x40) as bv8, (0x80 + n % 0x40) as bv8]
  }

  function Utf8(s: string): seq<bv8> {
    if s == [] then [] else EncodeChar(s[0]) + Utf8(s[1..])
  }

  /** One FNV-1a step per byte: xor the byte in, then multiply by the prime modulo 2^32. */
  function Step(h: bv32, b: bv8): bv32 {
    (h ^ (b as bv32)) * Prime32
  }

  function Fnv1a(h: bv32, data: seq<bv8>): bv32
    decreases |data|
  {
    if data == [] then h else Fnv1a(Step(h, data[0]), data[1..])
  }

  /** `h.Write([]byte(a))` for each argument in turn, on one hash state. */
  function WriteAll(h: bv32, vals: seq<string>): bv32
    decreases |vals|
  {
    if vals == [] then h else WriteAll(Fnv1a(h, Utf8(vals[0])), vals[1..])
  }

  /** `generateHash`: a decimal numeral without leading zeros, of at most ten digits, whose
      value is below 2^32 and is the FNV-1a hash of the arguments' bytes glued together. */
  function GenerateHash(vals: seq<string>): (id: string)
    ensures 1 <= |id| <= 10 && AllDigits(id)
    ensures id[0] == '0' ==> id == "0"
    ensures DigitsValue(id) < 0x1_0000_0000
    ensures DigitsValue(id) == Fnv1a(OffsetBasis32, Utf8(Concat(vals))) as nat
  {
    var h := WriteAll(OffsetBasis32, vals);
    WriteAllConcat(OffsetBasis32, vals);
    assert Pow10(10) == 10_000_000_000;
    ItoaLength(h as nat, 10);
    Itoa(h as nat)
  }

  lemma {:induction false} Utf8Append(a: string, b: string)
    ensures Utf8(a + b) == Utf8(a) + Utf8(b)
  {
    if a == [] {
      assert a + b == b;
    } else {
      assert (a + b)[1..] == a[1..] + b;
      Utf8Append(a[1..], b);
    }
  }

  /** Hashing a concatenation continues from the state reached after the first part. */
  lemma {:induction false} Fnv1aAppend(h: bv32, x: seq<bv8>, y: seq<bv8>)
    ensures Fnv1a(h, x + y) == Fnv1a(Fnv1a(h, x), y)
    decreases |x|
  {
    if x == [] {
      assert x + y == y;
    } else {
      assert (x + y)[1..] == x[1..] + y;
      Fnv1aAppend(Step(h, x[0]), x[1..], y);
    }
  }

  /** Writing the arguments one by one is hashing their concatenation: there is no delimiter. */
  lemma {:induction false} WriteAllConcat(h: bv32, vals: seq<string>)
    ensures WriteAll(h, vals) == Fnv1a(h, Utf8(Concat(vals)))
    decreases |vals|
  {
    if vals != [] {
      WriteAllConcat(Fnv1a(h, Utf8(vals[0])), vals[1..]);
      Utf8Append(vals[0], Concat(vals[1..]));
      Fnv1aAppend(h, Utf8(vals[0]), Utf8(Concat(vals[1..])));
    }
  }

  /** Moving the boundary between two arguments does not change the identifier. */
  lemma GenerateHashConcat(a: string, b: string)
    ensures GenerateHash([a, b]) == GenerateHash([a + b])
  {
    ConcatPair(a, b);
    assert Concat([a + b]) == a + b + Concat([]);
    WriteAllConcat(OffsetBasis32, [a, b]);
    WriteAllConcat(OffsetBasis32, [a + b]);
  }

  /** Test vectors of the 32-bit FNV-1a function from draft-eastlake-fnv: "", "a", and the
      six bytes of "foobar". */
  lemma Fnv1aVectors()
    ensures Fnv1a(OffsetBasis32, Utf8("")) == 0x811C9DC5
    ensures Fnv1a(OffsetBasis32, Utf8("a")) == 0xE40C292C
    ensures Fnv1a(OffsetBasis32, [0x66, 0x6F, 0x6F, 0x62, 0x61, 0x72]) == 0xBF9CF968
  {
    VectorA();
    FoobarHash();
  }

  lemma VectorA()
    ensures Fnv1a(OffsetBasis32, Utf8("a")) == 0xE40C292C
  {
    assert Utf8("a") == [0x61];
    assert Step(OffsetBasis32, 0x61) == 0xE40C292C;
    assert Fnv1a(OffsetBasis32, [0x61]) == Fnv1a(0xE40C292C, []);
  }

  lemma FoobarHash()
    ensures Fnv1a(OffsetBasis32, [0x66, 0x6F, 0x6F, 0x62, 0x61, 0x72]) == 0xBF9CF968
  {
    var bytes: seq<bv8> := [0x66, 0x6F, 0x6F, 0x62, 0x61, 0x72];
    var h := OffsetBasis32;
    assert Step(Step(Step(Step(Step(Step(h, 0x66), 0x6F), 0x6F), 0x62), 0x61), 0x72) == 0xBF9CF968;
    assert Fnv1a(h, bytes) == Fnv1a(Step(h, 0x66), bytes[1..]);
    assert bytes[1..][1..][1..][1..][1..][1..] == [];
  }

  /** The identifier of the single argument "a" is the decimal rendering of 0xE40C292C. */
  lemma GenerateHashExample()
    ensures GenerateHash(["a"]) == "3826002220"
  {
    assert WriteAll(OffsetBasis32, ["a"]) == WriteAll(Fnv1a(OffsetBasis32, Utf8("a")), []);
    Fnv1aVectors();
    RenderExample();
  }

  lemma RenderExample()
    ensures Itoa(3826002220) == "3826002220"
  {
    assert Itoa(3) == "3";
    assert Itoa(38) == "38";
    assert Itoa(382) == "382";
    assert Itoa(3826) == "3826";
    assert Itoa(38260) == "38260";
    assert Itoa(382600) == "382600";
    assert Itoa(3826002) == "3826002";
    assert Itoa(38260022) == "38260022";
    assert Itoa(382600222) == "382600222";
    assert Itoa(3826002220) == "3826002220";
  }
}
