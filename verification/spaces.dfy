/** `standardizeSpaces` (`strings.Join(strings.Fields(s), " ")`): every run of white space
    becomes one space and both ends are trimmed. */
module Spaces {
  import opened Text

  /** A field as `strings.Fields` yields it: non-empty and free of white space. */
  predicate IsField(w: string) {
    |w| > 0 && forall i :: 0 <= i < |w| ==> !IsSpace(w[i])
  }

  predicate AllFields(ws: seq<string>) {
    forall i :: 0 <= i < |ws| ==> IsField(ws[i])
  }

  /** The shape of a standardized string: every white-space character is a plain space that
      sits strictly inside the string between two characters that are not white space. So
      there is no leading or trailing space and no two adjacent spaces. */
  predicate Standardized(s: string) {
    forall i :: 0 <= i < |s| && IsSpace(s[i]) ==>
      s[i] == ' ' && 0 < i < |s| - 1 && !IsSpace(s[i - 1]) && !IsSpace(s[i + 1])
  }

  /** The characters of `s` that are not white space, in order. */
  function NonSpace(s: string): string {
    if s == [] then []
    else (if IsSpace(s[0]) then [] else [s[0]]) + NonSpace(s[1..])
  }

  /** Length of the leading run of characters that are not white space. */
  function FieldLength(s: string): (n: nat)
    ensures n <= |s|
    ensures forall i :: 0 <= i < n ==> !IsSpace(s[i])
    ensures n == |s| || IsSpace(s[n])
  {
    if s == [] || IsSpace(s[0]) then 0 else 1 + FieldLength(s[1..])
  }

  /** `strings.Fields`: the maximal runs of non-white-space characters, in order. */
  function Fields(s: string): (ws: seq<string>)
    ensures AllFields(ws)
    decreases |s|
  {
    var t := TrimLeft(s);
    if t == [] then []
    else
      var n := FieldLength(t);
      var w := t[..n];
      var ws := Fields(t[n..]);
      assert IsField(w);
      ConsFields(w, ws);
      [w] + ws
  }

  lemma ConsFields(w: string, ws: seq<string>)
    requires IsField(w) && AllFields(ws)
    ensures AllFields([w] + ws)
  {
  }

  /** `strings.Join(ws, " ")`. */
  function Join(ws: seq<string>): string {
    if |ws| == 0 then []
    else if |ws| == 1 then ws[0]
    else ws[0] + " " + Join(ws[1..])
  }

  /** `standardizeSpaces`: the result has the standardized shape, keeps every character that
      is not white space, in order, and splits into the same fields as the input. */
  function StandardizeSpaces(s: string): (r: string)
    ensures Standardized(r)
    ensures NonSpace(r) == NonSpace(s)
    ensures Fields(r) == Fields(s)
  {
    var ws := Fields(s);
    JoinStandardized(ws);
    JoinNonSpace(ws);
    FieldsNonSpace(s);
    FieldsOfJoin(ws);
    Join(ws)
  }

  lemma {:induction false} NonSpaceAppend(a: string, b: string)
    ensures NonSpace(a + b) == NonSpace(a) + NonSpace(b)
  {
    if a == [] {
      assert a + b == b;
    } else {
      assert (a + b)[1..] == a[1..] + b;
      NonSpaceAppend(a[1..], b);
    }
  }

  lemma {:induction false} NonSpaceOfSpaces(s: string)
    requires AllSpace(s)
    ensures NonSpace(s) == []
  {
    if s != [] {
      NonSpaceOfSpaces(s[1..]);
    }
  }

  lemma {:induction false} NonSpaceOfField(s: string)
    requires forall i :: 0 <= i < |s| ==> !IsSpace(s[i])
    ensures NonSpace(s) == s
  {
    if s != [] {
      NonSpaceOfField(s[1..]);
    }
  }

  /** The fields, glued together, are exactly the non-white-space characters. */
  lemma {:induction false} FieldsNonSpace(s: string)
    ensures Concat(Fields(s)) == NonSpace(s)
    decreases |s|
  {
    var t := TrimLeft(s);
    var k := |s| - |t|;
    TakeDrop(s, k);
    NonSpaceAppend(s[..k], t);
    NonSpaceOfSpaces(s[..k]);
    if t != [] {
      var n := FieldLength(t);
      FieldsNonSpace(t[n..]);
      FieldsNonSpaceStep(s, t, n);
    }
  }

  /** One field of `FieldsNonSpace`: the first field and the rest's fields glue to the
      characters of `t` that are not white space. */
  lemma FieldsNonSpaceStep(s: string, t: string, n: nat)
    requires t == TrimLeft(s) && t != [] && n == FieldLength(t)
    requires Concat(Fields(t[n..])) == NonSpace(t[n..])
    ensures Concat(Fields(s)) == NonSpace(t)
  {
    var w, rest := t[..n], Fields(t[n..]);
    var ws := Fields(s);
    assert ws == [w] + rest;
    assert ws[0] == w && ws[1..] == rest;
    assert Concat(ws) == w + Concat(rest);
    TakeDrop(t, n);
    NonSpaceAppend(w, t[n..]);
    NonSpaceOfField(w);
  }

  /** Joining fields with single spaces keeps exactly the fields' characters. */
  lemma {:induction false} JoinNonSpace(ws: seq<string>)
    requires AllFields(ws)
    ensures NonSpace(Join(ws)) == Concat(ws)
  {
    if |ws| == 1 {
      NonSpaceOfField(ws[0]);
      assert Concat(ws[1..]) == [];
    } else if |ws| > 1 {
      JoinNonSpace(ws[1..]);
      NonSpaceAppend(ws[0] + " ", Join(ws[1..]));
      NonSpaceAppend(ws[0], " ");
      NonSpaceOfField(ws[0]);
      assert NonSpace(" ") == [] by { NonSpaceOfSpaces(" "); }
    }
  }

  /** A field, a space and a standardized non-empty string form a standardized string. */
  lemma GlueStandardized(w: string, b: string)
    requires IsField(w) && Standardized(b) && |b| > 0
    ensures Standardized(w + " " + b)
  {
    var s := w + " " + b;
    assert forall i :: 0 <= i < |w| ==> s[i] == w[i];
    forall i | 0 <= i < |s| && IsSpace(s[i])
      ensures s[i] == ' ' && 0 < i < |s| - 1 && !IsSpace(s[i - 1]) && !IsSpace(s[i + 1])
    {
      if i == |w| {
        assert s[i - 1] == w[|w| - 1] && s[i + 1] == b[0];
        assert !IsSpace(b[0]);
      } else if i > |w| {
        var j := i - |w| - 1;
        assert s[i] == b[j];
        if j + 1 < |b| {
          assert s[i + 1] == b[j + 1];
        }
        assert s[i - 1] == b[j - 1];
      }
    }
  }

  /** Joining fields with single spaces yields a standardized string. */
  lemma {:induction false} JoinStandardized(ws: seq<string>)
    requires AllFields(ws)
    ensures Standardized(Join(ws))
    ensures |ws| > 0 ==> |Join(ws)| > 0
  {
    if |ws| > 1 {
      JoinStandardized(ws[1..]);
      GlueStandardized(ws[0], Join(ws[1..]));
    }
  }

  lemma TrimLeftNoSpace(s: string)
    requires s == [] || !IsSpace(s[0])
    ensures TrimLeft(s) == s
  {
  }

  /** A field followed by white space (or nothing) is read back as exactly that field. */
  lemma {:induction false} FieldLengthOf(w: string, rest: string)
    requires IsField(w) || w == []
    requires rest == [] || IsSpace(rest[0])
    ensures FieldLength(w + rest) == |w|
  {
    if w != [] {
      assert (w + rest)[1..] == w[1..] + rest;
      FieldLengthOf(w[1..], rest);
    }
  }

  /** `strings.Fields` undoes the join: splitting fields joined with single spaces gives them back. */
  lemma {:induction false} FieldsOfJoin(ws: seq<string>)
    requires AllFields(ws)
    ensures Fields(Join(ws)) == ws
  {
    if |ws| == 1 {
      FieldsOfField(ws[0]);
    } else if |ws| > 1 {
      FieldsOfJoin(ws[1..]);
      FieldsOfJoinStep(ws);
    }
  }

  lemma FieldsOfJoinStep(ws: seq<string>)
    requires AllFields(ws) && |ws| > 1
    requires Fields(Join(ws[1..])) == ws[1..]
    ensures Fields(Join(ws)) == ws
  {
    var w, rest := ws[0], ws[1..];
    var j := Join(rest);
    JoinFirst(ws, w, rest);
    JoinStandardized(rest);
    FieldsCons(w, j);
    HeadTail(ws);
  }

  lemma JoinFirst(ws: seq<string>, w: string, rest: seq<string>)
    requires |ws| > 1 && w == ws[0] && rest == ws[1..]
    ensures Join(ws) == w + " " + Join(rest)
  {
  }

  lemma FieldsOfField(w: string)
    requires IsField(w)
    ensures Fields(w) == [w]
  {
    TrimLeftNoSpace(w);
    FieldLengthOf(w, []);
    assert w + [] == w;
    assert w[|w|..] == [];
  }

  /** A field, one space and a standardized string split into that field and the string's
      own fields. */
  lemma FieldsCons(w: string, j: string)
    requires IsField(w) && Standardized(j)
    ensures Fields(w + " " + j) == [w] + Fields(j)
  {
    assert j == [] || !IsSpace(j[0]);
    var s := w + " " + j;
    assert s == w + (" " + j);
    TrimLeftNoSpace(s);
    FieldLengthOf(w, " " + j);
    assert s[..|w|] == w;
    assert s[|w|..] == " " + j;
    FieldsSkipSpace(j);
  }

  lemma FieldsSkipSpace(j: string)
    ensures Fields(" " + j) == Fields(j)
  {
    assert (" " + j)[1..] == j;
    assert TrimLeft(" " + j) == TrimLeft(j);
  }

  /** Standardizing twice is the same as standardizing once. */
  lemma StandardizeIdempotent(s: string)
    ensures StandardizeSpaces(StandardizeSpaces(s)) == StandardizeSpaces(s)
  {
    FieldsOfJoin(Fields(s));
  }

  /** A suffix of a standardized string that starts after a space is standardized. */
  lemma StandardizedSuffix(s: string, j: nat)
    requires Standardized(s) && j <= |s|
    requires j == |s| || !IsSpace(s[j])
    ensures Standardized(s[j..])
  {
    var t := s[j..];
    forall i | 0 <= i < |t| && IsSpace(t[i])
      ensures t[i] == ' ' && 0 < i < |t| - 1 && !IsSpace(t[i - 1]) && !IsSpace(t[i + 1])
    {
      assert t[i] == s[i + j];
      assert t[i - 1] == s[i + j - 1];
      assert t[i + 1] == s[i + j + 1];
    }
  }

  /** Splitting a string that starts with a field followed by one space. */
  lemma FieldsAfterSpace(s: string, n: nat)
    requires 0 < n < |s| - 1 && IsSpace(s[n]) && !IsSpace(s[n + 1])
    requires n == FieldLength(s) && !IsSpace(s[0])
    ensures Fields(s) == [s[..n]] + Fields(s[n + 1..])
  {
    FieldsFirst(s);
    FieldsLeadingSpace(s[n..]);
    DropDrop(s, n, 1);
  }

  lemma FieldsFirst(s: string)
    requires s != [] && !IsSpace(s[0])
    ensures Fields(s) == [s[..FieldLength(s)]] + Fields(s[FieldLength(s)..])
  {
    TrimLeftNoSpace(s);
  }

  lemma FieldsLeadingSpace(u: string)
    requires u != [] && IsSpace(u[0])
    ensures Fields(u) == Fields(u[1..])
  {
    assert TrimLeft(u) == TrimLeft(u[1..]);
  }

  lemma JoinCons(w: string, ws: seq<string>)
    requires |ws| > 0
    ensures Join([w] + ws) == w + " " + Join(ws)
  {
    assert ([w] + ws)[1..] == ws;
  }

  /** One step of reading a string back: its first field, a space, and a rest that reads back. */
  lemma JoinFieldsStep(s: string, n: nat)
    requires 0 < n < |s| - 1 && s[n] == ' ' && !IsSpace(s[n + 1])
    requires n == FieldLength(s) && !IsSpace(s[0])
    requires Join(Fields(s[n + 1..])) == s[n + 1..]
    ensures Join(Fields(s)) == s
  {
    var rest := s[n + 1..];
    FieldsAfterSpace(s, n);
    TrimLeftNoSpace(rest);
    var fr := Fields(rest);
    assert |fr| > 0;
    JoinCons(s[..n], fr);
    SplitAround(s, n);
  }

  lemma SplitAround(s: string, n: nat)
    requires n < |s| && s[n] == ' '
    ensures s == s[..n] + " " + s[n + 1..]
  {
    assert s[n..] == [s[n]] + s[n + 1..];
    assert s == s[..n] + s[n..];
  }

  /** `strings.Fields` of a standardized string, joined again, is that string. */
  lemma {:induction false} JoinFieldsStandardized(s: string)
    requires Standardized(s)
    ensures Join(Fields(s)) == s
    decreases |s|
  {
    if s != [] {
      assert !IsSpace(s[0]);
      TrimLeftNoSpace(s);
      var n := FieldLength(s);
      if n == |s| {
        assert s[..n] == s && s[n..] == [];
        assert Fields(s[n..]) == [];
        assert Fields(s) == [s];
      } else {
        assert IsSpace(s[n]);
        assert s[n] == ' ' && n + 1 < |s| && !IsSpace(s[n + 1]);
        var rest := s[n + 1..];
        StandardizedSuffix(s, n + 1);
        JoinFieldsStandardized(rest);
        JoinFieldsStep(s, n);
      }
    }
  }

  /** The strings `standardizeSpaces` leaves unchanged are exactly the standardized ones. */
  lemma StandardizeFixpoint(s: string)
    ensures StandardizeSpaces(s) == s <==> Standardized(s)
  {
    if Standardized(s) {
      JoinFieldsStandardized(s);
    }
  }
}
