/**
  The three Python string built-ins the parser relies on, written as pure functions:
  `str.strip()` (no argument), `str.split()` (no argument: split on runs of whitespace)
  and `int(str)` (decimal text with an optional sign, surrounding whitespace allowed).
  Whitespace is Python's `str.isspace()` set, which `strip()` and `split()` use.
 */
module Text {
  import opened Wrappers

  /** The characters Python's `str.isspace()` accepts; `strip()` and `split()` both use this set. */
  predicate IsSpace(c: char) {
    || c == ' '
    || '\t' <= c <= '\r'          // tab, line feed, vertical tab, form feed, carriage return
    || '\U{1c}' <= c <= '\U{1f}'  // file, group, record and unit separators
    || c == '\U{85}' || c == '\U{a0}' || c == '\U{1680}'
    || '\U{2000}' <= c <= '\U{200a}'
    || c == '\U{2028}' || c == '\U{2029}' || c == '\U{202f}' || c == '\U{205f}' || c == '\U{3000}'
  }

  predicate AllSpace(s: string) {
    forall i :: 0 <= i < |s| ==> IsSpace(s[i])
  }

  predicate NoSpace(s: string) {
    forall i :: 0 <= i < |s| ==> !IsSpace(s[i])
  }

  /** Neither the first nor the last character is whitespace. */
  predicate NoEdgeSpace(s: string) {
    s == [] || (!IsSpace(s[0]) && !IsSpace(s[|s| - 1]))
  }

  /** A field as `split()` returns it: non-empty, no whitespace inside. */
  predicate IsField(f: string) {
    f != [] && NoSpace(f)
  }

  // ----- str.strip() -----

  /** `s.lstrip()`: drops leading whitespace only. */
  function TrimStart(s: string): (r: string)
    ensures |r| <= |s|
    ensures r == [] || !IsSpace(r[0])
  {
    if s != [] && IsSpace(s[0]) then TrimStart(s[1..]) else s
  }

  /** What `TrimStart` drops is whitespace, and what it keeps is the rest of `s`. */
  lemma {:induction false} TrimStartSlice(s: string)
    ensures TrimStart(s) == s[|s| - |TrimStart(s)|..]
    ensures AllSpace(s[..|s| - |TrimStart(s)|])
  {
    if s != [] && IsSpace(s[0]) {
      TrimStartSlice(s[1..]);
      assert s[1..][|s| - 1 - |TrimStart(s)|..] == s[|s| - |TrimStart(s)|..];
      var k := |s| - |TrimStart(s)|;
      forall i | 0 <= i < k ensures IsSpace(s[..k][i]) {
        if i > 0 { assert s[..k][i] == s[1..][..k - 1][i - 1]; }
      }
    }
  }

  /** `s.rstrip()`: drops trailing whitespace only. */
  function TrimEnd(s: string): (r: string)
    ensures |r| <= |s|
    ensures r == [] || !IsSpace(r[|r| - 1])
  {
    if s != [] && IsSpace(s[|s| - 1]) then TrimEnd(s[..|s| - 1]) else s
  }

  /** What `TrimEnd` drops is whitespace, and what it keeps is the start of `s`. */
  lemma {:induction false} TrimEndSlice(s: string)
    ensures TrimEnd(s) == s[..|TrimEnd(s)|]
    ensures AllSpace(s[|TrimEnd(s)|..])
  {
    if s != [] && IsSpace(s[|s| - 1]) {
      var u := s[..|s| - 1];
      TrimEndSlice(u);
      var k := |TrimEnd(s)|;
      assert u[..k] == s[..k];
      forall i | k <= i < |s| ensures IsSpace(s[i]) {
        if i < |s| - 1 { assert s[i] == u[k..][i - k]; }
      }
    }
  }

  /** `s.strip()`. */
  function Strip(s: string): (r: string)
    ensures NoEdgeSpace(r)
    ensures |r| <= |s|
    ensures r == s <==> NoEdgeSpace(s)
  {
    var t := TrimStart(s);
    var r := TrimEnd(t);
    TrimEndSlice(t);
    assert r != [] ==> r[0] == t[0];
    if NoEdgeSpace(s) then
      assert t == s;
      r
    else
      r
  }

  /** The kept part of `s.strip()` sits between two runs of whitespace. */
  lemma StripSlice(s: string)
    ensures var k := |s| - |TrimStart(s)|;
      && k + |Strip(s)| <= |s|
      && Strip(s) == s[k..k + |Strip(s)|]
      && AllSpace(s[..k]) && AllSpace(s[k + |Strip(s)|..])
  {
    var t := TrimStart(s);
    var k := |s| - |t|;
    var r := Strip(s);
    assert r == TrimEnd(t);
    assert t == s[k..] && AllSpace(s[..k]) by {
      TrimStartSlice(s);
    }
    assert r == t[..|r|] && AllSpace(t[|r|..]) by {
      TrimEndSlice(t);
    }
    assert r == s[k..k + |r|] by {
      assert s[k..k + |r|] == t[..|r|];
    }
    assert s[k + |r|..] == t[|r|..];
  }

  // ----- str.split() -----

  /** The longest prefix of `s` that holds no whitespace. */
  function Word(s: string): (w: string)
    ensures |w| <= |s|
  {
    if s == [] || IsSpace(s[0]) then [] else [s[0]] + Word(s[1..])
  }

  lemma {:induction false} WordSlice(s: string)
    ensures Word(s) == s[..|Word(s)|]
    ensures NoSpace(Word(s))
    ensures |Word(s)| == |s| || IsSpace(s[|Word(s)|])
  {
    if !(s == [] || IsSpace(s[0])) {
      WordSlice(s[1..]);
      var w := Word(s);
      assert w == [s[0]] + Word(s[1..]);
      forall i | 0 <= i < |w| ensures !IsSpace(w[i]) {
        if i > 0 { assert w[i] == Word(s[1..])[i - 1]; }
      }
    }
  }

  /** `s.split()`: the maximal runs of non-whitespace characters, in order; each field
      it returns is non-empty and holds no whitespace. */
  function Split(s: string): (fields: seq<string>)
    ensures forall i :: 0 <= i < |fields| ==> IsField(fields[i])
    decreases |s|
  {
    var t := TrimStart(s);
    if t == [] then []
    else
      var w := Word(t);
      WordSlice(t);
      var rest := Split(t[|w|..]);
      assert forall i :: 0 < i <= |rest| ==> ([w] + rest)[i] == rest[i - 1];
      [w] + rest
  }

  /** `" ".join(fields)`. */
  function Join(fields: seq<string>): string {
    if |fields| == 0 then []
    else if |fields| == 1 then fields[0]
    else fields[0] + " " + Join(fields[1..])
  }

  lemma {:induction false} TrimStartPrefix(p: string, s: string)
    requires AllSpace(p)
    ensures TrimStart(p + s) == TrimStart(s)
    decreases |p|
  {
    if p != [] {
      assert (p + s)[0] == p[0];
      assert (p + s)[1..] == p[1..] + s;
      TrimStartPrefix(p[1..], s);
    } else {
      assert p + s == s;
    }
  }

  lemma {:induction false} TrimStartOfSpace(s: string)
    requires AllSpace(s)
    ensures TrimStart(s) == []
  {
    if s != [] {
      TrimStartOfSpace(s[1..]);
    }
  }

  lemma {:induction false} TrimStartAppend(s: string, p: string)
    requires TrimStart(s) != []
    ensures TrimStart(s + p) == TrimStart(s) + p
  {
    if s != [] && IsSpace(s[0]) {
      assert (s + p)[0] == s[0];
      assert (s + p)[1..] == s[1..] + p;
      TrimStartAppend(s[1..], p);
    }
  }

  lemma {:induction false} WordOfField(f: string, rest: string)
    requires NoSpace(f)
    requires rest == [] || IsSpace(rest[0])
    ensures Word(f + rest) == f
  {
    if f != [] {
      assert (f + rest)[0] == f[0];
      assert (f + rest)[1..] == f[1..] + rest;
      WordOfField(f[1..], rest);
    } else {
      assert f + rest == rest;
    }
  }

  lemma {:induction false} WordAppend(t: string, p: string)
    requires p == [] || IsSpace(p[0])
    ensures Word(t + p) == Word(t)
  {
    if t != [] && !IsSpace(t[0]) {
      assert (t + p)[0] == t[0];
      assert (t + p)[1..] == t[1..] + p;
      WordAppend(t[1..], p);
    } else if t == [] {
      assert t + p == p;
    } else {
      assert (t + p)[0] == t[0];
    }
  }

  lemma {:induction false} JoinStart(fields: seq<string>)
    requires |fields| > 0 && fields[0] != []
    ensures Join(fields) != [] && Join(fields)[0] == fields[0][0]
  {
    if |fields| > 1 {
      assert Join(fields) == fields[0] + (" " + Join(fields[1..]));
    }
  }

  /** Leading whitespace never produces a field. */
  lemma SplitSpacePrefix(p: string, s: string)
    requires AllSpace(p)
    ensures Split(p + s) == Split(s)
  {
    TrimStartPrefix(p, s);
  }

  /** Round trip: splitting fields joined by single spaces gives back the fields. */
  lemma {:induction false} SplitJoin(fields: seq<string>)
    requires forall i :: 0 <= i < |fields| ==> IsField(fields[i])
    ensures Split(Join(fields)) == fields
  {
    if |fields| == 1 {
      var f := fields[0];
      assert IsField(f);
      assert TrimStart(f) == f;
      WordOfField(f, []);
      assert f + [] == f;
    } else if |fields| > 1 {
      var f := fields[0];
      assert IsField(f) && IsField(fields[1]);
      var rest := Join(fields[1..]);
      var s := f + " " + rest;
      assert Join(fields) == s;
      assert s[0] == f[0];
      assert TrimStart(s) == s;
      assert s == f + (" " + rest);
      WordOfField(f, " " + rest);
      assert s[|f|..] == " " + rest;
      JoinStart(fields[1..]);
      SplitSpacePrefix(" ", rest);
      SplitJoin(fields[1..]);
    }
  }

  /** A field followed by a run of whitespace of any length and kind is one field, then
      whatever the rest splits into. */
  lemma SplitCons(f: string, sep: string, s: string)
    requires IsField(f) && sep != [] && AllSpace(sep)
    ensures Split(f + sep + s) == [f] + Split(s)
  {
    var x := f + sep + s;
    assert x == f + (sep + s);
    assert x[0] == f[0];
    assert TrimStart(x) == x;
    assert IsSpace(sep[0]) && (sep + s)[0] == sep[0];
    WordOfField(f, sep + s);
    assert x[|f|..] == sep + s;
    SplitSpacePrefix(sep, s);
  }

  /** `seps[i]` is the whitespace that follows `fields[i]`: a non-empty run after every
      field but the last, and any run, possibly empty, after the last. */
  predicate Separated(fields: seq<string>, seps: seq<string>) {
    && |seps| == |fields|
    && (forall i :: 0 <= i < |fields| ==> IsField(fields[i]) && AllSpace(seps[i]))
    && (forall i :: 0 <= i < |fields| - 1 ==> seps[i] != [])
  }

  /** The text of the fields, each followed by its separator. */
  function Interleave(fields: seq<string>, seps: seq<string>): string
    requires |seps| == |fields|
  {
    if fields == [] then [] else fields[0] + seps[0] + Interleave(fields[1..], seps[1..])
  }

  /** What `split()` promises for any line: leading whitespace, then fields separated by
      runs of whitespace of any length and kind, then trailing whitespace, splits into
      exactly those fields. */
  lemma {:induction false} SplitInterleave(lead: string, fields: seq<string>, seps: seq<string>)
    requires AllSpace(lead) && Separated(fields, seps)
    ensures Split(lead + Interleave(fields, seps)) == fields
    decreases |fields|
  {
    SplitSpacePrefix(lead, Interleave(fields, seps));
    if fields != [] {
      var f, sep := fields[0], seps[0];
      var rest := Interleave(fields[1..], seps[1..]);
      assert IsField(f) && AllSpace(sep);
      if sep != [] {
        assert Separated(fields[1..], seps[1..]) by {
          forall i | 0 <= i < |fields| - 1
            ensures IsField(fields[1..][i]) && AllSpace(seps[1..][i])
          {
            assert fields[1..][i] == fields[i + 1] && seps[1..][i] == seps[i + 1];
          }
          forall i | 0 <= i < |fields| - 2 ensures seps[1..][i] != [] {
            assert seps[1..][i] == seps[i + 1];
          }
        }
        SplitCons(f, sep, rest);
        SplitInterleave([], fields[1..], seps[1..]);
        assert [] + rest == rest;
      } else {
        assert |fields| == 1;
        assert f + sep + rest == Join([f]);
        SplitJoin([f]);
      }
    }
  }

  lemma AllSpaceAppend(s: string, p: string)
    requires AllSpace(s) && AllSpace(p)
    ensures AllSpace(s + p)
  {
    forall i | 0 <= i < |s + p| ensures IsSpace((s + p)[i]) {
      if i >= |s| { assert (s + p)[i] == p[i - |s|]; }
    }
  }

  lemma SplitBlankAppend(s: string, p: string)
    requires TrimStart(s) == [] && AllSpace(p)
    ensures Split(s + p) == []
  {
    TrimStartSlice(s);
    assert s[..|s|] == s;
    AllSpaceAppend(s, p);
    TrimStartOfSpace(s + p);
  }

  /** Trailing whitespace never produces a field either. */
  lemma {:induction false} SplitSpaceSuffix(s: string, p: string)
    requires AllSpace(p)
    ensures Split(s + p) == Split(s)
    decreases |s|
  {
    var t := TrimStart(s);
    if t == [] {
      SplitBlankAppend(s, p);
    } else {
      TrimStartAppend(s, p);
      var w := Word(t);
      WordAppend(t, p);
      assert |w| > 0 by { assert t[0] == t[..1][0]; }
      assert (t + p)[|w|..] == t[|w|..] + p;
      SplitSpaceSuffix(t[|w|..], p);
    }
  }

  /** So `s.strip().split()` is `s.split()`: the strip before the split changes nothing. */
  lemma SplitOfStrip(s: string)
    ensures Split(Strip(s)) == Split(s)
  {
    var t := TrimStart(s);
    var r := TrimEnd(t);
    TrimStartSlice(s);
    TrimEndSlice(t);
    assert s == s[..|s| - |t|] + t;
    SplitSpacePrefix(s[..|s| - |t|], t);
    assert t == r + t[|r|..];
    SplitSpaceSuffix(r, t[|r|..]);
  }

  /** A whitespace-only line has no fields. */
  lemma SplitBlank(s: string)
    requires AllSpace(s)
    ensures Split(s) == []
  {
    TrimStartOfSpace(s);
  }

  // ----- int(str) -----

  predicate IsDigit(c: char) {
    '0' <= c <= '9'
  }

  predicate AllDigits(s: string) {
    forall i :: 0 <= i < |s| ==> IsDigit(s[i])
  }

  /** The value of a string of decimal digits, most significant first. */
  function DigitsValue(ds: string): nat
    requires AllDigits(ds)
  {
    if ds == [] then 0
    else 10 * DigitsValue(ds[..|ds| - 1]) + (ds[|ds| - 1] as int - '0' as int)
  }

  /** One or more decimal digits and nothing else. */
  function ParseDigits(t: string): (r: Option<nat>)
    ensures r.Some? <==> t != [] && AllDigits(t)
  {
    if t != [] && AllDigits(t) then Some(DigitsValue(t)) else None
  }

  /** `int(s)` for a `str` argument: surrounding whitespace, then an optional `+` or `-`,
      then one or more decimal digits; anything else raises ValueError, modelled as None.
      The whitespace skipped here is the whole `IsSpace` set, wider than what `int()`
      itself skips; the fields the parser hands it never hold whitespace. */
  function ParseInt(s: string): (r: Option<int>)
    ensures var t := Strip(s);
      r.Some? <==> (t != [] && AllDigits(t)) || (|t| > 1 && (t[0] == '+' || t[0] == '-') && AllDigits(t[1..]))
    ensures r.Some? && r.value < 0 ==> Strip(s)[0] == '-'
    ensures var t := Strip(s);
      r.Some? ==>
        if t[0] == '-' then r.value == -(DigitsValue(t[1..]) as int)
        else if t[0] == '+' then r.value == DigitsValue(t[1..])
        else r.value == DigitsValue(t)
  {
    var t := Strip(s);
    if t != [] && (t[0] == '+' || t[0] == '-') then
      match ParseDigits(t[1..])
      case Some(v) => Some(if t[0] == '-' then -(v as int) else v)
      case None => None
    else
      match ParseDigits(t)
      case Some(v) => Some(v)
      case None => None
  }

  /** Text holding any character other than whitespace, a sign or a digit is not an integer. */
  lemma ParseIntRejects(s: string, i: int)
    requires 0 <= i < |s| && !IsDigit(s[i]) && !IsSpace(s[i]) && s[i] != '+' && s[i] != '-'
    ensures ParseInt(s) == None
  {
    var t := Strip(s);
    var k := |s| - |TrimStart(s)|;
    StripSlice(s);
    if k <= i < k + |t| {
      assert s[i] == t[i - k];
      if i - k > 0 {
        assert t[i - k] == t[1..][i - k - 1];
      }
    }
  }

  function DigitChar(d: nat): (c: char)
    requires d < 10
    ensures IsDigit(c) && c as int - '0' as int == d
  {
    ('0' as int + d) as char
  }

  /** `str(n)` for a natural number: its decimal digits, no leading zero. */
  function NatToString(n: nat): (s: string)
    ensures s != [] && AllDigits(s) && DigitsValue(s) == n
  {
    if n < 10 then [DigitChar(n)]
    else
      var s := NatToString(n / 10) + [DigitChar(n % 10)];
      assert s[..|s| - 1] == NatToString(n / 10);
      s
  }

  /** `str(n)` for any integer. */
  function IntToString(n: int): (s: string) {
    if n < 0 then "-" + NatToString(-n) else NatToString(n)
  }

  /** Round trip: `int(str(n)) == n`. */
  lemma ParseIntToString(n: int)
    ensures ParseInt(IntToString(n)) == Some(n)
  {
    var s := IntToString(n);
    var ds := NatToString(if n < 0 then -n else n);
    assert !IsSpace(s[0]) && !IsSpace(s[|s| - 1]) by {
      assert IsDigit(ds[0]) && IsDigit(ds[|ds| - 1]);
      if n < 0 {
        assert s[|s| - 1] == ds[|ds| - 1];
      }
    }
    assert Strip(s) == s;
    if n < 0 {
      assert s[1..] == ds;
    } else {
      assert IsDigit(s[0]);
    }
  }

  /** Leading zeros do not change the value `int()` reads. */
  lemma {:induction false} DigitsValueLeadingZero(ds: string)
    requires AllDigits(ds)
    ensures AllDigits("0" + ds) && DigitsValue("0" + ds) == DigitsValue(ds)
  {
    if ds != [] {
      var z := "0" + ds;
      assert z[..|z| - 1] == "0" + ds[..|ds| - 1];
      DigitsValueLeadingZero(ds[..|ds| - 1]);
    } else {
      assert ("0" + ds)[..0] == [];
    }
  }
}
