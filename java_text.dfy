/** The pieces of Java's string and integer library that the game's text
    protocol relies on: `String.split` with a one-character literal
    separator, `Integer.parseInt` and the decimal rendering of an `int` by
    string concatenation. */
module JavaText {

  datatype Option<+T> = None | Some(value: T)

  /** Bounds of Java's 32-bit `int`. */
  const IntMin: int := -0x8000_0000
  const IntMax: int := 0x7fff_ffff

  predicate IsInt32(n: int) {
    IntMin <= n <= IntMax
  }

  // ---------------------------------------------------------------------
  // String.split(sep) with the default limit of 0
  // ---------------------------------------------------------------------

  /** Every field of `s` between occurrences of `sep`, empty ones included. */
  function Fields(s: string, sep: char): (fs: seq<string>)
    ensures |fs| >= 1
    ensures forall i :: 0 <= i < |fs| ==> sep !in fs[i]
  {
    if s == [] then [""]
    else
      var rest := Fields(s[1..], sep);
      if s[0] == sep then [""] + rest
      else [[s[0]] + rest[0]] + rest[1..]
  }

  /** The fields glued back together with the separator between them. */
  function Join(fs: seq<string>, sep: char): string
  {
    if fs == [] then ""
    else if |fs| == 1 then fs[0]
    else fs[0] + [sep] + Join(fs[1..], sep)
  }

  /** Java drops the empty fields at the end of the result (limit 0). */
  function DropTrailingEmpty(fs: seq<string>): (r: seq<string>)
    ensures |r| <= |fs| && r == fs[..|r|]
    ensures forall i :: |r| <= i < |fs| ==> fs[i] == ""
    ensures r == [] || r[|r| - 1] != ""
  {
    if fs == [] || fs[|fs| - 1] != "" then fs
    else DropTrailingEmpty(fs[..|fs| - 1])
  }

  /** `s.split(sep)` for a separator that is not a regular-expression
      metacharacter (`,` and `:` here): with no separator in `s` the result
      is `s` itself, even when `s` is empty; otherwise the fields, less the
      trailing empty ones. */
  function Split(s: string, sep: char): (parts: seq<string>)
    ensures forall i :: 0 <= i < |parts| ==> sep !in parts[i]
  {
    if sep !in s then [s] else DropTrailingEmpty(Fields(s, sep))
  }

  /** Splitting and joining are inverse: no character is lost. */
  lemma {:induction false} JoinFields(s: string, sep: char)
    ensures Join(Fields(s, sep), sep) == s
  {
    if s != [] {
      var rest := Fields(s[1..], sep);
      JoinFields(s[1..], sep);
      if s[0] == sep {
        assert Fields(s, sep) == [""] + rest;
        assert ([""] + rest)[1..] == rest;
      } else if |rest| == 1 {
        assert Fields(s, sep) == [[s[0]] + rest[0]];
        assert s == [s[0]] + s[1..];
      } else {
        var fs := [[s[0]] + rest[0]] + rest[1..];
        assert Fields(s, sep) == fs;
        assert fs[1..] == rest[1..];
        assert Join(rest, sep) == rest[0] + [sep] + Join(rest[1..], sep);
        assert s == [s[0]] + s[1..];
      }
    }
  }

  /** A string without the separator is a single field. */
  lemma {:induction false} FieldsOfPlain(a: string, sep: char)
    requires sep !in a
    ensures Fields(a, sep) == [a]
  {
    if a != [] {
      FieldsOfPlain(a[1..], sep);
      assert a == [a[0]] + a[1..];
    }
  }

  /** A separator after a plain prefix closes exactly one field. */
  lemma {:induction false} FieldsAfterPlain(a: string, b: string, sep: char)
    requires sep !in a
    ensures Fields(a + [sep] + b, sep) == [a] + Fields(b, sep)
  {
    var s := a + [sep] + b;
    if a == [] {
      assert s[0] == sep && s[1..] == b;
    } else {
      assert s[0] == a[0] && s[1..] == a[1..] + [sep] + b;
      FieldsAfterPlain(a[1..], b, sep);
      assert a == [a[0]] + a[1..];
    }
  }

  /** Fields that are free of the separator are recovered by splitting their join. */
  lemma {:induction false} FieldsOfJoin(fs: seq<string>, sep: char)
    requires fs != []
    requires forall i :: 0 <= i < |fs| ==> sep !in fs[i]
    ensures Fields(Join(fs, sep), sep) == fs
  {
    if |fs| == 1 {
      FieldsOfPlain(fs[0], sep);
    } else {
      FieldsOfJoin(fs[1..], sep);
      FieldsAfterPlain(fs[0], Join(fs[1..], sep), sep);
      assert fs == [fs[0]] + fs[1..];
    }
  }

  /** Splitting `a` `sep` `b` gives back the two fields when `b` is not empty. */
  lemma SplitPair(a: string, b: string, sep: char)
    requires sep !in a && sep !in b && b != ""
    ensures Split(a + [sep] + b, sep) == [a, b]
  {
    var s := a + [sep] + b;
    assert s[|a|] == sep;
    FieldsAfterPlain(a, b, sep);
    FieldsOfPlain(b, sep);
    assert Fields(s, sep) == [a, b];
  }

  /** A non-empty text that does not open with the separator yields at
      least two parts after `a` and the separator, whatever it holds. */
  lemma SplitHead(a: string, b: string, sep: char)
    requires sep !in a && b != [] && b[0] != sep
    ensures |Split(a + [sep] + b, sep)| >= 2 && Split(a + [sep] + b, sep)[0] == a
  {
    var s := a + [sep] + b;
    assert s[|a|] == sep;
    FieldsAfterPlain(a, b, sep);
    var fs := Fields(s, sep);
    assert fs[1] == Fields(b, sep)[0] != "";
  }

  /** A non-empty field survives the dropping, with everything before it. */
  lemma KeepsNonEmpty(fs: seq<string>, k: nat)
    requires k < |fs| && fs[k] != ""
    ensures |DropTrailingEmpty(fs)| > k && DropTrailingEmpty(fs)[..k + 1] == fs[..k + 1]
  {
    var r := DropTrailingEmpty(fs);
    assert fs[..k + 1] == r[..k + 1] by {
      assert |r| > k;
    }
  }

  /** A non-empty separator-free head is always the first part, whatever follows it. */
  lemma SplitFirst(a: string, b: string, sep: char)
    requires sep !in a && a != ""
    ensures |Split(a + [sep] + b, sep)| >= 1 && Split(a + [sep] + b, sep)[0] == a
  {
    var s := a + [sep] + b;
    assert s[|a|] == sep;
    FieldsAfterPlain(a, b, sep);
    KeepsNonEmpty(Fields(s, sep), 0);
  }

  /** Text after a further separator does not disturb the first two fields. */
  lemma SplitPrefix(a: string, b: string, tail: string, sep: char)
    requires sep !in a && sep !in b && b != ""
    ensures |Split(a + [sep] + b + [sep] + tail, sep)| >= 2
    ensures Split(a + [sep] + b + [sep] + tail, sep)[..2] == [a, b]
  {
    var rest := b + [sep] + tail;
    var s := a + [sep] + b + [sep] + tail;
    assert s == a + [sep] + rest;
    assert s[|a|] == sep;
    FieldsAfterPlain(a, rest, sep);
    FieldsAfterPlain(b, tail, sep);
    var fs := Fields(s, sep);
    assert fs[..2] == [a, b];
    KeepsNonEmpty(fs, 1);
  }

  /** Java keeps no trailing empty field: `"IMPACTO:".split(":")` is one part. */
  lemma TrailingSeparatorDropped(a: string, sep: char)
    requires sep !in a
    ensures Split(a + [sep], sep) == (if a == "" then [] else [a])
  {
    var s := a + [sep];
    assert s[|a|] == sep;
    FieldsAfterPlain(a, "", sep);
    assert s == a + [sep] + "";
    assert Fields(s, sep) == [a, ""];
    assert [a, ""][..1] == [a];
    assert DropTrailingEmpty([a, ""]) == DropTrailingEmpty([a]);
    if a == "" {
      assert [a][..0] == [];
    }
  }

  // ---------------------------------------------------------------------
  // Decimal digits, Integer.parseInt and Integer.toString
  // ---------------------------------------------------------------------

  predicate IsDigit(ch: char) {
    '0' <= ch <= '9'
  }

  predicate AllDigits(s: string) {
    forall i :: 0 <= i < |s| ==> IsDigit(s[i])
  }

  function DigitValue(ch: char): (d: nat)
    requires IsDigit(ch)
    ensures d < 10
  {
    ch as int - '0' as int
  }

  function DigitChar(d: nat): (ch: char)
    requires d < 10
    ensures IsDigit(ch) && DigitValue(ch) == d
  {
    ('0' as int + d) as char
  }

  /** The value of a string of decimal digits, most significant first. */
  function DigitsValue(s: string): nat
    requires AllDigits(s)
  {
    if s == [] then 0
    else 10 * DigitsValue(s[..|s| - 1]) + DigitValue(s[|s| - 1])
  }

  /** The shortest decimal rendering of a natural number. */
  function NatToString(n: nat): (s: string)
    ensures |s| >= 1 && AllDigits(s)
  {
    if n < 10 then [DigitChar(n)]
    else NatToString(n / 10) + [DigitChar(n % 10)]
  }

  /** How Java renders an `int` in `"" + n`: a minus sign for negatives. */
  function IntToString(n: int): (s: string)
    ensures s != "" && ',' !in s && ':' !in s
  {
    if n < 0 then "-" + NatToString(-n) else NatToString(n)
  }

  /** `Integer.parseInt(s)`: an optional sign, then at least one digit, and
      the value must fit in an `int`; anything else throws
      `NumberFormatException`, modelled as `None`. */
  function ParseInt(s: string): (r: Option<int>)
    ensures r.Some? ==> IsInt32(r.value)
    ensures r.Some? ==> s != "" && (IsDigit(s[0]) || s[0] == '-' || s[0] == '+')
  {
    if s == [] then None
    else
      var digits := if s[0] == '-' || s[0] == '+' then s[1..] else s;
      if digits == [] || !AllDigits(digits) then None
      else
        var v: int := if s[0] == '-' then -(DigitsValue(digits) as int) else DigitsValue(digits);
        if IsInt32(v) then Some(v) else None
  }

  /** Reading back the digits of a rendered natural gives the natural. */
  lemma {:induction false} DigitsRoundTrip(n: nat)
    ensures DigitsValue(NatToString(n)) == n
  {
    if n >= 10 {
      var s := NatToString(n);
      DigitsRoundTrip(n / 10);
      assert s[..|s| - 1] == NatToString(n / 10);
    }
  }

  /** `Integer.parseInt(String.valueOf(n)) == n` for every `int` n. */
  lemma ParseIntRoundTrip(n: int)
    requires IsInt32(n)
    ensures ParseInt(IntToString(n)) == Some(n)
  {
    var s := IntToString(n);
    if n < 0 {
      DigitsRoundTrip(-n);
      assert s[0] == '-' && s[1..] == NatToString(-n);
    } else {
      DigitsRoundTrip(n);
      assert IsDigit(s[0]);
    }
  }

  /** A leading zero does not change the value of a digit string. */
  lemma {:induction false} LeadingZeroValue(d: string)
    requires AllDigits(d)
    ensures AllDigits("0" + d) && DigitsValue("0" + d) == DigitsValue(d)
    decreases |d|
  {
    var z := "0" + d;
    assert AllDigits(z) by {
      forall i | 0 <= i < |z| ensures IsDigit(z[i]) {
        if i > 0 { assert z[i] == d[i - 1]; }
      }
    }
    if d == [] {
      assert z[..0] == [];
    } else {
      var init := d[..|d| - 1];
      assert z[..|z| - 1] == "0" + init;
      assert AllDigits(init) by {
        forall i | 0 <= i < |init| ensures IsDigit(init[i]) { assert init[i] == d[i]; }
      }
      LeadingZeroValue(init);
    }
  }

  /** `parseInt` accepts a plus sign and leading zeros: for every digit
      string, `+d` and `0d` denote the same outcome as `d`. */
  lemma ParseIntLeadingExtras(d: string)
    requires d != "" && AllDigits(d)
    ensures ParseInt("+" + d) == ParseInt(d)
    ensures ParseInt("0" + d) == ParseInt(d)
  {
    assert ("+" + d)[1..] == d;
    assert IsDigit(d[0]);
    LeadingZeroValue(d);
  }

  /** `k` zero digits. */
  function Zeros(k: nat): (z: string)
    ensures |z| == k && AllDigits(z) && DigitsValue(z) == 0
  {
    if k == 0 then "" else Zeros(k - 1) + "0"
  }

  /** A digit string of value 0 is all zeros. */
  lemma {:induction false} ZeroValueZeros(z: string)
    requires AllDigits(z) && DigitsValue(z) == 0
    ensures z == Zeros(|z|)
    decreases |z|
  {
    if z != "" {
      var init := z[..|z| - 1];
      assert AllDigits(init) by {
        forall i | 0 <= i < |init| ensures IsDigit(init[i]) { assert init[i] == z[i]; }
      }
      ZeroValueZeros(init);
      assert z == init + [z[|z| - 1]];
    }
  }

  /** The digits of a value of ten or more are those of its tenth, then one more. */
  lemma RenderingStep(m: nat, x: nat)
    requires 1 <= m && x < 10
    ensures NatToString(10 * m + x) == NatToString(m) + [DigitChar(x)]
  {
    var n := 10 * m + x;
    assert n / 10 == m && n % 10 == x;
  }

  /** Every non-empty digit string is the shortest rendering of its value
      with leading zeros in front. */
  lemma {:induction false} DigitsCanonical(d: string)
    requires d != "" && AllDigits(d)
    ensures var shown := NatToString(DigitsValue(d));
      |shown| <= |d| && d == Zeros(|d| - |shown|) + shown
    decreases |d|
  {
    var init, c := d[..|d| - 1], d[|d| - 1];
    assert d == init + [c];
    assert AllDigits(init) by {
      forall i | 0 <= i < |init| ensures IsDigit(init[i]) { assert init[i] == d[i]; }
    }
    var m, x := DigitsValue(init), DigitValue(c);
    assert DigitsValue(d) == 10 * m + x;
    assert DigitChar(x) == c;
    if m == 0 {
      ZeroValueZeros(init);
      assert NatToString(x) == [c];
    } else {
      DigitsCanonical(init);
      RenderingStep(m, x);
      var k := |init| - |NatToString(m)|;
      assert d == Zeros(k) + (NatToString(m) + [c]);
    }
  }

  /** The converse of the round trip: whatever `parseInt` accepts is the
      rendering of its value, up to a sign (`+`, or `-` on zero) and
      leading zeros. */
  lemma ParseIntCanonical(s: string, v: int)
    requires ParseInt(s) == Some(v)
    ensures var digits := if s[0] == '-' || s[0] == '+' then s[1..] else s;
      var shown := NatToString(if v < 0 then -v else v);
      |shown| <= |digits| && digits == Zeros(|digits| - |shown|) + shown
    ensures s[0] == '-' ==> v <= 0
    ensures s[0] != '-' ==> v >= 0
  {
    var digits := if s[0] == '-' || s[0] == '+' then s[1..] else s;
    assert digits != "" && AllDigits(digits);
    var value: int := DigitsValue(digits);
    assert v == if s[0] == '-' then -value else value;
    assert (if v < 0 then -v else v) == value;
    DigitsCanonical(digits);
  }

  /** A sign alone, the empty text and a stray letter are all rejected. */
  lemma ParseIntRejects()
    ensures ParseInt("-") == None
    ensures ParseInt("") == None
    ensures ParseInt("1a") == None
  {
    assert !AllDigits("1a") by { assert !IsDigit("1a"[1]); }
  }
}
