/**
 The display format of the control: the composite format string `{0:F<n>}` that
 renders the value with `n` fractional digits, built from the decimal text of the
 DecimalPlaces integer. Integer text is canonical decimal: no leading zeros, a
 leading '-' for negative numbers.
 */
module DisplayFormat {
  import opened Wrappers
  import opened Text

  predicate AllDigits(s: string)
  {
    forall i :: 0 <= i < |s| ==> IsDigit(s[i])
  }

  /** Non-empty digits without a leading zero, except "0" itself. */
  predicate Canonical(s: string)
  {
    |s| > 0 && AllDigits(s) && (s[0] == '0' ==> |s| == 1)
  }

  function DigitChar(d: nat): (c: char)
    requires d < 10
    ensures IsDigit(c)
    ensures c == '0' <==> d == 0
  {
    ('0' as int + d) as char
  }

  function DigitValue(c: char): (d: nat)
    requires IsDigit(c)
    ensures d < 10
    ensures DigitChar(d) == c
  {
    (c as int - '0' as int) as nat
  }

  /** Decimal text of a natural number. */
  function NatToString(n: nat): (r: string)
    ensures Canonical(r)
    ensures r[0] == '0' <==> n == 0
    decreases n
  {
    if n < 10 then [DigitChar(n)]
    else
      var r := NatToString(n / 10) + [DigitChar(n % 10)];
      assert r[0] == NatToString(n / 10)[0];
      r
  }

  /** Value of a string of decimal digits, read most significant digit first. */
  function ParseDigits(s: string): nat
    requires AllDigits(s)
    decreases |s|
  {
    if s == [] then 0
    else 10 * ParseDigits(s[..|s| - 1]) + DigitValue(s[|s| - 1])
  }

  lemma {:induction false} ParseNatToString(n: nat)
    ensures ParseDigits(NatToString(n)) == n
    decreases n
  {
    if n >= 10 {
      var p := NatToString(n / 10);
      var s := p + [DigitChar(n % 10)];
      assert s[..|s| - 1] == p;
      ParseNatToString(n / 10);
    }
  }

  lemma {:induction false} ParseDigitsPositive(s: string)
    requires |s| > 0 && AllDigits(s) && s[0] != '0'
    ensures ParseDigits(s) > 0
    decreases |s|
  {
    if |s| == 1 {
      assert DigitChar(DigitValue(s[0])) == s[0];
    } else {
      ParseDigitsPositive(s[..|s| - 1]);
    }
  }

  lemma {:induction false} NatToStringParse(s: string)
    requires Canonical(s)
    ensures NatToString(ParseDigits(s)) == s
    decreases |s|
  {
    var p := s[..|s| - 1];
    var d := DigitValue(s[|s| - 1]);
    if |s| == 1 {
      assert ParseDigits(p) == 0;
      assert s == [DigitChar(d)];
    } else {
      ParseDigitsPositive(p);
      NatToStringParse(p);
      var n := ParseDigits(s);
      assert n / 10 == ParseDigits(p) && n % 10 == d;
      assert s == p + [s[|s| - 1]];
    }
  }

  /** Decimal text of an integer, with '-' before negative numbers. */
  function IntToString(n: int): (r: string)
    ensures |r| > 0
    ensures r[0] == '-' <==> n < 0
  {
    if n < 0 then "-" + NatToString(-n) else NatToString(n)
  }

  /** Reads the text that IntToString produces; anything else is None. */
  function ParseInt(s: string): Option<int>
  {
    if |s| > 0 && s[0] == '-' then
      if Canonical(s[1..]) && s[1..] != "0" then Some(0 - ParseDigits(s[1..]) as int) else None
    else if Canonical(s) then Some(ParseDigits(s))
    else None
  }

  lemma ParseIntToString(n: int)
    ensures ParseInt(IntToString(n)) == Some(n)
  {
    if n < 0 {
      var s := IntToString(n);
      assert s[1..] == NatToString(-n);
      ParseNatToString(-n);
    } else {
      ParseNatToString(n);
    }
  }

  lemma IntToStringParse(s: string, n: int)
    requires ParseInt(s) == Some(n)
    ensures IntToString(n) == s
  {
    if |s| > 0 && s[0] == '-' {
      NatToStringParse(s[1..]);
      ParseDigitsPositive(s[1..]);
      assert s == "-" + s[1..];
    } else {
      NatToStringParse(s);
    }
  }

  const FormatPrefix: string := "{0:F"
  const FormatSuffix: string := "}"

  /** The composite format string that renders a value with `places` fractional digits. */
  function FormatString(places: int): (f: string)
    ensures |f| > |FormatPrefix| + |FormatSuffix|
    ensures f[..|FormatPrefix|] == FormatPrefix
    ensures ParseFormatString(f) == Some(places)
  {
    var f := FormatPrefix + IntToString(places) + FormatSuffix;
    ParseFormatOfIntToString(places);
    f
  }

  lemma ParseFormatOfIntToString(places: int)
    ensures ParseFormatString(FormatPrefix + IntToString(places) + FormatSuffix) == Some(places)
  {
    var g := FormatPrefix + IntToString(places) + FormatSuffix;
    assert g[..|FormatPrefix|] == FormatPrefix;
    assert g[|FormatPrefix|..|g| - |FormatSuffix|] == IntToString(places);
    assert g[|g| - |FormatSuffix|..] == FormatSuffix;
    ParseIntToString(places);
  }

  /** Recovers the number of places from a format string of the shape `{0:F<n>}`. */
  function ParseFormatString(f: string): Option<int>
  {
    if |f| > |FormatPrefix| + |FormatSuffix| && f[..|FormatPrefix|] == FormatPrefix
       && f[|f| - |FormatSuffix|..] == FormatSuffix
    then ParseInt(f[|FormatPrefix|..|f| - |FormatSuffix|])
    else None
  }

  /** The format string records its number of places, and only strings of that shape do. */
  lemma FormatStringRoundTrip(places: int, f: string)
    ensures ParseFormatString(FormatString(places)) == Some(places)
    ensures ParseFormatString(f) == Some(places) ==> f == FormatString(places)
  {
    if ParseFormatString(f) == Some(places) {
      var mid := f[|FormatPrefix|..|f| - |FormatSuffix|];
      IntToStringParse(mid, places);
      assert f == f[..|FormatPrefix|] + mid + f[|f| - |FormatSuffix|..];
    }
  }

  /** Different numbers of places give different format strings. */
  lemma FormatStringInjective(a: int, b: int)
    requires FormatString(a) == FormatString(b)
    ensures a == b
  {
  }

  /** The initial format string of the control is the one for zero places. */
  lemma InitialFormatIsZeroPlaces()
    ensures FormatString(0) == "{0:F0}"
    ensures ParseFormatString("{0:F0}") == Some(0)
  {
  }
}
