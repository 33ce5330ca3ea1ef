/** Decimal numerals as the verse service delivers them (chapter and verse
    numbers are strings) and as the title re-prints them: parsing follows
    Rust's `str::parse::<i32>`, printing follows `format!("{}", n)` for an
    `i32`. */
module Numerals {
  import opened Outcomes

  const I32Min: int := -0x8000_0000
  const I32Max: int := 0x7fff_ffff

  predicate IsDigit(c: char) { '0' <= c <= '9' }

  predicate AllDigits(s: string) { forall i :: 0 <= i < |s| ==> IsDigit(s[i]) }

  function DigitValue(c: char): (d: nat)
    requires IsDigit(c)
    ensures d < 10
  {
    (c as int) - ('0' as int)
  }

  function DigitChar(d: nat): (c: char)
    requires d < 10
    ensures IsDigit(c) && DigitValue(c) == d
  {
    (('0' as int) + d) as char
  }

  /** The value of a string of decimal digits, most significant first;
      leading zeros are allowed and contribute nothing. */
  function DigitsValue(s: string): nat
    requires AllDigits(s)
    decreases |s|
  {
    if |s| == 0 then 0 else DigitsValue(s[..|s| - 1]) * 10 + DigitValue(s[|s| - 1])
  }

  predicate IsSign(c: char) { c == '+' || c == '-' }

  /** The digits of a numeral once an optional leading sign is removed. */
  function Magnitude(s: string): string
  {
    if |s| > 0 && IsSign(s[0]) then s[1..] else s
  }

  predicate Negative(s: string) { |s| > 0 && s[0] == '-' }

  /** Rust's `str::parse::<i32>`: an optional single `+` or `-`, then one or
      more ASCII digits, and a value inside the 32-bit signed range. No
      whitespace is skipped. */
  function ParseI32(s: string): (r: Option<int>)
    ensures r.Some? ==> I32Min <= r.value <= I32Max
    ensures r.Some? ==> |Magnitude(s)| > 0 && AllDigits(Magnitude(s))
    ensures r.Some? ==> (r.value < 0 ==> Negative(s))
    ensures |Magnitude(s)| > 0 && AllDigits(Magnitude(s)) && !Negative(s) && DigitsValue(Magnitude(s)) <= I32Max
            ==> r == Some(DigitsValue(Magnitude(s)))
    ensures r.Some? && Negative(s) ==> r.value == -(DigitsValue(Magnitude(s)) as int)
    ensures |Magnitude(s)| > 0 && AllDigits(Magnitude(s)) && Negative(s) && DigitsValue(Magnitude(s)) <= I32Max + 1
            ==> r == Some(-(DigitsValue(Magnitude(s)) as int))
    ensures |Magnitude(s)| > 0 && AllDigits(Magnitude(s))
            && DigitsValue(Magnitude(s)) > I32Max + (if Negative(s) then 1 else 0)
            ==> r.None?
  {
    var ds := Magnitude(s);
    if |ds| == 0 || !AllDigits(ds) then None
    else
      var v: int := if Negative(s) then -(DigitsValue(ds) as int) else DigitsValue(ds);
      if I32Min <= v <= I32Max then Some(v) else None
  }

  /** `format!("{}", n)` for a non-negative integer: digits without leading
      zeros. */
  function FormatNat(n: nat): (r: string)
    ensures |r| > 0 && AllDigits(r)
    ensures r[0] == '0' ==> r == "0"
    ensures DigitsValue(r) == n
    decreases n
  {
    if n < 10 then [DigitChar(n)]
    else
      var pre := FormatNat(n / 10);
      assert (pre + [DigitChar(n % 10)])[..|pre|] == pre;
      pre + [DigitChar(n % 10)]
  }

  /** `format!("{}", n)` for a signed integer. */
  function FormatInt(n: int): (r: string)
    ensures |r| > 0
    ensures Negative(r) <==> n < 0
    ensures forall k :: 0 <= k < |r| ==> IsDigit(r[k]) || (k == 0 && r[k] == '-')
    ensures AllDigits(Magnitude(r)) && DigitsValue(Magnitude(r)) == if n < 0 then -n else n
  {
    if n < 0 then
      var f := FormatNat(-n);
      assert ("-" + f)[1..] == f;
      "-" + f
    else FormatNat(n)
  }

  /** A numeral in the form `FormatInt` prints: no `+`, no leading zeros,
      no `-0`. */
  predicate Canonical(s: string)
  {
    var ds := if Negative(s) then s[1..] else s;
    && |ds| > 0
    && AllDigits(ds)
    && (ds[0] == '0' ==> ds == "0" && !Negative(s))
  }

  /** A printed integer reads back as itself. */
  lemma ParseFormat(n: int)
    requires I32Min <= n <= I32Max
    ensures Canonical(FormatInt(n))
    ensures ParseI32(FormatInt(n)) == Some(n)
  {
    if n < 0 {
      var f := FormatNat(-n);
      assert ("-" + f)[1..] == f;
    }
  }

  /** Printing the value of a canonical digit string gives the string back. */
  lemma {:induction false} FormatDigitsValue(ds: string)
    requires |ds| > 0 && AllDigits(ds)
    requires ds[0] == '0' ==> ds == "0"
    ensures FormatNat(DigitsValue(ds)) == ds
    decreases |ds|
  {
    if |ds| > 1 {
      var pre := ds[..|ds| - 1];
      assert AllDigits(pre);
      FormatDigitsValue(pre);
      PositiveValue(pre);
      assert DigitsValue(ds) / 10 == DigitsValue(pre);
      assert DigitsValue(ds) % 10 == DigitValue(ds[|ds| - 1]);
      assert ds == pre + [ds[|ds| - 1]];
    }
  }

  /** A digit string whose first digit is not zero has a positive value. */
  lemma {:induction false} PositiveValue(ds: string)
    requires |ds| > 0 && AllDigits(ds) && ds[0] != '0'
    ensures DigitsValue(ds) > 0
    decreases |ds|
  {
    if |ds| > 1 {
      PositiveValue(ds[..|ds| - 1]);
    }
  }

  /** A canonical numeral that parses is printed back verbatim: the title
      shows such fields exactly as the service sent them. */
  lemma FormatParse(s: string)
    requires Canonical(s) && ParseI32(s).Some?
    ensures FormatInt(ParseI32(s).value) == s
  {
    var ds := Magnitude(s);
    assert ds == if Negative(s) then s[1..] else s;
    FormatDigitsValue(ds);
    if Negative(s) {
      assert ds != "0";
      PositiveValue(ds);
      assert ParseI32(s).value == -(DigitsValue(ds) as int);
      assert s == "-" + ds;
    } else {
      assert ParseI32(s).value == DigitsValue(ds);
    }
  }

  predicate AllZeros(s: string) { forall i :: 0 <= i < |s| ==> s[i] == '0' }

  lemma {:induction false} ZerosValue(zs: string)
    requires AllZeros(zs)
    ensures AllDigits(zs) && DigitsValue(zs) == 0
    decreases |zs|
  {
    if |zs| > 0 {
      ZerosValue(zs[..|zs| - 1]);
    }
  }

  /** Leading zeros do not change the value of a digit string. */
  lemma {:induction false} LeadingZeros(zs: string, ds: string)
    requires AllZeros(zs) && AllDigits(ds)
    ensures AllDigits(zs + ds)
    ensures DigitsValue(zs + ds) == DigitsValue(ds)
    decreases |ds|
  {
    ZerosValue(zs);
    if |ds| == 0 {
      assert zs + ds == zs;
    } else {
      LeadingZeros(zs, ds[..|ds| - 1]);
      assert (zs + ds)[..|zs + ds| - 1] == zs + ds[..|ds| - 1];
    }
  }

  /** A numeral padded with leading zeros (as in `03`) parses to the same
      value and is re-printed without them. */
  lemma Unpadded(zs: string, n: nat)
    requires AllZeros(zs) && n <= I32Max
    ensures ParseI32(zs + FormatNat(n)) == Some(n)
    ensures FormatInt(ParseI32(zs + FormatNat(n)).value) == FormatNat(n)
  {
    var f := FormatNat(n);
    LeadingZeros(zs, f);
    if |zs| > 0 {
      assert (zs + f)[0] == '0';
    } else {
      assert zs + f == f;
    }
    assert Magnitude(zs + f) == zs + f;
  }
}
