/** JavaScript number conversions used by the modelled code, on integers:
    the 32-bit truncation of the bitwise operators, `Number.prototype.toString(radix)`,
    and `parseInt`. */
module JsNumber {
  import opened Wrappers
  import JsText

  const TwoTo32: int := 0x1_0000_0000
  const TwoTo31: int := 0x8000_0000

  /** ECMAScript ToInt32: wrap modulo 2^32 into the signed range. */
  function ToInt32(x: int): (r: int)
    ensures -TwoTo31 <= r < TwoTo31
    ensures (r - x) % TwoTo32 == 0
  {
    var m := x % TwoTo32;
    if m >= TwoTo31 then m - TwoTo32 else m
  }

  predicate IsRadix(radix: int) { 2 <= radix <= 36 }

  /** The digit character for `d`: 0-9, then lower-case a-z. */
  function DigitChar(d: nat): char
    requires d < 36
  {
    if d < 10 then ('0' as int + d) as char else ('a' as int + d - 10) as char
  }

  /** The value of a digit character in the given radix, if it is one
      (upper- and lower-case letters both count, as in `parseInt`). */
  function DigitValue(c: char, radix: int): (r: Option<nat>)
    requires IsRadix(radix)
    ensures r.Some? ==> r.value < radix
  {
    var v: int :=
      if '0' <= c <= '9' then c as int - '0' as int
      else if 'a' <= c <= 'z' then c as int - 'a' as int + 10
      else if 'A' <= c <= 'Z' then c as int - 'A' as int + 10
      else 36;
    if v < radix then Some(v) else None
  }

  lemma DigitCharValue(d: nat, radix: int)
    requires IsRadix(radix) && d < radix
    ensures DigitValue(DigitChar(d), radix) == Some(d)
  {
  }

  /** The digits of `n` in `radix`, most significant first, without leading zeros. */
  function NatDigits(n: nat, radix: int): (ds: string)
    requires IsRadix(radix)
    ensures |ds| >= 1
    ensures forall i :: 0 <= i < |ds| ==> DigitValue(ds[i], radix).Some?
    decreases n
  {
    DivMod(n, radix);
    DigitCharValue(n % radix, radix);
    if n < radix then [DigitChar(n)] else NatDigits(n / radix, radix) + [DigitChar(n % radix)]
  }

  lemma DivMod(n: nat, radix: int)
    requires IsRadix(radix)
    ensures 0 <= n % radix < radix && n == (n / radix) * radix + n % radix
    ensures n >= radix ==> 0 < n / radix < n
    ensures n < radix ==> n % radix == n
  {
    if n >= radix {
      QuotientBounds(n, radix);
    } else {
      SmallQuotient(n, radix);
    }
  }

  lemma SmallQuotient(n: nat, radix: int)
    requires IsRadix(radix) && n < radix
    ensures n / radix == 0 && n % radix == n
  {
  }

  lemma QuotientBounds(n: nat, radix: int)
    requires IsRadix(radix) && n >= radix
    ensures 0 < n / radix < n
  {
    var q := n / radix;
    assert q * radix <= n < q * radix + radix;
    MulPositive(q, radix);
    MulNonNegative(q, radix - 2);
    assert q * radix == q * 2 + q * (radix - 2);
  }

  lemma MulPositive(a: int, b: int)
    requires b > 0 && a * b > 0
    ensures a > 0
  {
  }

  lemma MulNonNegative(a: nat, b: nat)
    ensures a * b >= 0
  {
  }

  /** The value of a digit string, most significant first. */
  function DigitsValue(ds: string, radix: int): nat
    requires IsRadix(radix)
    requires forall i :: 0 <= i < |ds| ==> DigitValue(ds[i], radix).Some?
  {
    if ds == [] then 0
    else
      var high := DigitsValue(ds[..|ds| - 1], radix);
      var low := DigitValue(ds[|ds| - 1], radix).value;
      MulNonNegative(high, radix);
      high * radix + low
  }

  /** `n.toString(radix)` for an integer `n`. */
  function RadixString(n: int, radix: int): (s: string)
    requires IsRadix(radix)
    ensures |s| >= 1
    ensures (s[0] == '-') <==> n < 0
  {
    if n < 0 then "-" + NatDigits(-n, radix) else NatDigits(n, radix)
  }

  /** `n.toString()`: decimal. */
  function DecimalString(n: int): string {
    RadixString(n, 10)
  }

  /** Reads a rendering back: the reference inverse of `RadixString`. */
  function ParseRadixString(s: string, radix: int): Option<int>
    requires IsRadix(radix)
  {
    var neg := |s| > 0 && s[0] == '-';
    var body := if neg then s[1..] else s;
    if body != [] && forall i :: 0 <= i < |body| ==> DigitValue(body[i], radix).Some? then
      var v: int := DigitsValue(body, radix);
      Some(if neg then -v else v)
    else None
  }

  lemma {:induction false} DigitsRoundTrip(n: nat, radix: int)
    requires IsRadix(radix)
    ensures DigitsValue(NatDigits(n, radix), radix) == n
    decreases n
  {
    DivMod(n, radix);
    DigitCharValue(n % radix, radix);
    if n >= radix {
      var ds := NatDigits(n, radix);
      assert ds[..|ds| - 1] == NatDigits(n / radix, radix);
      DigitsRoundTrip(n / radix, radix);
    }
  }

  /** Rendering in any radix is undone by `ParseRadixString`, so distinct
      integers never share a rendering. */
  lemma RadixRoundTrip(n: int, radix: int)
    requires IsRadix(radix)
    ensures ParseRadixString(RadixString(n, radix), radix) == Some(n)
  {
    if n < 0 {
      DigitsRoundTrip(-n, radix);
      assert RadixString(n, radix)[1..] == NatDigits(-n, radix);
    } else {
      DigitsRoundTrip(n, radix);
      assert NatDigits(n, radix)[0] != '-' by {
        assert DigitValue(NatDigits(n, radix)[0], radix).Some?;
      }
    }
  }

  /** The characters `toString(radix)` writes for digits: 0-9, then a-z. */
  predicate IsLowerDigit(c: char) {
    '0' <= c <= '9' || 'a' <= c <= 'z'
  }

  lemma DigitCharShape(d: nat)
    requires d < 36
    ensures IsLowerDigit(DigitChar(d))
    ensures DigitChar(d) == '0' <==> d == 0
  {
  }

  /** The digits are lower-case, and the first is '0' only for zero itself. */
  lemma {:induction false} NatDigitsShape(n: nat, radix: int)
    requires IsRadix(radix)
    ensures forall i :: 0 <= i < |NatDigits(n, radix)| ==> IsLowerDigit(NatDigits(n, radix)[i])
    ensures NatDigits(n, radix)[0] == '0' <==> n == 0
    decreases n
  {
    DivMod(n, radix);
    DigitCharShape(n % radix);
    if n >= radix {
      var high := NatDigits(n / radix, radix);
      NatDigitsShape(n / radix, radix);
      assert NatDigits(n, radix) == high + [DigitChar(n % radix)];
      forall i | 0 <= i < |NatDigits(n, radix)| ensures IsLowerDigit(NatDigits(n, radix)[i]) {
        if i < |high| {
          assert NatDigits(n, radix)[i] == high[i];
        }
      }
    } else {
      DigitCharShape(n);
    }
  }

  /** `toString(radix)` writes an optional '-' and then lower-case digits
      with no leading zero (zero itself is "0"). */
  lemma RadixStringShape(n: int, radix: int)
    requires IsRadix(radix)
    ensures forall i :: (if n < 0 then 1 else 0) <= i < |RadixString(n, radix)| ==> IsLowerDigit(RadixString(n, radix)[i])
    ensures |RadixString(n, radix)| > (if n < 0 then 1 else 0)
    ensures RadixString(n, radix)[if n < 0 then 1 else 0] == '0' <==> n == 0
    ensures n == 0 ==> RadixString(n, radix) == "0"
  {
    var m: nat := if n < 0 then -n else n;
    NatDigitsShape(m, radix);
    var ds := NatDigits(m, radix);
    if n < 0 {
      assert RadixString(n, radix) == "-" + ds;
      forall i | 1 <= i < |RadixString(n, radix)| ensures IsLowerDigit(RadixString(n, radix)[i]) {
        assert RadixString(n, radix)[i] == ds[i - 1];
      }
    }
  }

  /** Length of the longest prefix of `s` made of digits of `radix`. */
  function DigitRun(s: string, radix: int): (n: nat)
    requires IsRadix(radix)
    ensures n <= |s|
    ensures forall i :: 0 <= i < n ==> DigitValue(s[i], radix).Some?
    ensures n < |s| ==> DigitValue(s[n], radix).None?
  {
    if s == [] || DigitValue(s[0], radix).None? then 0 else 1 + DigitRun(s[1..], radix)
  }

  /** The value of the longest digit prefix, `None` (NaN) when it is empty. */
  function LeadingNumber(s: string, radix: int): (r: Option<nat>)
    requires IsRadix(radix)
  {
    var n := DigitRun(s, radix);
    if n == 0 then None else Some(DigitsValue(s[..n], radix))
  }

  /** `parseInt(s)` with no radix argument: leading whitespace is skipped, an
      optional sign is read, and the rest is read by `UnsignedPrefix`; `None`
      stands for NaN. */
  function ParseInt(s: string): Option<int> {
    var t := JsText.TrimStart(s);
    var neg := |t| > 0 && t[0] == '-';
    var u := if |t| > 0 && (t[0] == '-' || t[0] == '+') then t[1..] else t;
    match UnsignedPrefix(u)
    case None => None
    case Some(v) => var i: int := v; Some(if neg then -i else i)
  }

  /** What follows the sign: a "0x"/"0X" prefix selects radix 16, and the
      longest run of digits that follows is the value. */
  function UnsignedPrefix(u: string): Option<nat> {
    var hex := |u| >= 2 && u[0] == '0' && (u[1] == 'x' || u[1] == 'X');
    if hex then LeadingNumber(u[2..], 16) else LeadingNumber(u, 10)
  }

  /** `parseInt` reads back what `toString()` wrote. */
  lemma DecimalRoundTrip(n: int)
    ensures ParseInt(DecimalString(n)) == Some(n)
  {
    var m: nat := if n < 0 then -n else n;
    var ds := NatDigits(m, 10);
    DigitsRoundTrip(m, 10);
    DecimalDigitsRead(ds);
    SignRead(n < 0, ds, m);
    assert DecimalString(n) == (if n < 0 then "-" else "") + ds;
  }

  /** The sign is read, then the rest is left to `UnsignedPrefix`. */
  lemma SignRead(neg: bool, u: string, v: nat)
    requires u != [] && DigitValue(u[0], 10).Some? && UnsignedPrefix(u) == Some(v)
    ensures var i: int := v; ParseInt((if neg then "-" else "") + u) == Some(if neg then -i else i)
  {
    var s := (if neg then "-" else "") + u;
    assert !JsText.IsWhitespace(s[0]) && s[0] != '+';
    assert JsText.TrimStart(s) == s;
    assert (if neg then s[1..] else s) == u;
  }

  /** Decimal digits with no sign are read whole, in radix 10. */
  lemma DecimalDigitsRead(ds: string)
    requires ds != [] && forall i :: 0 <= i < |ds| ==> DigitValue(ds[i], 10).Some?
    ensures UnsignedPrefix(ds) == Some(DigitsValue(ds, 10))
  {
    DigitsNotHexPrefix(ds);
    LeadingNumberAll(ds, 10);
  }

  /** A string of decimal digits has no "0x" prefix. */
  lemma DigitsNotHexPrefix(ds: string)
    requires forall i :: 0 <= i < |ds| ==> DigitValue(ds[i], 10).Some?
    ensures !(|ds| >= 2 && ds[0] == '0' && (ds[1] == 'x' || ds[1] == 'X'))
  {
    if |ds| >= 2 {
      assert DigitValue(ds[1], 10).Some?;
    }
  }

  /** A string made only of digits is read whole. */
  lemma LeadingNumberAll(ds: string, radix: int)
    requires IsRadix(radix) && ds != []
    requires forall i :: 0 <= i < |ds| ==> DigitValue(ds[i], radix).Some?
    ensures LeadingNumber(ds, radix) == Some(DigitsValue(ds, radix))
  {
    DigitRunAll(ds, radix);
    assert ds[..|ds|] == ds;
  }

  lemma {:induction false} DigitRunAll(ds: string, radix: int)
    requires IsRadix(radix)
    requires forall i :: 0 <= i < |ds| ==> DigitValue(ds[i], radix).Some?
    ensures DigitRun(ds, radix) == |ds|
  {
    if ds != [] {
      DigitRunAll(ds[1..], radix);
    }
  }
}
