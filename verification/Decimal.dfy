/** Decimal text as Rust's formatter writes it and its integer parser reads it. */
module Decimal {

  datatype Option<+T> = None | Some(value: T)

  predicate IsDigit(c: char) { '0' <= c <= '9' }

  function DigitChar(d: int): (c: char)
    requires 0 <= d < 10
    ensures IsDigit(c) && DigitValue(c) == d
  {
    ('0' as int + d) as char
  }

  function DigitValue(c: char): int
    requires IsDigit(c)
  {
    c as int - '0' as int
  }

  ghost predicate AllDigits(s: string) { forall i :: 0 <= i < |s| ==> IsDigit(s[i]) }

  predicate AreDigits(s: string)
    ensures AreDigits(s) <==> AllDigits(s)
  {
    forall c | c in s :: IsDigit(c)
  }

  function DigitsValue(s: string): (v: nat)
    requires AllDigits(s)
  {
    if |s| == 0 then 0 else 10 * DigitsValue(s[..|s| - 1]) + DigitValue(s[|s| - 1])
  }

  // ----- formatting -----

  /** `n.to_string()` for an unsigned integer. */
  function ToString(n: nat): (s: string)
    ensures |s| > 0
  {
    if n < 10 then [DigitChar(n)] else ToString(n / 10) + [DigitChar(n % 10)]
  }

  function Zeros(k: nat): string { if k == 0 then "" else "0" + Zeros(k - 1) }

  /** `{n:0width}` for an unsigned number: zeros on the left up to the width. */
  function Padded(n: nat, width: nat): string {
    var text := ToString(n);
    if |text| >= width then text else Zeros(width - |text|) + text
  }

  /** `{n:0width}` for a signed number: the sign counts toward the width. */
  function PaddedInt(n: int, width: nat): string {
    if n >= 0 then Padded(n, width)
    else "-" + Padded(-n, if width == 0 then 0 else width - 1)
  }

  /** Exactly `w` digits: the shape of a padded number that fits its width. */
  function Fixed(n: nat, w: nat): (s: string)
    ensures |s| == w
  {
    if w == 0 then "" else Fixed(n / 10, w - 1) + [DigitChar(n % 10)]
  }

  function Pow10(w: nat): (p: nat)
    ensures p > 0
  {
    if w == 0 then 1 else 10 * Pow10(w - 1)
  }

  lemma {:induction false} PaddedIsFixed(n: nat, w: nat)
    requires w > 0 && n < Pow10(w)
    ensures Padded(n, w) == Fixed(n, w)
    ensures |ToString(n)| <= w
  {
    if w == 1 {
      assert Fixed(n, 1) == Fixed(n / 10, 0) + [DigitChar(n)];
    } else if n < 10 {
      FixedZero(w - 1);
      assert n / 10 == 0;
    } else {
      PaddedIsFixed(n / 10, w - 1);
      var head := ToString(n / 10);
      if |head| < w - 1 {
        assert Zeros(w - 1 - |head|) + (head + [DigitChar(n % 10)])
            == (Zeros(w - 1 - |head|) + head) + [DigitChar(n % 10)];
      }
    }
  }

  lemma {:induction false} FixedZero(w: nat)
    ensures Fixed(0, w) == Zeros(w)
  {
    if w > 0 {
      FixedZero(w - 1);
      ZerosSnoc(w - 1);
    }
  }

  lemma {:induction false} ZerosSnoc(k: nat)
    ensures Zeros(k) + "0" == Zeros(k + 1)
  {
    if k > 0 {
      ZerosSnoc(k - 1);
      assert Zeros(k) + "0" == "0" + (Zeros(k - 1) + "0");
    }
  }

  lemma {:induction false} FixedValue(n: nat, w: nat)
    requires n < Pow10(w)
    ensures AllDigits(Fixed(n, w)) && DigitsValue(Fixed(n, w)) == n
  {
    if w > 0 {
      FixedValue(n / 10, w - 1);
      assert Fixed(n, w)[..w - 1] == Fixed(n / 10, w - 1);
    }
  }

  lemma {:induction false} ToStringValue(n: nat)
    ensures AllDigits(ToString(n)) && DigitsValue(ToString(n)) == n
  {
    if n >= 10 {
      ToStringValue(n / 10);
      assert ToString(n)[..|ToString(n)| - 1] == ToString(n / 10);
    } else {
      assert ToString(n)[..0] == "";
    }
  }

  // ----- parsing -----

  /** `str::parse` for an unsigned type with largest value `max`: an optional
      plus sign, at least one digit, nothing else, no overflow. */
  function ParseUnsigned(s: string, max: nat): (r: Option<int>)
    ensures r.Some? ==> 0 <= r.value <= max
  {
    var body := if |s| > 0 && s[0] == '+' then s[1..] else s;
    if |body| == 0 || !AreDigits(body) || DigitsValue(body) > max then None
    else Some(DigitsValue(body))
  }

  const I64_MAX: int := 0x7FFF_FFFF_FFFF_FFFF

  function ParseI64(s: string): (r: Option<int>)
    ensures r.Some? ==> -I64_MAX - 1 <= r.value <= I64_MAX
  {
    if |s| > 0 && s[0] == '-' then
      var body := s[1..];
      if |body| == 0 || !AreDigits(body) || DigitsValue(body) > I64_MAX + 1 then None
      else
        var magnitude: int := DigitsValue(body);
        Some(-magnitude)
    else ParseUnsigned(s, I64_MAX)
  }

  /** What parses: digits, or a plus sign and digits, whose value fits. */
  lemma ParsesIff(s: string, max: nat, v: nat)
    ensures ParseUnsigned(s, max) == Some(v)
       <==> v <= max && ((|s| > 0 && AllDigits(s) && DigitsValue(s) == v)
                         || (|s| > 1 && s[0] == '+' && AllDigits(s[1..]) && DigitsValue(s[1..]) == v))
  {
    if |s| > 0 && s[0] == '+' { assert !IsDigit(s[0]); }
  }

  /** Every unsigned value survives printing and parsing. */
  lemma ParseToString(n: nat, max: nat)
    requires n <= max
    ensures ParseUnsigned(ToString(n), max) == Some(n)
  {
    ToStringValue(n);
    assert ToString(n)[0] != '+';
  }

  lemma ParseFixed(n: nat, w: nat, max: nat)
    requires 0 < w && n < Pow10(w) && n <= max
    ensures ParseUnsigned(Fixed(n, w), max) == Some(n)
    ensures max == I64_MAX ==> ParseI64(Fixed(n, w)) == Some(n)
  {
    FixedValue(n, w);
    assert IsDigit(Fixed(n, w)[0]);
  }

  // ----- text order -----

  /** Byte order of strings, the order a text sort uses. */
  predicate TextBefore(a: string, b: string) {
    if b == "" then false
    else if a == "" then true
    else if a[0] != b[0] then a[0] < b[0]
    else TextBefore(a[1..], b[1..])
  }

  lemma {:induction false} TextBeforeExtends(a: string, b: string, x: string, y: string)
    requires |a| == |b| && TextBefore(a, b)
    ensures TextBefore(a + x, b + y)
  {
    if a[0] == b[0] {
      TextBeforeExtends(a[1..], b[1..], x, y);
      assert (a + x)[1..] == a[1..] + x && (b + y)[1..] == b[1..] + y;
    }
  }

  lemma {:induction false} TextBeforePrefixed(p: string, x: string, y: string)
    requires TextBefore(x, y)
    ensures TextBefore(p + x, p + y)
  {
    if p == "" {
      assert p + x == x && p + y == y;
    } else {
      TextBeforePrefixed(p[1..], x, y);
      assert (p + x)[1..] == p[1..] + x && (p + y)[1..] == p[1..] + y;
    }
  }

  lemma {:induction false} TextBeforeAsymmetric(a: string, b: string)
    requires TextBefore(a, b)
    ensures !TextBefore(b, a)
  {
    if a != "" && a[0] == b[0] { TextBeforeAsymmetric(a[1..], b[1..]); }
  }

  /** Fixed-width numbers sort as text the way they sort as numbers. */
  lemma {:induction false} FixedOrders(m: nat, n: nat, w: nat)
    requires m < n < Pow10(w)
    ensures TextBefore(Fixed(m, w), Fixed(n, w))
  {
    if m / 10 < n / 10 {
      FixedOrders(m / 10, n / 10, w - 1);
      TextBeforeExtends(Fixed(m / 10, w - 1), Fixed(n / 10, w - 1), [DigitChar(m % 10)], [DigitChar(n % 10)]);
    } else {
      assert m / 10 == n / 10 && m % 10 < n % 10;
      TextBeforePrefixed(Fixed(m / 10, w - 1), [DigitChar(m % 10)], [DigitChar(n % 10)]);
    }
  }
}
