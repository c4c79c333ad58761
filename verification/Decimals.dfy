/** Decimal numerals as the program prints and reads them. */
module Decimals {

  predicate IsDigit(c: char) { '0' <= c <= '9' }

  predicate AllDigits(s: string) {
    forall i :: 0 <= i < |s| ==> IsDigit(s[i])
  }

  function DigitChar(d: nat): (c: char)
    requires d < 10
    ensures IsDigit(c) && DigitValue(c) == d
  {
    ('0' as int + d) as char
  }

  function DigitValue(c: char): (d: nat)
    requires IsDigit(c)
    ensures d < 10
  {
    c as int - '0' as int
  }

  /** The numeral of `n`, without leading zeros. */
  function Digits(n: nat): (s: string)
    ensures s != [] && AllDigits(s)
  {
    if n < 10 then [DigitChar(n)] else Digits(n / 10) + [DigitChar(n % 10)]
  }

  /** The number a numeral denotes, leading zeros allowed. */
  function ValueOf(s: string): nat
    requires AllDigits(s)
  {
    if s == [] then 0 else 10 * ValueOf(s[..|s| - 1]) + DigitValue(s[|s| - 1])
  }

  function Zeros(n: nat): (s: string)
    ensures |s| == n && AllDigits(s)
  {
    seq(n, _ => '0')
  }

  /** The numeral of `n`, padded with zeros to at least `width` digits. */
  function Padded(width: nat, n: nat): (s: string)
    ensures |s| >= width && AllDigits(s)
  {
    if |Digits(n)| >= width then Digits(n) else Zeros(width - |Digits(n)|) + Digits(n)
  }

  /** Printing a number and reading it back gives the number. */
  lemma {:induction false} DigitsValue(n: nat)
    ensures ValueOf(Digits(n)) == n
    ensures n > 0 ==> Digits(n)[0] != '0'
  {
    if n >= 10 {
      DigitsValue(n / 10);
      assert (Digits(n / 10) + [DigitChar(n % 10)])[..|Digits(n / 10)|] == Digits(n / 10);
    } else {
      assert [DigitChar(n)][..0] == [];
    }
  }

  lemma {:induction false} LeadingZeros(k: nat, s: string)
    requires AllDigits(s)
    ensures ValueOf(Zeros(k) + s) == ValueOf(s)
  {
    if s == [] {
      if k > 0 {
        LeadingZeros(k - 1, s);
        assert (Zeros(k) + s)[..k - 1] == Zeros(k - 1) + s;
      } else {
        assert Zeros(k) + s == s;
      }
    } else {
      LeadingZeros(k, s[..|s| - 1]);
      assert (Zeros(k) + s)[..k + |s| - 1] == Zeros(k) + s[..|s| - 1];
    }
  }

  /** Padding does not change the number. */
  lemma PaddedValue(width: nat, n: nat)
    ensures ValueOf(Padded(width, n)) == n
  {
    DigitsValue(n);
    if |Digits(n)| < width {
      LeadingZeros(width - |Digits(n)|, Digits(n));
    }
  }

  /** How many digits the text begins with. */
  function DigitRun(text: string): (run: nat)
    ensures run <= |text| && AllDigits(text[..run])
    ensures run < |text| ==> !IsDigit(text[run])
  {
    if text != [] && IsDigit(text[0]) then
      var more := DigitRun(text[1..]);
      assert text[..more + 1] == [text[0]] + text[1..][..more];
      more + 1
    else 0
  }

  lemma DigitRunOf(digits: string, rest: string)
    requires AllDigits(digits) && (rest == [] || !IsDigit(rest[0]))
    ensures DigitRun(digits + rest) == |digits|
    ensures (digits + rest)[..|digits|] == digits && (digits + rest)[|digits|..] == rest
  {
    var text := digits + rest;
    var run := DigitRun(text);
    assert forall i :: 0 <= i < |digits| ==> text[i] == digits[i];
    assert forall i :: 0 <= i < run ==> text[..run][i] == text[i];
    assert rest != [] ==> text[|digits|] == rest[0];
  }

  /** A run of digits that something else ends is determined by the text it starts. */
  lemma DigitRunUnique(text: string, a: string, rest: string, b: string, other: string)
    requires AllDigits(a) && AllDigits(b)
    requires rest != [] && !IsDigit(rest[0]) && other != [] && !IsDigit(other[0])
    requires a + rest <= text && b + other <= text
    ensures a == b && rest <= text[|a|..] && other <= text[|a|..]
  {
    assert text[|a|] == rest[0] && text[|b|] == other[0];
    assert forall i :: 0 <= i < |a| ==> text[i] == a[i];
    assert forall i :: 0 <= i < |b| ==> text[i] == b[i];
    assert a == text[..|a|] && b == text[..|b|];
  }

  // ---------- Numerals ----------

  /** `digits` denotes `n` with at least `width` digits, and with no more than it takes. */
  ghost predicate Numeral(digits: string, width: nat, n: nat) {
    && AllDigits(digits) && ValueOf(digits) == n
    && |digits| >= width && (|digits| > width ==> digits[0] != '0')
  }

  function Power10(k: nat): nat {
    if k == 0 then 1 else 10 * Power10(k - 1)
  }

  lemma {:induction false} ValueBounds(s: string)
    requires AllDigits(s)
    ensures ValueOf(s) < Power10(|s|)
    ensures s != [] && s[0] != '0' ==> ValueOf(s) >= Power10(|s| - 1)
  {
    if s != [] {
      ValueBounds(s[..|s| - 1]);
    }
  }

  lemma {:induction false} Power10Grows(a: nat, b: nat)
    requires a <= b
    ensures Power10(a) <= Power10(b)
  {
    if a < b {
      Power10Grows(a, b - 1);
    }
  }

  lemma {:induction false} SameLengthSameNumeral(a: string, b: string)
    requires AllDigits(a) && AllDigits(b) && |a| == |b| && ValueOf(a) == ValueOf(b)
    ensures a == b
  {
    if a != [] {
      var n := |a| - 1;
      SameLengthSameNumeral(a[..n], b[..n]);
      assert a == a[..n] + [a[n]] && b == b[..n] + [b[n]];
    }
  }

  lemma ShorterIsLess(a: string, b: string)
    requires AllDigits(a) && AllDigits(b) && |a| < |b| && b[0] != '0'
    ensures ValueOf(a) < ValueOf(b)
  {
    ValueBounds(a);
    ValueBounds(b);
    Power10Grows(|a|, |b| - 1);
  }

  /** The padded numeral is the only one of its width. */
  lemma PaddedIff(width: nat, n: nat, digits: string)
    requires width > 0
    ensures Numeral(digits, width, n) <==> digits == Padded(width, n)
  {
    hide ValueOf, Digits;
    PaddedValue(width, n);
    DigitsValue(n);
    OneDigit(n);
    var padded := Padded(width, n);
    assert Numeral(padded, width, n);
    if Numeral(digits, width, n) {
      if |digits| < |padded| {
        ShorterIsLess(digits, padded);
      } else if |padded| < |digits| {
        ShorterIsLess(padded, digits);
      } else {
        SameLengthSameNumeral(digits, padded);
      }
    }
  }

  lemma OneDigit(n: nat)
    ensures n == 0 ==> |Digits(n)| == 1
  {
  }
}
