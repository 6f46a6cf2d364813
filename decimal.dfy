/** Decimal numerals: Python's `int(s)` on a string of ASCII digits,
    `str(n)` on a natural number, and the zero padding `strftime` applies
    to `%Y`, `%m`, `%d`, `%H`, `%M` and `%S`. */
module Decimal {
  import opened Wrappers

  predicate IsDigit(c: char) {
    '0' <= c <= '9'
  }

  predicate AllDigits(s: string) {
    forall i :: 0 <= i < |s| ==> IsDigit(s[i])
  }

  function DigitChar(d: nat): (c: char)
    requires d < 10
    ensures IsDigit(c) && c as int - '0' as int == d
  {
    (('0' as int) + d) as char
  }

  function Pow10(k: nat): (p: nat)
    ensures p >= 1
  {
    if k == 0 then 1 else 10 * Pow10(k - 1)
  }

  /** The number a digit string denotes, most significant digit first. */
  function Value(s: string): nat
    requires AllDigits(s)
  {
    if s == [] then 0 else Value(s[..|s| - 1]) * 10 + (s[|s| - 1] as int - '0' as int)
  }

  /** `int(s)`: a number for a non-empty string of ASCII digits, `None`
      where Python raises `ValueError`. */
  function Parse(s: string): (r: Option<nat>)
    ensures r.Some? <==> s != [] && AllDigits(s)
  {
    if s != [] && AllDigits(s) then Some(Value(s)) else None
  }

  /** `str(n)`: the shortest numeral of `n`; only zero starts with '0'. */
  function Digits(n: nat): (s: string)
    ensures s != [] && AllDigits(s)
    ensures s[0] == '0' <==> n == 0
    ensures |s| == 1 <==> n < 10
  {
    if n < 10 then [DigitChar(n)] else Digits(n / 10) + [DigitChar(n % 10)]
  }

  function Zeros(k: nat): (s: string)
    ensures |s| == k && AllDigits(s)
  {
    seq(k, _ => '0')
  }

  /** The numeral of `n` left-padded with zeros to at least `width` digits. */
  function Padded(n: nat, width: nat): (s: string)
    ensures AllDigits(s)
    ensures |s| == if |Digits(n)| < width then width else |Digits(n)|
  {
    var d := Digits(n);
    (if |d| < width then Zeros(width - |d|) else []) + d
  }

  lemma {:induction false} ValueOfDigits(n: nat)
    ensures Value(Digits(n)) == n
  {
    if n >= 10 {
      var s := Digits(n);
      assert s[..|s| - 1] == Digits(n / 10);
      ValueOfDigits(n / 10);
    }
  }

  /** Reading back what `str(n)` wrote gives `n`. */
  lemma ParseDigits(n: nat)
    ensures Parse(Digits(n)) == Some(n)
  {
    ValueOfDigits(n);
  }

  lemma {:induction false} ValueOfZeros(k: nat)
    ensures Value(Zeros(k)) == 0
  {
    if k > 0 {
      assert Zeros(k)[..k - 1] == Zeros(k - 1);
      ValueOfZeros(k - 1);
    }
  }

  lemma {:induction false} LeadingZerosIgnored(k: nat, s: string)
    requires AllDigits(s)
    ensures Value(Zeros(k) + s) == Value(s)
    decreases |s|
  {
    if s == [] {
      assert Zeros(k) + s == Zeros(k);
      ValueOfZeros(k);
    } else {
      var t := Zeros(k) + s;
      assert t[..|t| - 1] == Zeros(k) + s[..|s| - 1];
      LeadingZerosIgnored(k, s[..|s| - 1]);
    }
  }

  /** Reading back a zero-padded numeral gives the number. */
  lemma ParsePadded(n: nat, width: nat)
    ensures Parse(Padded(n, width)) == Some(n)
  {
    var d := Digits(n);
    ValueOfDigits(n);
    if |d| < width {
      LeadingZerosIgnored(width - |d|, d);
    } else {
      assert Padded(n, width) == d;
    }
  }

  /** The form `str(n)` writes: digits, and no leading zero unless the
      numeral is "0" itself. */
  predicate Canonical(s: string) {
    s != [] && AllDigits(s) && (s[0] == '0' ==> |s| == 1)
  }

  lemma {:induction false} ValuePositive(s: string)
    requires s != [] && AllDigits(s) && s[0] != '0'
    ensures Value(s) >= 1
    decreases |s|
  {
    if |s| > 1 {
      var t := s[..|s| - 1];
      assert t[0] == s[0];
      ValuePositive(t);
    }
  }

  /** A canonical numeral is the one `str` writes for its value, so a
      number has exactly one canonical numeral. */
  lemma {:induction false} CanonicalIsDigits(s: string)
    requires Canonical(s)
    ensures s == Digits(Value(s))
    decreases |s|
  {
    var n := Value(s);
    var d := s[|s| - 1] as int - '0' as int;
    var t := s[..|s| - 1];
    assert n == Value(t) * 10 + d;
    if |s| == 1 {
      assert DigitChar(n) == s[0];
    } else {
      assert t[0] == s[0] && t[0] != '0';
      ValuePositive(t);
      CanonicalIsDigits(t);
      assert n / 10 == Value(t) && n % 10 == d;
      assert s == t + [DigitChar(d)];
    }
  }

  /** A number below 10^w has at most `w` digits, so padding it to `w`
      digits gives exactly `w` characters. */
  lemma {:induction false} PaddedWidth(n: nat, width: nat)
    requires 1 <= width && n < Pow10(width)
    ensures |Digits(n)| <= width
    ensures |Padded(n, width)| == width
  {
    if n >= 10 {
      assert width >= 2;
      assert n / 10 < Pow10(width - 1);
      PaddedWidth(n / 10, width - 1);
    }
  }
}
