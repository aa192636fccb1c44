/** Rust's `u64::from_str` and the decimal `Display` of an unsigned
    integer, on strings of Unicode characters. */
module Numbers {
  import opened Wrappers

  /** One more than the largest `u64`. */
  const U64_LIMIT: nat := 0x1_0000_0000_0000_0000

  predicate IsDigit(c: char) {
    '0' <= c <= '9'
  }

  predicate AllDigits(s: string) {
    forall i :: 0 <= i < |s| ==> IsDigit(s[i])
  }

  function DigitValue(c: char): nat
    requires IsDigit(c)
  {
    c as int - '0' as int
  }

  function DigitChar(d: nat): (c: char)
    requires d < 10
    ensures IsDigit(c) && DigitValue(c) == d
  {
    ('0' as int + d) as char
  }

  function Pow10(k: nat): (p: nat)
    ensures p >= 1
  {
    if k == 0 then 1 else 10 * Pow10(k - 1)
  }

  /** The value of a string of decimal digits, most significant first. */
  function DigitsValue(s: string): nat
    requires AllDigits(s)
  {
    if |s| == 0 then 0 else DigitsValue(s[..|s| - 1]) * 10 + DigitValue(s[|s| - 1])
  }

  /** A string of `k` digits denotes a number below 10^k. */
  lemma {:induction false} DigitsValueBound(s: string)
    requires AllDigits(s)
    ensures DigitsValue(s) < Pow10(|s|)
  {
    if |s| > 0 {
      DigitsValueBound(s[..|s| - 1]);
    }
  }

  /** The digits `u64::from_str` reads: the string with one optional leading
      `+` removed. (`-` is never accepted by an unsigned parse.) */
  function Unsigned(s: string): (d: string)
    ensures |d| <= |s| && d == s[|s| - |d|..]
  {
    if |s| > 0 && s[0] == '+' then s[1..] else s
  }

  /** `s.parse::<u64>()`: an optional `+`, then one or more ASCII digits
      whose value fits in 64 bits; anything else is an error (`None`). */
  function ParseU64(s: string): (r: Option<nat>)
    ensures r.Some? ==> r.value < U64_LIMIT
    ensures r.Some? ==> 1 <= |Unsigned(s)| && AllDigits(Unsigned(s))
    ensures r.Some? ==> |s| == |Unsigned(s)| || s[0] == '+'
    ensures r.Some? ==> r.value == DigitsValue(Unsigned(s))
    ensures 1 <= |Unsigned(s)| && AllDigits(Unsigned(s)) && DigitsValue(Unsigned(s)) < U64_LIMIT ==> r.Some?
  {
    var digits := Unsigned(s);
    if |digits| > 0 && AllDigits(digits) && DigitsValue(digits) < U64_LIMIT then
      Some(DigitsValue(digits))
    else
      None
  }

  /** A parsed value of at least 1000 needs at least four characters, so
      the characters at indices 2 and 3 exist and are digits. */
  lemma ParsedWidth(s: string)
    requires ParseU64(s).Some? && ParseU64(s).value >= 1000
    ensures |s| >= 4 && IsDigit(s[2]) && IsDigit(s[3])
  {
    var d := Unsigned(s);
    DigitsValueBound(d);
    if |d| <= 3 {
      assert false;
    }
  }

  /** `format!("{}", n)`: the shortest decimal rendering of `n`. */
  function DecimalString(n: nat): (s: string)
    ensures 1 <= |s| && AllDigits(s)
    ensures |s| > 1 ==> s[0] != '0'
  {
    if n < 10 then [DigitChar(n)] else DecimalString(n / 10) + [DigitChar(n % 10)]
  }

  /** Reading back a rendered number gives the number. */
  lemma {:induction false} DigitsValueOfDecimal(n: nat)
    ensures DigitsValue(DecimalString(n)) == n
  {
    if n >= 10 {
      DigitsValueOfDecimal(n / 10);
      var s := DecimalString(n);
      assert s[..|s| - 1] == DecimalString(n / 10);
    }
  }

  /** Round trip: every `u64`, rendered in decimal with or without a
      leading `+`, parses back to itself. */
  lemma ParseDecimal(n: nat)
    requires n < U64_LIMIT
    ensures ParseU64(DecimalString(n)) == Some(n)
    ensures ParseU64("+" + DecimalString(n)) == Some(n)
  {
    DigitsValueOfDecimal(n);
    assert ("+" + DecimalString(n))[1..] == DecimalString(n);
  }

  /** Round trip the other way: a canonical digit string (no sign, no
      leading zero) is the rendering of the value it parses to. */
  lemma {:induction false} DecimalOfDigits(s: string)
    requires 1 <= |s| && AllDigits(s)
    requires |s| > 1 ==> s[0] != '0'
    ensures DecimalString(DigitsValue(s)) == s
  {
    if |s| > 1 {
      var p := s[..|s| - 1];
      DecimalOfDigits(p);
      LeadingDigitBound(p);
      assert DigitsValue(s) / 10 == DigitsValue(p);
      assert DigitsValue(s) % 10 == DigitValue(s[|s| - 1]);
      assert s == p + [s[|s| - 1]];
    }
  }

  /** A digit string that does not start with `0` is worth at least
      10^(length - 1). */
  lemma {:induction false} LeadingDigitBound(s: string)
    requires 1 <= |s| && AllDigits(s) && s[0] != '0'
    ensures DigitsValue(s) >= Pow10(|s| - 1)
  {
    if |s| > 1 {
      LeadingDigitBound(s[..|s| - 1]);
    }
  }

  /** The four characters of a four-digit number's rendering. */
  lemma FourDigits(y: nat)
    requires 1000 <= y < 10000
    ensures DecimalString(y)
      == [DigitChar(y / 1000), DigitChar(y / 100 % 10), DigitChar(y / 10 % 10), DigitChar(y % 10)]
  {
    assert y / 10 / 10 == y / 100;
    assert y / 100 / 10 == y / 1000;
    assert DecimalString(y / 1000) == [DigitChar(y / 1000)];
    assert DecimalString(y / 100) == [DigitChar(y / 1000), DigitChar(y / 100 % 10)];
    assert DecimalString(y / 10) == [DigitChar(y / 1000), DigitChar(y / 100 % 10), DigitChar(y / 10 % 10)];
  }

  /** `k` zero digits. */
  function Zeros(k: nat): (z: string)
    ensures |z| == k && AllDigits(z)
    ensures forall i :: 0 <= i < k ==> z[i] == '0'
  {
    seq(k, i => '0')
  }

  /** Leading zeros do not change the value of a digit string. */
  lemma {:induction false} ZerosValue(k: nat, t: string)
    requires AllDigits(t)
    ensures AllDigits(Zeros(k) + t) && DigitsValue(Zeros(k) + t) == DigitsValue(t)
  {
    var s := Zeros(k) + t;
    assert AllDigits(s) by {
      forall i | 0 <= i < |s| ensures IsDigit(s[i]) {
        if i >= k { assert s[i] == t[i - k]; }
      }
    }
    if |t| == 0 {
      if k > 0 {
        assert s[..|s| - 1] == Zeros(k - 1) + t;
        ZerosValue(k - 1, t);
      }
    } else {
      assert s[..|s| - 1] == Zeros(k) + t[..|t| - 1];
      ZerosValue(k, t[..|t| - 1]);
    }
  }

  /** Every all-digit string is some zeros followed by the canonical
      rendering of its value. */
  lemma {:induction false} StripZeros(d: string) returns (k: nat)
    requires 1 <= |d| && AllDigits(d)
    ensures k < |d| && d == Zeros(k) + DecimalString(DigitsValue(d))
  {
    if |d| > 1 && d[0] == '0' {
      var k' := StripZeros(d[1..]);
      k := k' + 1;
      ZerosValue(1, d[1..]);
      assert d == Zeros(1) + d[1..];
      assert Zeros(k) == Zeros(1) + Zeros(k');
    } else {
      k := 0;
      DecimalOfDigits(d);
      assert d == Zeros(0) + d;
    }
  }

  /** What `u64::from_str` accepts, exactly: after an optional `+`, some
      zeros followed by the rendering of a value below 2^64, which is the
      value parsed. */
  lemma ParseU64Exactly(s: string, n: nat)
    ensures ParseU64(s) == Some(n)
      <==> n < U64_LIMIT && exists k: nat :: Unsigned(s) == Zeros(k) + DecimalString(n)
  {
    var d := Unsigned(s);
    if ParseU64(s) == Some(n) {
      var k := StripZeros(d);
      assert d == Zeros(k) + DecimalString(n);
    }
    if n < U64_LIMIT && exists k: nat :: d == Zeros(k) + DecimalString(n) {
      var k: nat :| d == Zeros(k) + DecimalString(n);
      ZerosValue(k, DecimalString(n));
      DigitsValueOfDecimal(n);
    }
  }
}
