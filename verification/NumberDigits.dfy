/** Digits and values: what printers and parsers of integers have in common. */
module NumberDigits {
  import opened Options

  const LONG_MAX: int := 0x7FFF_FFFF_FFFF_FFFF
  const LONG_MIN: int := -0x8000_0000_0000_0000
  const ULONG_MAX: int := 0xFFFF_FFFF_FFFF_FFFF

  function Abs(a: int): nat {
    if a < 0 then -a else a
  }

  /** C's division and remainder: toward zero. */
  function CDiv(a: int, b: int): int
    requires b != 0
  {
    if (a < 0) == (b < 0) then Abs(a) / Abs(b) else -(Abs(a) / Abs(b))
  }

  function CMod(a: int, b: int): int
    requires b != 0
  {
    if a < 0 then -(Abs(a) % Abs(b)) else Abs(a) % Abs(b)
  }

  predicate ValidBase(base: int) {
    2 <= base <= 36
  }

  /** _PDCLIB_digits, and with `upper` _PDCLIB_Xdigits (which stops at F). */
  function DigitChar(d: nat, upper: bool): char
    requires d < 36
  {
    if d < 10 then '0' + d as char else (if upper then 'A' else 'a') + (d - 10) as char
  }

  function ToLower(c: char): char {
    if 'A' <= c <= 'Z' then c + 32 as char else c
  }

  /** memchr(_PDCLIB_digits, tolower(c), base): the digit a character stands for. */
  function DigitOf(c: char, base: nat): (d: Option<nat>)
    requires base <= 36
    ensures d.Some? ==> d.value < base
  {
    var l := ToLower(c);
    var d := if '0' <= l <= '9' then (l - '0') as nat
             else if 'a' <= l <= 'z' then (l - 'a') as nat + 10
             else 36;
    if d < base then Some(d) else None
  }

  /** A printed digit is read back as itself, in any base that has it. */
  lemma DigitReadBack(d: nat, upper: bool, base: nat)
    requires d < base <= 36
    ensures DigitOf(DigitChar(d, upper), base) == Some(d)
  {
  }

  predicate AllDigits(s: seq<char>, base: nat)
    requires base <= 36
  {
    forall k | 0 <= k < |s| :: DigitOf(s[k], base).Some?
  }

  function Shift(x: nat, base: nat, digit: nat): nat {
    assert x * base >= 0 by {
      if base > 0 {
        TimesBase(x, base);
      }
    }
    x * base + digit
  }

  lemma TimesBase(x: nat, base: nat)
    requires 1 <= base
    ensures x <= x * base
  {
  }

  /** The number a string of digits denotes. */
  function ValueOf(s: seq<char>, base: nat): nat
    requires base <= 36 && AllDigits(s, base)
  {
    if s == [] then 0
    else Shift(ValueOf(s[..|s| - 1], base), base, DigitOf(s[|s| - 1], base).value)
  }

  /** Dropping the last digit. */
  lemma DropDigit(v: nat, base: nat)
    requires 2 <= base
    ensures v / base * base + v % base == v && v % base < base
    ensures v >= base ==> 1 <= v / base < v
    ensures v < base ==> v / base == 0 && v % base == v
  {
    var q, r := v / base, v % base;
    assert v == q * base + r;
    if v >= base {
      assert q != 0;
      TimesBase(q, base - 1);
      assert q * base == q * (base - 1) + q;
    } else {
      SmallQuotient(v, base);
    }
  }

  lemma SmallQuotient(v: nat, base: nat)
    requires v < base
    ensures v / base == 0 && v % base == v
  {
  }

  /** The digits of a number, without leading zeros. */
  function Digits(v: nat, base: nat, upper: bool): (s: seq<char>)
    requires ValidBase(base)
    ensures |s| >= 1
  {
    DropDigit(v, base);
    if v < base then [DigitChar(v, upper)]
    else Digits(v / base, base, upper) + [DigitChar(v % base, upper)]
  }

  function Repeat(c: char, n: nat): (s: seq<char>)
    ensures |s| == n && forall k | 0 <= k < n :: s[k] == c
  {
    seq(n, _ => c)
  }

  // ---- properties ----------------------------------------------------------

  /** Appending a digit. */
  lemma ValueOfSnoc(s: seq<char>, c: char, base: nat)
    requires base <= 36 && AllDigits(s, base) && DigitOf(c, base).Some?
    ensures AllDigits(s + [c], base)
    ensures ValueOf(s + [c], base) == ValueOf(s, base) * base + DigitOf(c, base).value
  {
    assert (s + [c])[..|s|] == s;
  }

  /** Digits denote the number they were made from. */
  lemma {:induction false} DigitsDenote(v: nat, base: nat, upper: bool)
    requires ValidBase(base)
    ensures AllDigits(Digits(v, base, upper), base)
    ensures ValueOf(Digits(v, base, upper), base) == v
    decreases v
  {
    DropDigit(v, base);
    hide DigitOf, DigitChar;
    DigitReadBack(v % base, upper, base);
    if v < base {
      ValueOfSnoc([], DigitChar(v, upper), base);
      assert [] + [DigitChar(v, upper)] == Digits(v, base, upper);
    } else {
      DigitsDenote(v / base, base, upper);
      ValueOfSnoc(Digits(v / base, base, upper), DigitChar(v % base, upper), base);
    }
  }

  /** No leading zero, but for zero itself. */
  lemma {:induction false} DigitsAreCanonical(v: nat, base: nat, upper: bool)
    requires ValidBase(base)
    ensures Digits(v, base, upper)[0] == '0' <==> v == 0
    ensures v == 0 ==> Digits(v, base, upper) == "0"
    decreases v
  {
    DropDigit(v, base);
    if v >= base {
      DigitsAreCanonical(v / base, base, upper);
    }
  }

  /** Leading zeros do not count. */
  lemma {:induction false} LeadingZeros(n: nat, s: seq<char>, base: nat)
    requires 1 <= base <= 36 && AllDigits(s, base)
    ensures AllDigits(Repeat('0', n) + s, base) && ValueOf(Repeat('0', n) + s, base) == ValueOf(s, base)
    decreases |s|, n
  {
    if s == [] {
      if n > 0 {
        LeadingZeros(n - 1, s, base);
        assert (Repeat('0', n) + s)[..n - 1] == Repeat('0', n - 1) + s;
      }
    } else {
      var init := s[..|s| - 1];
      LeadingZeros(n, init, base);
      var t := Repeat('0', n) + s;
      assert t[..|t| - 1] == Repeat('0', n) + init;
    }
  }

  /** More digits, more value. */
  lemma {:induction false} PrefixIsSmaller(s: seq<char>, k: nat, base: nat)
    requires 1 <= base <= 36 && AllDigits(s, base) && k <= |s|
    ensures ValueOf(s[..k], base) <= ValueOf(s, base)
    decreases |s|
  {
    hide DigitOf;
    if k < |s| {
      var init := s[..|s| - 1];
      PrefixIsSmaller(init, k, base);
      assert init[..k] == s[..k];
      TimesBase(ValueOf(init, base), base);
    } else {
      assert s[..k] == s;
    }
  }
}
