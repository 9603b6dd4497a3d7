/** strtol, strtoul and strtoull (cruntime.c:43-82, 202-250, 286-306), following
    section 7.20.1.4 of ISO/IEC 9899:1999. A string is a sequence of characters
    with a NUL behind it. */
module NumberParse {
  import opened Options
  import opened NumberDigits

  const NUL := '\0'

  /** The character at `p`. */
  function At(s: seq<char>, p: nat): char {
    if p < |s| then s[p] else NUL
  }

  predicate IsSpace(c: char) {
    c in {' ', '\U{000C}', '\n', '\r', '\t', '\U{000B}'}
  }

  predicate IsDigitIn(c: char, base: nat)
    requires base <= 36
  {
    DigitOf(c, base).Some?
  }

  // ---- what is to be parsed ------------------------------------------------

  /** The first position from `p` on that is not white space. */
  function SkipSpace(s: seq<char>, p: nat): (q: nat)
    requires p <= |s|
    ensures p <= q <= |s| && !IsSpace(At(s, q)) && forall k | p <= k < q :: IsSpace(s[k])
    decreases |s| - p
  {
    if p < |s| && IsSpace(s[p]) then SkipSpace(s, p + 1) else p
  }

  /** The first position from `p` on that is not a digit. */
  function SkipDigits(s: seq<char>, p: nat, base: nat): (q: nat)
    requires p <= |s| && base <= 36
    ensures p <= q <= |s| && !IsDigitIn(At(s, q), base) && AllDigits(s[p..q], base)
    decreases |s| - p
  {
    if p < |s| && IsDigitIn(s[p], base) then
      var q := SkipDigits(s, p + 1, base);
      assert s[p..q] == [s[p]] + s[p + 1..q];
      q
    else p
  }

  /** Sign, base and start of the digits of a number. */
  datatype Prelude = Prelude(negative: bool, base: int, start: nat)

  /** The prefix of a number after its sign: "0x" of a hexadecimal number counts
      only if a digit follows; base 0 asks the prefix for the base. */
  function BaseAndStart(s: seq<char>, p: nat, base: int): (r: (int, nat))
    requires p <= |s|
    ensures p <= r.1 <= |s|
  {
    if At(s, p) == '0' then
      if base in {0, 16} && At(s, p + 1) in {'x', 'X'} then
        (16, if IsDigitIn(At(s, p + 2), 16) then p + 2 else p)
      else if base == 0 then (8, p + 1)
      else (base, p)
    else (if base == 0 then 10 else base, p)
  }

  function PreludeOf(s: seq<char>, base: int): (r: Prelude)
    ensures r.start <= |s|
  {
    var p := SkipSpace(s, 0);
    var q := if At(s, p) in {'+', '-'} then p + 1 else p;
    var (b, start) := BaseAndStart(s, q, base);
    Prelude(At(s, p) == '-', b, start)
  }

  /** The digits that are converted, and their value. */
  function DigitsAt(s: seq<char>, p: nat, base: int): seq<char>
    requires p <= |s| && ValidBase(base)
  {
    s[p..SkipDigits(s, p, base)]
  }

  function MagnitudeAt(s: seq<char>, p: nat, base: int): nat
    requires p <= |s| && ValidBase(base)
  {
    ValueOf(DigitsAt(s, p, base), base)
  }

  /** The number in the string lies outside a range. */
  predicate OutOfRange(s: seq<char>, base: int, lo: int, hi: int) {
    var pre := PreludeOf(s, base);
    ValidBase(pre.base) &&
    var m: int := MagnitudeAt(s, pre.start, pre.base);
    if pre.negative then -m < lo else m > hi
  }

  /** strtol: the number in the string, clamped to the range of long. */
  function Strtol(s: seq<char>, base: int): (r: int)
    ensures LONG_MIN <= r <= LONG_MAX
  {
    var pre := PreludeOf(s, base);
    if !ValidBase(pre.base) then 0
    else
      var m: int := MagnitudeAt(s, pre.start, pre.base);
      if pre.negative then (if -m < LONG_MIN then LONG_MIN else -m)
      else if m > LONG_MAX then LONG_MAX else m
  }

  /** strtoul and strtoull: a value that fits is negated modulo 2^64 if there was
      a minus sign; one that does not gives the maximum. */
  function Strtoul(s: seq<char>, base: int): (r: int)
    ensures 0 <= r <= ULONG_MAX
  {
    var pre := PreludeOf(s, base);
    if !ValidBase(pre.base) then 0
    else
      var m := MagnitudeAt(s, pre.start, pre.base);
      if m > ULONG_MAX then ULONG_MAX
      else if pre.negative && m > 0 then ULONG_MAX + 1 - m else m
  }

  // ---- the code ------------------------------------------------------------

  /** memchr over the first `n` characters of _PDCLIB_digits. */
  method MemchrDigits(c: char, n: nat) returns (x: Option<nat>)
    requires n <= 36
    ensures x == DigitOf(c, n)
  {
    var l, p := ToLower(c), 0;
    DigitOfIsIndex(c, n);
    while p < n
      invariant 0 <= p <= n
      invariant forall k | 0 <= k < p :: DigitChar(k, false) != l
    {
      if DigitChar(p, false) == l {
        DigitReadBack(p, false, n);
        return Some(p);
      }
      p := p + 1;
    }
    x := None;
  }

  lemma DigitOfIsIndex(c: char, n: nat)
    requires n <= 36
    ensures DigitOf(c, n).Some? ==> DigitChar(DigitOf(c, n).value, false) == ToLower(c)
  {
  }

  /** _PDCLIB_strtox_prelim. */
  method StrtoxPrelim(s: seq<char>, base0: int) returns (sign: char, base: int, p: nat)
    ensures PreludeOf(s, base0) == Prelude(sign == '-', base, p)
    ensures sign in {'+', '-'}
  {
    p, base := 0, base0;
    while IsSpace(At(s, p))
      invariant 0 <= p <= |s| && SkipSpace(s, 0) == SkipSpace(s, p)
      decreases |s| - p
    {
      p := p + 1;
    }
    if At(s, p) != '+' && At(s, p) != '-' {
      sign := '+';
    } else {
      sign, p := At(s, p), p + 1;
    }
    if At(s, p) == '0' {
      p := p + 1;
      if (base == 0 || base == 16) && (At(s, p) == 'x' || At(s, p) == 'X') {
        base := 16;
        p := p + 1;
        var x := MemchrDigits(At(s, p), 16);
        if x == None {
          p := p - 2;
        }
      } else if base == 0 {
        base := 8;
      } else {
        p := p - 1;
      }
    } else if base == 0 {
      base := 10;
    }
  }

  /** What _PDCLIB_strtox_main leaves: the value, the position behind the digits
      (none if there was no digit), whether errno was set to ERANGE, the sign. */
  datatype Converted = Converted(rc: nat, end: Option<nat>, erange: bool, sign: char)

  /** _PDCLIB_strtox_main, exactly: it takes all digits there are; a value up to
      `limval * base + limdigit` comes back as it is, any other as `error` with
      ERANGE and a plus sign. The accumulator never exceeds that limit. */
  method StrtoxMain(s: seq<char>, start: nat, base: nat, error: nat, limval: nat, limdigit: nat, sign: char)
    returns (r: Converted)
    requires start <= |s| && ValidBase(base) && limdigit < base
    ensures var end, m := SkipDigits(s, start, base), MagnitudeAt(s, start, base);
            r == if end == start then Converted(0, None, false, sign)
                 else if m <= limval * base + limdigit then Converted(m, Some(end), false, sign)
                 else Converted(error, Some(end), true, '+')
  {
    hide DigitOf, SkipDigits, MagnitudeAt, DigitsAt, ValueOf, AllDigits;
    ghost var limit := limval * base + limdigit;
    var rc: nat, p: nat := 0, start;
    var any := false;
    NoDigits(s, start, base);
    var x := MemchrDigits(At(s, p), base);
    while x.Some?
      invariant start <= p <= |s| && x == DigitOf(At(s, p), base) && any == (p > start)
      invariant SkipDigits(s, p, base) == SkipDigits(s, start, base)
      invariant AllDigits(s[start..p], base) && rc == ValueOf(s[start..p], base) <= limit
      decreases |s| - p
    {
      var digit := x.value;
      any := true;
      NextDigit(s, start, p, base, limval, limdigit);
      if rc < limval || (rc == limval && digit <= limdigit) {
        rc := rc * base + digit;
        p := p + 1;
      } else {
        SaturatedPrefix(s, start, p + 1, base);
        p := SkipRest(s, p, base);
        return Converted(error, Some(p), true, '+');
      }
      x := MemchrDigits(At(s, p), base);
    }
    AllTaken(s, start, p, base);
    if !any {
      return Converted(0, None, false, sign);
    }
    return Converted(rc, Some(p), false, sign);
  }

  lemma NoDigits(s: seq<char>, start: nat, base: nat)
    requires start <= |s| && base <= 36
    ensures AllDigits(s[start..start], base) && ValueOf(s[start..start], base) == 0
  {
  }

  lemma AllTaken(s: seq<char>, start: nat, p: nat, base: nat)
    requires start <= p <= |s| && ValidBase(base) && DigitOf(At(s, p), base).None?
    requires SkipDigits(s, p, base) == SkipDigits(s, start, base)
    ensures SkipDigits(s, start, base) == p && AllDigits(s[start..p], base)
    ensures MagnitudeAt(s, start, base) == ValueOf(s[start..p], base)
  {
  }

  /** The loop that passes over the digits after an overflow. */
  method SkipRest(s: seq<char>, start: nat, base: nat) returns (p: nat)
    requires start <= |s| && ValidBase(base)
    ensures p == SkipDigits(s, start, base)
  {
    hide DigitOf;
    p := start;
    var x := MemchrDigits(At(s, p), base);
    while x.Some?
      invariant start <= p <= |s| && x == DigitOf(At(s, p), base)
      invariant SkipDigits(s, p, base) == SkipDigits(s, start, base)
      decreases |s| - p
    {
      p := p + 1;
      x := MemchrDigits(At(s, p), base);
    }
  }

  /** NUL is no digit, so a digit lies within the string. */
  lemma DigitsAreInside(s: seq<char>, p: nat, base: nat)
    requires base <= 36 && DigitOf(At(s, p), base).Some?
    ensures p < |s|
  {
  }

  /** The step of the loop: the value of the digits with one more, and that the
      test made on it is exact. */
  lemma NextDigit(s: seq<char>, start: nat, p: nat, base: nat, limval: nat, limdigit: nat)
    requires start <= p <= |s| && ValidBase(base) && DigitOf(At(s, p), base).Some? && AllDigits(s[start..p], base)
    requires limdigit < base
    ensures p < |s| && AllDigits(s[start..p + 1], base)
    ensures var rc, digit := ValueOf(s[start..p], base), DigitOf(s[p], base).value;
            && ValueOf(s[start..p + 1], base) == rc * base + digit
            && (rc * base + digit <= limval * base + limdigit <==> rc < limval || (rc == limval && digit <= limdigit))
    ensures p + 1 <= SkipDigits(s, p, base) == SkipDigits(s, p + 1, base)
  {
    DigitsAreInside(s, p, base);
    Accumulate(s, start, p, base);
    Saturation(ValueOf(s[start..p], base), DigitOf(s[p], base).value, base, limval, limdigit);
  }

  /** The comparison against the quotient and remainder of the limit is exact. */
  lemma Saturation(rc: nat, digit: nat, base: nat, limval: nat, limdigit: nat)
    requires digit < base && limdigit < base
    ensures rc * base + digit <= limval * base + limdigit <==> rc < limval || (rc == limval && digit <= limdigit)
  {
    if rc < limval {
      assert (rc + 1) * base <= limval * base;
    } else if rc > limval {
      assert (limval + 1) * base <= rc * base;
    }
  }

  /** One more digit. */
  lemma Accumulate(s: seq<char>, start: nat, p: nat, base: nat)
    requires start <= p < |s| && base <= 36 && AllDigits(s[start..p], base) && IsDigitIn(s[p], base)
    ensures AllDigits(s[start..p + 1], base)
    ensures ValueOf(s[start..p + 1], base) == ValueOf(s[start..p], base) * base + DigitOf(s[p], base).value
  {
    assert s[start..p + 1] == s[start..p] + [s[p]];
    ValueOfSnoc(s[start..p], s[p], base);
  }

  /** Once the value of the first digits is too large, that of all of them is. */
  lemma SaturatedPrefix(s: seq<char>, start: nat, p: nat, base: nat)
    requires start <= p <= |s| && ValidBase(base) && SkipDigits(s, start, base) >= p
    ensures AllDigits(s[start..p], base) && ValueOf(s[start..p], base) <= MagnitudeAt(s, start, base)
  {
    var run := DigitsAt(s, start, base);
    PrefixIsSmaller(run, p - start, base);
    assert run[..p - start] == s[start..p];
  }

  // ---- the entry points ----------------------------------------------------

  /** The cast to long, and negation in two's complement. */
  function ToLong(u: int): int
    requires 0 <= u <= ULONG_MAX
  {
    if u > LONG_MAX then u - (ULONG_MAX + 1) else u
  }

  function NegLong(x: int): int {
    if x == LONG_MIN then LONG_MIN else -x
  }

  function NegULong(x: int): int {
    if x == 0 then 0 else ULONG_MAX + 1 - x
  }

  /** Where the end pointer goes: behind the digits, or to the start of the
      string if nothing could be converted. */
  function EndOf(s: seq<char>, base: int): nat {
    var pre := PreludeOf(s, base);
    if !ValidBase(pre.base) then 0
    else
      var end := SkipDigits(s, pre.start, pre.base);
      if end == pre.start then 0 else end
  }

  /** Where the number starts: behind white space and a sign. */
  function AfterSign(s: seq<char>): (q: nat)
    ensures q <= |s|
  {
    var p := SkipSpace(s, 0);
    if At(s, p) in {'+', '-'} then p + 1 else p
  }

  /** A hexadecimal prefix with a digit behind it. */
  predicate HexAt(s: seq<char>, q: nat, base: int) {
    At(s, q) == '0' && base in {0, 16} && At(s, q + 1) in {'x', 'X'} && IsDigitIn(At(s, q + 2), 16)
  }

  /** Where section 7.20.1.4 puts the end pointer: behind the longest number in the
      string; a "0" that makes the base 8 is a digit of it. */
  function StandardEnd(s: seq<char>, base: int): nat {
    var q := AfterSign(s);
    var b := if base != 0 then base else if HexAt(s, q, base) then 16 else if At(s, q) == '0' then 8 else 10;
    if !ValidBase(b) then 0
    else
      var start := if HexAt(s, q, base) then q + 2 else q;
      var end := SkipDigits(s, start, b);
      if end == start then 0 else end
  }

  /** Base 0, and a "0" with neither an octal digit nor an 'x' behind it. */
  predicate LoneZero(s: seq<char>, base: int) {
    var q := AfterSign(s);
    base == 0 && At(s, q) == '0' && At(s, q + 1) !in {'x', 'X'} && !IsDigitIn(At(s, q + 1), 8)
  }

  /** The end pointer is where the standard puts it if and only if the number is not
      a lone "0" in base 0. */
  lemma EndIsStandard(s: seq<char>, base: int)
    requires ValidBase(PreludeOf(s, base).base)
    ensures EndOf(s, base) == StandardEnd(s, base) <==> !LoneZero(s, base)
  {
    var q := AfterSign(s);
    if At(s, q) == '0' {
      ZeroIsDigit(s, q, PreludeOf(s, base).base);
      ZeroIsDigit(s, q, 8);
      if At(s, q + 1) in {'x', 'X'} {
        XEndsDigits(s, q + 1, 16);
        XEndsDigits(s, q + 1, 8);
      }
    }
  }

  lemma ZeroIsDigit(s: seq<char>, q: nat, base: nat)
    requires ValidBase(base) && At(s, q) == '0'
    ensures q < |s| && IsDigitIn(s[q], base) && SkipDigits(s, q, base) == SkipDigits(s, q + 1, base)
  {
  }

  lemma XEndsDigits(s: seq<char>, q: nat, base: nat)
    requires base <= 16 && q <= |s| && At(s, q) in {'x', 'X'}
    ensures SkipDigits(s, q, base) == q
  {
  }

  /** ... as in this one. */
  lemma LoneZeroInput()
    ensures LoneZero("0", 0) && EndOf("0", 0) == 0 && StandardEnd("0", 0) == 1
  {
    assert !IsDigitIn(NUL, 8) && !IsDigitIn(NUL, 10);
    ZeroIsDigit("0", 0, 8);
  }

  /** A limit, split into what strtox_main is given, is that limit. */
  lemma LimitParts(base: int)
    requires ValidBase(base)
    ensures CDiv(LONG_MAX, base) >= 0 && 0 <= CMod(LONG_MAX, base) < base
    ensures CDiv(LONG_MAX, base) * base + CMod(LONG_MAX, base) == LONG_MAX
    ensures CDiv(LONG_MIN, -base) >= 0 && 0 <= -CMod(LONG_MIN, base) < base
    ensures CDiv(LONG_MIN, -base) * base + -CMod(LONG_MIN, base) == -LONG_MIN
  {
    DropDigit(LONG_MAX, base);
    DropDigit(-LONG_MIN, base);
  }

  lemma UnsignedLimitParts(base: int)
    requires ValidBase(base)
    ensures CDiv(ULONG_MAX, base) >= 0 && 0 <= CMod(ULONG_MAX, base) < base
    ensures CDiv(ULONG_MAX, base) * base + CMod(ULONG_MAX, base) == ULONG_MAX
  {
    DropDigit(ULONG_MAX, base);
  }

  lemma NoDigitsNoValue(s: seq<char>, p: nat, base: int)
    requires p <= |s| && ValidBase(base) && SkipDigits(s, p, base) == p
    ensures MagnitudeAt(s, p, base) == 0
  {
  }

  /** What strtox_main returns, with the digits named. */
  ghost predicate Converts(c: Converted, s: seq<char>, p: nat, base: int, limit: nat, error: nat, sign: char)
    requires p <= |s| && ValidBase(base)
  {
    var end, m := SkipDigits(s, p, base), MagnitudeAt(s, p, base);
    && c.end == (if end == p then None else Some(end))
    && (if m <= limit then c.rc == m && c.sign == sign else c.rc == error && c.sign == '+')
    && c.erange == (m > limit)
  }

  /** strtox_main with a limit in two parts. */
  method ConvertUpTo(s: seq<char>, p: nat, base: nat, error: nat, limval: int, limdigit: int, ghost limit: nat,
                     sign: char)
    returns (c: Converted)
    requires p <= |s| && ValidBase(base) && limval >= 0 && 0 <= limdigit < base && limval * base + limdigit == limit
    ensures Converts(c, s, p, base, limit, error, sign)
  {
    c := StrtoxMain(s, p, base, error, limval, limdigit, sign);
    hide SkipDigits, MagnitudeAt;
    if SkipDigits(s, p, base) == p {
      NoDigitsNoValue(s, p, base);
    }
  }

  /** strtol. The end pointer is left alone (`end` is None) for a bad base. */
  method StrtolC(s: seq<char>, base0: int) returns (r: int, end: Option<nat>, erange: bool)
    ensures r == Strtol(s, base0)
    ensures ValidBase(PreludeOf(s, base0).base) ==> end == Some(EndOf(s, base0))
    ensures erange <==> OutOfRange(s, base0, LONG_MIN, LONG_MAX)
  {
    hide SkipDigits, MagnitudeAt, PreludeOf, CDiv, CMod;
    var sign, base, p := StrtoxPrelim(s, base0);
    if base < 2 || base > 36 { return 0, None, false; }
    var c: Converted;
    LimitParts(base);
    if sign == '+' {
      c := ConvertUpTo(s, p, base, LONG_MAX, CDiv(LONG_MAX, base), CMod(LONG_MAX, base), LONG_MAX, sign);
    } else {
      c := ConvertUpTo(s, p, base, LONG_MIN + (ULONG_MAX + 1), CDiv(LONG_MIN, -base), -CMod(LONG_MIN, base),
                       -LONG_MIN, sign);
    }
    var rc := ToLong(c.rc);
    end := Some(if c.end.Some? then c.end.value else 0);
    r := if c.sign == '+' then rc else NegLong(rc);
    erange := c.erange;
  }

  /** strtoul; strtoull is the same code on a type of the same width. */
  method StrtoulC(s: seq<char>, base0: int) returns (r: int, end: Option<nat>, erange: bool)
    ensures r == Strtoul(s, base0)
    ensures ValidBase(PreludeOf(s, base0).base) ==> end == Some(EndOf(s, base0))
    ensures erange <==> OutOfRange(s, base0, -ULONG_MAX, ULONG_MAX)
  {
    hide SkipDigits, MagnitudeAt, PreludeOf, CDiv, CMod;
    var sign, base, p := StrtoxPrelim(s, base0);
    if base < 2 || base > 36 { return 0, None, false; }
    UnsignedLimitParts(base);
    var c := ConvertUpTo(s, p, base, ULONG_MAX, CDiv(ULONG_MAX, base), CMod(ULONG_MAX, base), ULONG_MAX, sign);
    end := Some(if c.end.Some? then c.end.value else 0);
    r := if c.sign == '+' then c.rc else NegULong(c.rc);
    erange := c.erange;
  }
}
