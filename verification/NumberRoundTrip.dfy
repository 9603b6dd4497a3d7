/** What print.c prints, cruntime.c reads back: strtol after "%ld", strtoul after
    "%lu", "%lo", "%lx" and "%lX", with any flags, width and precision. */
module NumberRoundTrip {
  import opened NumberDigits
  import opened NumberParse
  import opened NumberPrint

  // ---- a number in its layout ----------------------------------------------

  /** Spaces, a sign or none, "0x" or none, digits, spaces. */
  function Layout(k: nat, sign: seq<char>, prefix: seq<char>, digits: seq<char>, m: nat): seq<char> {
    Repeat(' ', k) + (sign + prefix + digits + Repeat(' ', m))
  }

  predicate ValidLayout(sign: seq<char>, prefix: seq<char>, digits: seq<char>, base: nat) {
    && 2 <= base <= 16
    && (sign == [] || sign == "+" || sign == "-")
    && (prefix == [] || (base == 16 && (prefix == "0x" || prefix == "0X")))
    && digits != [] && AllDigits(digits, base)
  }

  lemma {:induction false} SkipsSpaces(s: seq<char>, p: nat, k: nat)
    requires p <= k <= |s| && (forall j | p <= j < k :: s[j] == ' ') && !IsSpace(At(s, k))
    ensures SkipSpace(s, p) == k
    decreases k - p
  {
    if p < k {
      SkipsSpaces(s, p + 1, k);
    }
  }

  lemma {:induction false} SkipsDigits(s: seq<char>, p: nat, q: nat, base: nat)
    requires p <= q <= |s| && base <= 36
    requires (forall j | p <= j < q :: IsDigitIn(s[j], base)) && !IsDigitIn(At(s, q), base)
    ensures SkipDigits(s, p, base) == q
    decreases q - p
  {
    if p < q {
      SkipsDigits(s, p + 1, q, base);
    }
  }

  /** A digit is no space and no sign, and up to base 16 no 'x'. */
  lemma DigitIsPlain(c: char, base: nat)
    requires base <= 16 && IsDigitIn(c, base)
    ensures !IsSpace(c) && c !in {'+', '-', 'x', 'X'}
  {
  }

  lemma BlankIsNoDigit(base: nat)
    requires base <= 36
    ensures !IsDigitIn(' ', base) && !IsDigitIn(NUL, base)
  {
  }

  /** The pieces of a layout, by position. */
  lemma LayoutAt(k: nat, sign: seq<char>, prefix: seq<char>, digits: seq<char>, m: nat)
    ensures var s, a, b := Layout(k, sign, prefix, digits, m), k + |sign|, k + |sign| + |prefix|;
            && |s| == b + |digits| + m
            && (forall j | 0 <= j < k :: s[j] == ' ')
            && s[k..a] == sign && s[a..b] == prefix && s[b..b + |digits|] == digits
            && (forall j | b + |digits| <= j < |s| :: s[j] == ' ')
  {
    var s, rest := Layout(k, sign, prefix, digits, m), sign + prefix + digits + Repeat(' ', m);
    assert forall j | k <= j < |s| :: s[j] == rest[j - k];
  }

  /** The first character behind the spaces. */
  lemma LayoutFirst(k: nat, sign: seq<char>, prefix: seq<char>, digits: seq<char>, m: nat, base: nat)
    requires ValidLayout(sign, prefix, digits, base)
    ensures var s := Layout(k, sign, prefix, digits, m);
            && k < |s| && !IsSpace(s[k]) && (forall j | 0 <= j < k :: s[j] == ' ')
            && (if sign == [] then s[k] !in {'+', '-'} else [s[k]] == sign)
  {
    var s := Layout(k, sign, prefix, digits, m);
    LayoutAt(k, sign, prefix, digits, m);
    DigitIsPlain(digits[0], base);
    if sign != [] {
      assert s[k] == s[k..k + |sign|][0];
    } else if prefix != [] {
      assert s[k] == s[k..k + |prefix|][0];
    } else {
      assert s[k] == s[k..k + |digits|][0];
    }
  }

  lemma LayoutBase(k: nat, sign: seq<char>, prefix: seq<char>, digits: seq<char>, m: nat, base: nat)
    requires ValidLayout(sign, prefix, digits, base)
    ensures var a := k + |sign|;
            a <= |Layout(k, sign, prefix, digits, m)|
            && BaseAndStart(Layout(k, sign, prefix, digits, m), a, base) == (base as int, a + |prefix|)
  {
    var s, a := Layout(k, sign, prefix, digits, m), k + |sign|;
    LayoutAt(k, sign, prefix, digits, m);
    if prefix != [] {
      assert s[a] == s[a..a + 2][0] && s[a + 1] == s[a..a + 2][1] && s[a + 2] == s[a + 2..a + 2 + |digits|][0];
    } else {
      assert s[a] == s[a..a + |digits|][0];
      if |digits| > 1 {
        assert s[a + 1] == s[a..a + |digits|][1];
        DigitIsPlain(digits[1], base);
      }
    }
  }

  lemma LayoutDigits(k: nat, sign: seq<char>, prefix: seq<char>, digits: seq<char>, m: nat, base: nat)
    requires ValidLayout(sign, prefix, digits, base)
    ensures var b := k + |sign| + |prefix|;
            b <= |Layout(k, sign, prefix, digits, m)| && DigitsAt(Layout(k, sign, prefix, digits, m), b, base) == digits
  {
    hide DigitOf, Layout;
    var s, b := Layout(k, sign, prefix, digits, m), k + |sign| + |prefix|;
    LayoutAt(k, sign, prefix, digits, m);
    assert forall j | b <= j < b + |digits| :: s[j] == s[b..b + |digits|][j - b];
    BlankIsNoDigit(base);
    SkipsDigits(s, b, b + |digits|, base);
  }

  /** The parsers find the sign, the base and exactly the digits of a layout. */
  lemma ReadsLayout(k: nat, sign: seq<char>, prefix: seq<char>, digits: seq<char>, m: nat, base: nat)
    requires ValidLayout(sign, prefix, digits, base)
    ensures var s, b := Layout(k, sign, prefix, digits, m), k + |sign| + |prefix|;
            && PreludeOf(s, base) == Prelude(sign == "-", base, b)
            && MagnitudeAt(s, b, base) == ValueOf(digits, base)
  {
    hide SkipSpace, BaseAndStart, SkipDigits, Layout;
    LayoutFirst(k, sign, prefix, digits, m, base);
    SkipsSpaces(Layout(k, sign, prefix, digits, m), 0, k);
    LayoutBase(k, sign, prefix, digits, m, base);
    LayoutDigits(k, sign, prefix, digits, m, base);
  }

  // ---- printed numbers -----------------------------------------------------

  /** Zeros in front of the digits of a number: still digits, of the same value. */
  lemma PaddedDigits(v: nat, base: nat, upper: bool, zeros: nat)
    requires ValidBase(base)
    ensures var ds := Repeat('0', zeros) + Digits(v, base, upper);
            ds != [] && AllDigits(ds, base) && ValueOf(ds, base) == v
  {
    DigitsDenote(v, base, upper);
    LeadingZeros(zeros, Digits(v, base, upper), base);
  }

  function Zeros(sp: Spec, negative: bool, n: nat): nat {
    ZeroPad(sp, negative, n) + PrecPad(sp, n)
  }

  /** Regrouping the pieces of a text. */
  lemma TextIsLayout(left: nat, blank: nat, sign: seq<char>, prefix: seq<char>, octal: nat, zeros: nat, prec: nat,
                     digits: seq<char>, right: nat)
    ensures Repeat(' ', left) + (Repeat(' ', blank) + sign + prefix + Repeat('0', octal))
            + Repeat('0', zeros) + Repeat('0', prec) + digits + Repeat(' ', right)
         == Layout(left + blank, sign, prefix, Repeat('0', octal + zeros + prec) + digits, right)
  {
    assert Repeat(' ', left) + Repeat(' ', blank) == Repeat(' ', left + blank);
    assert Repeat('0', octal) + Repeat('0', zeros) + Repeat('0', prec) == Repeat('0', octal + zeros + prec);
    hide Repeat;
    var l, z, d, r := Repeat(' ', left + blank), Repeat('0', octal + zeros + prec), digits, Repeat(' ', right);
    var o := Repeat('0', octal);
    assert Repeat(' ', left) + (Repeat(' ', blank) + sign + prefix + o) == l + sign + prefix + o;
    assert l + sign + prefix + o + Repeat('0', zeros) + Repeat('0', prec) == l + sign + prefix + z;
    assert l + sign + prefix + z + d + r == l + (sign + prefix + (z + d) + r);
  }

  /** The text of a conversion is a layout, once its preface is taken apart: a
      blank, a sign, "0x", or the zero of "%#o", which is one more digit. */
  lemma TextAsLayout(sp: Spec, v: int, blank: nat, sign: seq<char>, prefix: seq<char>, octal: nat)
    requires ValidSpec(sp) && Preface(sp, v < 0) == Repeat(' ', blank) + sign + prefix + Repeat('0', octal)
    ensures var n := |DigitsOf(sp, v)|;
            Text(sp, v) == Layout(LeftPad(sp, v < 0, n) + blank, sign, prefix,
                                  Repeat('0', octal + Zeros(sp, v < 0, n)) + DigitsOf(sp, v), RightPad(sp, v < 0, n))
  {
    hide Preface, Repeat, Digits, LeftPad, ZeroPad, PrecPad, RightPad, Layout;
    var n := |DigitsOf(sp, v)|;
    TextIsLayout(LeftPad(sp, v < 0, n), blank, sign, prefix, octal, ZeroPad(sp, v < 0, n), PrecPad(sp, n),
                 DigitsOf(sp, v), RightPad(sp, v < 0, n));
  }

  /** The parsers see sign, base and magnitude of a printed number. */
  lemma ReadsText(sp: Spec, v: int, blank: nat, sign: seq<char>, prefix: seq<char>, octal: nat)
    requires ValidSpec(sp) && Preface(sp, v < 0) == Repeat(' ', blank) + sign + prefix + Repeat('0', octal)
    requires sign == [] || sign == "+" || sign == "-"
    requires prefix == [] || (sp.base == 16 && (prefix == "0x" || prefix == "0X"))
    ensures var pre := PreludeOf(Text(sp, v), sp.base);
            && pre.negative == (sign == "-") && pre.base == sp.base
            && MagnitudeAt(Text(sp, v), pre.start, sp.base) == Abs(v)
  {
    hide Preface, Repeat, Digits, LeftPad, RightPad, Layout, PreludeOf, MagnitudeAt, Text, Zeros, ValueOf, AllDigits;
    var n := |DigitsOf(sp, v)|;
    var zeros := octal + Zeros(sp, v < 0, n);
    TextAsLayout(sp, v, blank, sign, prefix, octal);
    PaddedDigits(Abs(v), sp.base, !sp.lower, zeros);
    ReadsLayout(LeftPad(sp, v < 0, n) + blank, sign, prefix, Repeat('0', zeros) + DigitsOf(sp, v),
                RightPad(sp, v < 0, n), sp.base);
  }

  /** A signed preface: a sign, or with the space flag one more space. */
  lemma SignedPreface(sp: Spec, negative: bool, blank: nat, sign: seq<char>)
    requires !sp.unsigned && sp.base == 10
    requires blank == if !negative && !sp.plus && sp.space then 1 else 0
    requires sign == if negative then "-" else if sp.plus then "+" else []
    ensures Preface(sp, negative) == Repeat(' ', blank) + sign + [] + Repeat('0', 0)
  {
    assert Repeat(' ', 1) == " " && Repeat(' ', 0) == [] && Repeat('0', 0) == [];
  }

  /** strtol reads back what "%ld" prints, for every long, LONG_MIN included, and
      whatever the flags, the width and the precision. */
  lemma StrtolReadsBack(sp: Spec, v: int)
    requires ValidSpec(sp) && !sp.unsigned && LONG_MIN <= v <= LONG_MAX
    ensures Strtol(Text(sp, v), 10) == v
  {
    hide Preface, Repeat, PreludeOf, MagnitudeAt, Text;
    var blank := if v >= 0 && !sp.plus && sp.space then 1 else 0;
    var sign := if v < 0 then "-" else if sp.plus then "+" else [];
    SignedPreface(sp, v < 0, blank, sign);
    ReadsText(sp, v, blank, sign, [], 0);
  }

  /** An unsigned preface: "0x" or "0X", the zero of "%#o", or nothing. */
  lemma UnsignedPreface(sp: Spec, prefix: seq<char>, octal: nat)
    requires sp.unsigned
    requires prefix == if sp.alt && sp.base == 16 then (if sp.lower then "0x" else "0X") else []
    requires octal == if sp.alt && sp.base == 8 then 1 else 0
    ensures Preface(sp, false) == Repeat(' ', 0) + [] + prefix + Repeat('0', octal)
  {
    assert Repeat(' ', 0) == [] && Repeat('0', 0) == [] && Repeat('0', 1) == "0";
  }

  /** strtoul reads back what "%lu", "%lo", "%lx" and "%lX" print for every unsigned
      long, in the base of the conversion, with or without the "#" flag. */
  lemma StrtoulReadsBack(sp: Spec, v: nat)
    requires ValidSpec(sp) && sp.unsigned && v <= ULONG_MAX
    ensures Strtoul(Text(sp, v), sp.base) == v
  {
    hide Preface, Repeat, PreludeOf, MagnitudeAt, Text;
    var prefix := if sp.alt && sp.base == 16 then (if sp.lower then "0x" else "0X") else [];
    var octal := if sp.alt && sp.base == 8 then 1 else 0;
    UnsignedPreface(sp, prefix, octal);
    ReadsText(sp, v, 0, [], prefix, octal);
  }

  // ---- what else the parsers promise ---------------------------------------

  /** White space in front of a number does not matter, whichever of the six characters
      of section 7.4.1.10 it is. */
  lemma WhiteSpaceIsSkipped(space: seq<char>, s: seq<char>, base: int)
    requires forall k | 0 <= k < |space| :: space[k] in {' ', '\t', '\n', '\r', '\U{000B}', '\U{000C}'}
    ensures Strtol(space + s, base) == Strtol(s, base) && Strtoul(space + s, base) == Strtoul(s, base)
  {
    SixAreSpace(space);
    hide *;
    PreludeShifts(space, s, base);
    var pre := PreludeOf(s, base);
    if ValidBase(pre.base) {
      MagnitudeShifts(space, s, pre.start, pre.base);
    }
    SameNumber(s, space + s, base, |space| + pre.start);
  }

  lemma SixAreSpace(space: seq<char>)
    requires forall k | 0 <= k < |space| :: space[k] in {' ', '\t', '\n', '\r', '\U{000B}', '\U{000C}'}
    ensures forall k | 0 <= k < |space| :: IsSpace(space[k])
  {
  }

  /** Sign, base and magnitude are all that counts. */
  lemma SameNumber(s: seq<char>, t: seq<char>, base: int, start: nat)
    requires PreludeOf(t, base) == PreludeOf(s, base).(start := start) && start <= |t|
    requires ValidBase(PreludeOf(s, base).base) ==>
               MagnitudeAt(t, start, PreludeOf(s, base).base)
                 == MagnitudeAt(s, PreludeOf(s, base).start, PreludeOf(s, base).base)
    ensures Strtol(t, base) == Strtol(s, base) && Strtoul(t, base) == Strtoul(s, base)
  {
    hide PreludeOf, MagnitudeAt;
  }

  lemma MagnitudeShifts(space: seq<char>, s: seq<char>, p: nat, base: int)
    requires p <= |s| && ValidBase(base)
    ensures MagnitudeAt(space + s, |space| + p, base) == MagnitudeAt(s, p, base)
  {
    hide SkipDigits, ValueOf, AllDigits;
    DigitsShift(space, s, p, base);
    assert DigitsAt(space + s, |space| + p, base) == DigitsAt(s, p, base);
  }

  /** The characters behind a prefix. */
  lemma AtShifts(space: seq<char>, s: seq<char>, k: nat)
    ensures At(space + s, |space| + k) == At(s, k)
  {
  }

  lemma {:induction false} SpaceShifts(space: seq<char>, s: seq<char>, p: nat)
    requires p <= |space| && forall k | 0 <= k < |space| :: IsSpace(space[k])
    ensures SkipSpace(space + s, p) == |space| + SkipSpace(s, 0)
    decreases |space| - p
  {
    if p < |space| {
      SpaceShifts(space, s, p + 1);
    } else {
      SpaceBehind(space, s, 0);
    }
  }

  lemma {:induction false} SpaceBehind(space: seq<char>, s: seq<char>, p: nat)
    requires p <= |s|
    ensures SkipSpace(space + s, |space| + p) == |space| + SkipSpace(s, p)
    decreases |s| - p
  {
    if p < |s| && IsSpace(s[p]) {
      SpaceBehind(space, s, p + 1);
    }
  }

  lemma {:induction false} DigitsShift(space: seq<char>, s: seq<char>, p: nat, base: nat)
    requires p <= |s| && base <= 36
    ensures SkipDigits(space + s, |space| + p, base) == |space| + SkipDigits(s, p, base)
    ensures (space + s)[|space| + p..|space| + SkipDigits(s, p, base)] == s[p..SkipDigits(s, p, base)]
    decreases |s| - p
  {
    if p < |s| && IsDigitIn(s[p], base) {
      DigitsShift(space, s, p + 1, base);
    }
  }

  lemma PreludeShifts(space: seq<char>, s: seq<char>, base: int)
    requires forall k | 0 <= k < |space| :: IsSpace(space[k])
    ensures var pre := PreludeOf(s, base);
            PreludeOf(space + s, base) == Prelude(pre.negative, pre.base, |space| + pre.start)
  {
    SpaceShifts(space, s, 0);
    var p := SkipSpace(s, 0);
    var q := if At(s, p) in {'+', '-'} then p + 1 else p;
    AtShifts(space, s, p);
    AtShifts(space, s, q);
    AtShifts(space, s, q + 1);
    AtShifts(space, s, q + 2);
    hide DigitOf, SkipSpace, At;
  }

  /** A number behind a minus sign, as strtoul reads it: modulo 2^64 it is what adds up to
      0 with that number. */
  lemma StrtoulNegates(v: nat, base: nat, upper: bool)
    requires 2 <= base <= 16 && v <= ULONG_MAX
    ensures var r := Strtoul("-" + Digits(v, base, upper), base);
            if v == 0 then r == 0 else r + v == ULONG_MAX + 1
  {
    hide PreludeOf, MagnitudeAt, ValueOf, AllDigits, Digits, DigitOf;
    DigitsDenote(v, base, upper);
    var digits := Digits(v, base, upper);
    ReadsLayout(0, "-", [], digits, 0, base);
    assert Repeat(' ', 0) == [] && Layout(0, "-", [], digits, 0) == "-" + digits;
  }

  /** What the four conversions make of a number of any size, with a minus sign and without:
      the nearest that the type holds, except that strtoul knows no negative ones. */
  lemma OutOfRangeIsClamped(v: nat, base: nat, upper: bool)
    requires 2 <= base <= 16
    ensures var digits := Digits(v, base, upper);
            && Strtol(digits, base) == (if v > LONG_MAX then LONG_MAX else v)
            && Strtol("-" + digits, base) == (if 0 - v < LONG_MIN then LONG_MIN else 0 - v)
            && Strtoul(digits, base) == (if v > ULONG_MAX then ULONG_MAX else v)
            && (v > ULONG_MAX ==> Strtoul("-" + digits, base) == ULONG_MAX)
  {
    hide PreludeOf, MagnitudeAt, ValueOf, AllDigits, Digits, DigitOf;
    DigitsDenote(v, base, upper);
    var digits := Digits(v, base, upper);
    ReadsLayout(0, "", [], digits, 0, base);
    ReadsLayout(0, "-", [], digits, 0, base);
    assert Repeat(' ', 0) == [] && Layout(0, "", [], digits, 0) == digits;
    assert Layout(0, "-", [], digits, 0) == "-" + digits;
  }

  /** Digits up to the end of the string. */
  lemma DigitsToEnd(s: seq<char>, start: nat, v: nat, base: nat, upper: bool)
    requires start <= |s| && 2 <= base <= 16 && s[start..] == Digits(v, base, upper)
    ensures MagnitudeAt(s, start, base) == v
  {
    hide DigitOf, Digits, ValueOf;
    var digits := Digits(v, base, upper);
    DigitsDenote(v, base, upper);
    BlankIsNoDigit(base);
    assert forall j | start <= j < |s| :: s[j] == digits[j - start];
    SkipsDigits(s, start, |s|, base);
    assert s[start..|s|] == digits;
  }

  lemma HexPrelude(s: seq<char>)
    requires |s| >= 3 && s[0] == '0' && s[1] in {'x', 'X'} && IsDigitIn(s[2], 16)
    ensures PreludeOf(s, 0) == Prelude(false, 16, 2)
  {
    hide DigitOf;
    SkipsSpaces(s, 0, 0);
  }

  lemma OctalPrelude(s: seq<char>)
    requires |s| >= 2 && s[0] == '0' && s[1] !in {'x', 'X'}
    ensures PreludeOf(s, 0) == Prelude(false, 8, 1)
  {
    hide DigitOf;
    SkipsSpaces(s, 0, 0);
  }

  lemma DecimalPrelude(s: seq<char>)
    requires |s| >= 1 && s[0] !in {'0', '+', '-'} && !IsSpace(s[0])
    ensures PreludeOf(s, 0) == Prelude(false, 10, 0)
  {
    hide DigitOf;
    SkipsSpaces(s, 0, 0);
  }

  lemma FirstIsDigit(v: nat, base: nat, upper: bool)
    requires 2 <= base <= 16
    ensures var c := Digits(v, base, upper)[0];
            IsDigitIn(c, base) && !IsSpace(c) && c !in {'+', '-', 'x', 'X'} && (v != 0 ==> c != '0')
  {
    DigitsDenote(v, base, upper);
    DigitsAreCanonical(v, base, upper);
    DigitIsPlain(Digits(v, base, upper)[0], base);
    hide DigitOf, Digits, ValueOf;
  }

  /** In base 0 the prefix tells the base: what "%#x" and "%#X" print is read back, ... */
  lemma BaseZeroReadsHex(v: nat, upper: bool)
    requires v <= ULONG_MAX
    ensures Strtoul((if upper then "0X" else "0x") + Digits(v, 16, upper), 0) == v
  {
    hide DigitOf, MagnitudeAt, Digits, AllDigits, PreludeOf;
    var digits := Digits(v, 16, upper);
    var s := (if upper then "0X" else "0x") + digits;
    FirstIsDigit(v, 16, upper);
    assert s[0] == '0' && s[1] in {'x', 'X'} && s[2] == digits[0] && s[2..] == digits;
    HexPrelude(s);
    DigitsToEnd(s, 2, v, 16, upper);
  }

  /** ... what "%#o" prints, ... */
  lemma BaseZeroReadsOctal(v: nat)
    requires v <= ULONG_MAX
    ensures Strtoul("0" + Digits(v, 8, false), 0) == v
  {
    hide DigitOf, MagnitudeAt, Digits, AllDigits, PreludeOf;
    var digits := Digits(v, 8, false);
    var s := "0" + digits;
    FirstIsDigit(v, 8, false);
    assert s[0] == '0' && s[1] == digits[0] && s[1..] == digits;
    OctalPrelude(s);
    DigitsToEnd(s, 1, v, 8, false);
  }

  /** ... and without a prefix, decimal numbers. */
  lemma BaseZeroReadsDecimal(v: nat)
    requires 1 <= v <= ULONG_MAX
    ensures Strtoul(Digits(v, 10, false), 0) == v
  {
    hide DigitOf, MagnitudeAt, Digits, AllDigits, PreludeOf;
    var s := Digits(v, 10, false);
    FirstIsDigit(v, 10, false);
    assert s[0..] == s;
    DecimalPrelude(s);
    DigitsToEnd(s, 0, v, 10, false);
  }

  // ---- the code, end to end ------------------------------------------------

  /** Prints a long into a buffer with room for it and parses the buffer. */
  method PrintAndParse(sp: Spec, v: int) returns (r: int)
    requires ValidSpec(sp) && !sp.unsigned && LONG_MIN <= v <= LONG_MAX
    ensures r == v
  {
    hide Text;
    var buffer := new char[|Text(sp, v)| + 1](_ => NUL);
    var status := new Status(sp, buffer, buffer.Length);
    status.PrintSigned(v);
    StrtolReadsBack(sp, v);
    assert buffer[..status.i] == Text(sp, v);
    var end, erange;
    r, end, erange := StrtolC(buffer[..status.i], 10);
  }

  /** Prints an unsigned long in any of the three bases and parses it. */
  method PrintAndParseUnsigned(sp: Spec, v: nat) returns (r: int)
    requires ValidSpec(sp) && sp.unsigned && v <= ULONG_MAX
    ensures r == v
  {
    hide Text;
    var buffer := new char[|Text(sp, v)| + 1](_ => NUL);
    var status := new Status(sp, buffer, buffer.Length);
    status.PrintUnsigned(v);
    StrtoulReadsBack(sp, v);
    assert buffer[..status.i] == Text(sp, v);
    var end, erange;
    r, end, erange := StrtoulC(buffer[..status.i], sp.base);
  }
}
