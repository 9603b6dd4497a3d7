/** The second integer printer (printf.c:29-85, 113-124): it finds the largest
    power of the base and divides its way down. Where it agrees with that of
    print.c. */
module NumberPrintf {
  import opened Options
  import opened NumberDigits
  import P = NumberPrint

  function Pow(b: nat, k: nat): (p: nat)
    requires b >= 1
    ensures p >= 1
  {
    if k == 0 then 1
    else
      TimesBase(Pow(b, k - 1), b);
      Pow(b, k - 1) * b
  }

  /** Division and remainder of unsigned numbers. */
  function Div(a: nat, b: nat): nat
    requires b >= 1
  {
    DivIsNat(a, b);
    a / b
  }

  function Mod(a: nat, b: nat): nat
    requires b >= 1
  {
    a % b
  }

  lemma DivIsNat(a: nat, b: nat)
    requires b >= 1
    ensures a / b >= 0
  {
  }

  lemma DivFacts(a: nat, b: nat)
    requires b >= 1
    ensures a == Div(a, b) * b + Mod(a, b) && Mod(a, b) < b
  {
  }

  lemma MulMono(a: nat, b: nat, c: nat)
    requires a <= b
    ensures a * c <= b * c
  {
  }

  lemma MulGap(a: nat, b: nat, c: nat)
    requires a < b
    ensures a * c + c <= b * c
  {
    MulMono(a + 1, b, c);
    assert (a + 1) * c == a * c + c;
  }

  /** Quotient and remainder are what they are. */
  lemma DivModUnique(a: nat, n: nat, q: nat, r: nat)
    requires a == q * n + r && r < n
    ensures Div(a, n) == q && Mod(a, n) == r
  {
    DivFacts(a, n);
    hide Div, Mod;
    if Div(a, n) > q {
      MulGap(q, Div(a, n), n);
    } else if Div(a, n) < q {
      MulGap(Div(a, n), q, n);
    }
  }

  lemma QuotientBelow(v: nat, p: nat, b: nat)
    requires p >= 1 && v < p * b
    ensures Div(v, p) < b && Mod(v, p) < p
  {
    DivFacts(v, p);
    hide Div, Mod;
    if Div(v, p) >= b {
      MulMono(b, Div(v, p), p);
    }
  }

  lemma QuotientAtLeast(v: nat, p: nat, b: nat)
    requires b >= 1 && p * b <= v
    ensures p <= Div(v, b)
  {
    DivFacts(v, b);
    hide Div, Mod;
    if Div(v, b) < p {
      MulGap(Div(v, b), p, b);
    }
  }

  /** Exactly `k` digits, the most significant one first. */
  function Fixed(v: nat, b: nat, k: nat, upper: bool): seq<char>
    requires ValidBase(b) && v < Pow(b, k)
    decreases k
  {
    if k == 0 then []
    else
      QuotientBelow(v, Pow(b, k - 1), b);
      [DigitChar(Div(v, Pow(b, k - 1)), upper)] + Fixed(Mod(v, Pow(b, k - 1)), b, k - 1, upper)
  }

  lemma Regroup(d: nat, q: nat, b: nat, r: nat)
    ensures (d * q + r) * b == d * (q * b) + r * b
  {
  }

  /** Taking a digit off the top, which is worth `p`, and one off the bottom commute. */
  lemma TopAndBottom(v: nat, b: nat, q: nat, p: nat)
    requires b >= 2 && q >= 1 && p == q * b && p >= 1
    ensures Div(Div(v, b), q) == Div(v, p)
    ensures Mod(Div(v, b), q) == Div(Mod(v, p), b) && Mod(v, b) == Mod(Mod(v, p), b)
  {
    hide Div, Mod;
    var d, r := Div(v, p), Mod(v, p);
    var r1, r0 := Div(r, b), Mod(r, b);
    DivFacts(v, p);
    DivFacts(r, b);
    QuotientBelow(r, b, q);
    Regroup(d, q, b, r1);
    DivModUnique(v, b, d * q + r1, r0);
    DivModUnique(d * q + r1, q, d, r1);
  }

  /** The digits from the top are the digits from the bottom. */
  lemma {:induction false} FixedSnoc(v: nat, b: nat, k: nat, upper: bool)
    requires ValidBase(b) && v < Pow(b, k + 1)
    ensures Div(v, b) < Pow(b, k) && Mod(v, b) < b
    ensures Fixed(v, b, k + 1, upper) == Fixed(Div(v, b), b, k, upper) + [DigitChar(Mod(v, b), upper)]
    decreases k
  {
    hide Div, Mod, DigitChar;
    QuotientBelow(v, b, Pow(b, k));
    if k == 0 {
      DivModUnique(v, b, 0, v);
      DivModUnique(v, 1, v, 0);
    } else {
      QuotientBelow(v, Pow(b, k), b);
      FixedSnoc(Mod(v, Pow(b, k)), b, k - 1, upper);
      TopAndBottom(v, b, Pow(b, k - 1), Pow(b, k));
    }
  }

  /** With no digit to spare they are the canonical ones. */
  lemma {:induction false} FixedIsDigits(v: nat, b: nat, k: nat, upper: bool)
    requires ValidBase(b) && 1 <= k && v < Pow(b, k) && (k == 1 || Pow(b, k - 1) <= v)
    ensures Fixed(v, b, k, upper) == Digits(v, b, upper)
    decreases k
  {
    FixedSnoc(v, b, k - 1, upper);
    DigitsStep(v, b, upper);
    hide Div, Mod, DigitChar, Digits;
    if k == 1 {
      assert Pow(b, 1) == Pow(b, 0) * b == b;
    } else {
      assert Pow(b, k - 1) == Pow(b, k - 2) * b;
      MulMono(1, Pow(b, k - 2), b);
      QuotientAtLeast(v, Pow(b, k - 2), b);
      FixedIsDigits(Div(v, b), b, k - 1, upper);
    }
  }

  lemma DigitsStep(v: nat, b: nat, upper: bool)
    requires ValidBase(b)
    ensures Mod(v, b) < b
    ensures Digits(v, b, upper)
         == (if v < b then [] else Digits(Div(v, b), b, upper)) + [DigitChar(Mod(v, b), upper)]
  {
    DropDigit(v, b);
  }

  // ---- the code ------------------------------------------------------------

  /** The first loop: the largest power of the base that does not exceed the
      number (1 for 0). It never leaves the range of unsigned long. */
  method LargestPower(num: nat, base: nat) returns (d: nat, ghost k: nat)
    requires num <= ULONG_MAX && ValidBase(base)
    ensures d == Pow(base, k) && num < Pow(base, k + 1) && 1 <= d <= ULONG_MAX
    ensures k == 0 || d <= num
  {
    hide Div, Mod;
    d, k := 1, 0;
    while Div(num, d) >= base
      invariant d == Pow(base, k) && d >= 1 && (k == 0 || d <= num)
      decreases num - d
    {
      Grows(num, d, base);
      d, k := d * base, k + 1;
    }
    QuotientStillBelow(num, d, base);
  }

  lemma Grows(num: nat, d: nat, base: nat)
    requires d >= 1 && base >= 2 && Div(num, d) >= base
    ensures d < d * base <= num
  {
    DivFacts(num, d);
    hide Div, Mod;
    MulMono(base, Div(num, d), d);
    MulMono(2, base, d);
  }

  lemma QuotientStillBelow(num: nat, d: nat, base: nat)
    requires d >= 1 && Div(num, d) < base
    ensures num < d * base
  {
    DivFacts(num, d);
    hide Div, Mod;
    MulGap(Div(num, d), base, d);
  }

  /** What is left to print: nothing once `d` is 0, else the digits down from
      that of weight `d`, the `k`-th power of the base. */
  ghost predicate Remaining(total: seq<char>, printed: seq<char>, num: nat, base: nat, d: nat, k: nat, upper: bool)
    requires ValidBase(base)
  {
    if d == 0 then printed == total
    else d == Pow(base, k) && num < Pow(base, k + 1) && total == printed + Fixed(num, base, k + 1, upper)
  }

  lemma NextRemaining(total: seq<char>, printed: seq<char>, num: nat, base: nat, d: nat, k: nat, upper: bool,
                      dgt: nat, num': nat, d': nat, k': nat)
    requires ValidBase(base) && d > 0 && Remaining(total, printed, num, base, d, k, upper)
    requires dgt == Div(num, d) && num' == Mod(num, d) && d' == Div(d, base) && k' == if k == 0 then 0 else k - 1
    ensures dgt < base
    ensures Remaining(total, printed + [DigitChar(dgt, upper)], num', base, d', k', upper)
  {
    FixedHead(num, base, k, upper);
    NextWeight(base, k, d, d');
    hide DigitChar, Div, Mod, Pow, Fixed;
    TakeDigit(total, printed, DigitChar(dgt, upper), Fixed(num', base, k, upper));
  }

  lemma FixedHead(num: nat, base: nat, k: nat, upper: bool)
    requires ValidBase(base) && num < Pow(base, k + 1)
    ensures Div(num, Pow(base, k)) < base && Mod(num, Pow(base, k)) < Pow(base, k)
    ensures Fixed(num, base, k + 1, upper)
         == [DigitChar(Div(num, Pow(base, k)), upper)] + Fixed(Mod(num, Pow(base, k)), base, k, upper)
    ensures k == 0 ==> Fixed(Mod(num, Pow(base, k)), base, k, upper) == []
  {
    hide DigitChar;
    QuotientBelow(num, Pow(base, k), base);
  }

  lemma TakeDigit(total: seq<char>, printed: seq<char>, c: char, rest: seq<char>)
    requires total == printed + ([c] + rest)
    ensures total == printed + [c] + rest
    ensures rest == [] ==> total == printed + [c]
  {
  }

  lemma NextWeight(base: nat, k: nat, d: nat, d': nat)
    requires ValidBase(base) && d == Pow(base, k) && d' == Div(d, base)
    ensures d' == if k == 0 then 0 else Pow(base, k - 1)
  {
    if k == 0 {
      SmallQuotient(1, base);
    } else {
      DivModUnique(d, base, Pow(base, k - 1), 0);
    }
  }

  /** The second loop: from the largest power down to 0, into `bf` from `start` on. */
  method PrintDown(number: nat, base: nat, upper: bool, power: nat, ghost exponent: nat,
                   bf: array<char>, start: nat, ghost total: seq<char>)
    returns (end: nat)
    requires ValidBase(base) && start <= |total| < bf.Length && power > 0
    requires Remaining(total, bf[..start], number, base, power, exponent, upper)
    requires exponent == 0 || power <= number
    modifies bf
    ensures end == |total| && bf[..end] == total
  {
    hide Fixed, Pow, DigitChar, Div, Mod;
    var num: nat, d: nat, n := number, power, 0;
    ghost var k: nat := exponent;
    end := start;
    while d != 0
      invariant end == start + n <= bf.Length && Remaining(total, bf[..end], num, base, d, k, upper)
      invariant n == 0 ==> num == number && d != 0 && (k == 0 || d <= num)
      decreases d
    {
      var dgt, rest, below := Div(num, d), Mod(num, d), Div(d, base);
      ghost var k' := if k == 0 then 0 else k - 1;
      FirstDigitCounts(num, d, base, k, dgt, below);
      NextRemaining(total, bf[..end], num, base, d, k, upper, dgt, rest, below, k');
      num, d, k := rest, below, k';
      if n != 0 || dgt > 0 || d == 0 {
        Room(total, bf[..end] + [DigitChar(dgt, upper)], num, base, d, k, upper);
        bf[end] := DigitChar(dgt, upper);
        end, n := end + 1, n + 1;
        assert bf[..end] == bf[..end - 1] + [DigitChar(dgt, upper)];
      }
    }
  }

  /** uli2a, and ui2a for a narrower type: the digits of the number and a NUL, from
      `start` on. */
  method Uli2a(number: nat, base: nat, upper: bool, bf: array<char>, start: nat) returns (end: nat)
    requires number <= ULONG_MAX && ValidBase(base) && start + |Digits(number, base, upper)| < bf.Length
    modifies bf
    ensures end == start + |Digits(number, base, upper)| && bf[end] == '\0'
    ensures bf[..end] == old(bf[..start]) + Digits(number, base, upper)
  {
    var d: nat;
    ghost var k: nat;
    d, k := LargestPower(number, base);
    FixedIsDigits(number, base, k + 1, upper);
    hide Digits, Fixed, Pow;
    end := PrintDown(number, base, upper, d, k, bf, start, bf[..start] + Digits(number, base, upper));
    bf[end] := '\0';
  }

  /** The text of a signed number without padding. */
  function Signed(v: int): seq<char> {
    (if v < 0 then "-" else "") + Digits(Abs(v), 10, false)
  }

  /** li2a. Negation of the least long wraps, and is right again as an unsigned long. */
  method Li2a(v: int, bf: array<char>) returns (end: nat)
    requires LONG_MIN <= v <= LONG_MAX && |Signed(v)| < bf.Length
    modifies bf
    ensures end == |Signed(v)| && bf[..end] == Signed(v) && bf[end] == '\0'
  {
    hide Digits;
    var num, p := v, 0;
    if num < 0 {
      num := if num == LONG_MIN then num else -num;
      bf[p] := '-';
      p := p + 1;
    }
    end := Uli2a(if num < 0 then num + (ULONG_MAX + 1) else num, 10, false, bf, p);
  }

  /** The leading digit is not 0 unless it is the only one, so it is printed. */
  lemma FirstDigitCounts(num: nat, d: nat, base: nat, k: nat, dgt: nat, below: nat)
    requires ValidBase(base) && d == Pow(base, k) && dgt == Div(num, d) && below == Div(d, base)
    ensures d <= num ==> dgt > 0
    ensures k == 0 ==> below == 0
    ensures below < d
  {
    SmallQuotient(1, base);
    DropDigit(d, base);
    if d <= num {
      QuotientAtLeast(num, 1, d);
    }
  }

  lemma Room(total: seq<char>, printed: seq<char>, num: nat, base: nat, d: nat, k: nat, upper: bool)
    requires ValidBase(base) && Remaining(total, printed, num, base, d, k, upper)
    ensures |printed| <= |total|
  {
  }

  /** A text padded on the left to a width. */
  function Field(width: int, z: bool, bf: seq<char>): seq<char> {
    Repeat(if z then '0' else ' ', if width > |bf| then width - |bf| else 0) + bf
  }

  /** putchw. */
  method Putchw(width: int, z: bool, bf: seq<char>) returns (out: seq<char>)
    ensures out == Field(width, z, bf)
  {
    var fc, n, p := if z then '0' else ' ', width, 0;
    while p < |bf| && n > 0
      invariant 0 <= p <= |bf| && n == width - p && (p > 0 ==> n >= 0)
    {
      p, n := p + 1, n - 1;
    }
    out := [];
    ghost var pad := 0;
    ghost var needed := if width > |bf| then width - |bf| else 0;
    while n > 0
      invariant 0 <= pad && out == Repeat(fc, pad)
      invariant pad + (if n > 0 then n else 0) == needed
      decreases n
    {
      assert Repeat(fc, pad + 1) == Repeat(fc, pad) + [fc];
      out, n, pad := out + [fc], n - 1, pad + 1;
    }
    out := out + bf;
  }

  // ---- the two printers ----------------------------------------------------

  /** The conversions that both printers know: a width, and the zero flag. */
  function Plain(unsigned: bool, base: nat, upper: bool, width: nat, z: bool): P.Spec {
    P.Spec(false, false, false, false, z, !upper, unsigned, base, width, 0)
  }

  lemma PlainLead(sp: P.Spec, negative: bool, n: nat, sign: seq<char>, pad: nat)
    requires !sp.minus && !sp.plus && !sp.alt && !sp.space && sp.prec == 0 && !(sp.unsigned && negative)
    requires sign == if negative then "-" else ""
    requires pad == if sp.width > |sign| + n then sp.width - |sign| - n else 0
    ensures P.Lead(sp, negative, n) == if sp.zero then sign + Repeat('0', pad) else Repeat(' ', pad) + sign
  {
    assert P.Preface(sp, negative) == sign;
    hide P.Preface;
    assert Repeat(' ', 0) == [] && Repeat('0', 0) == [];
  }

  lemma PlainText(unsigned: bool, base: nat, upper: bool, width: nat, z: bool, v: int)
    requires P.ValidSpec(Plain(unsigned, base, upper, width, z)) && (unsigned ==> v >= 0)
    ensures var digits, sign := Digits(Abs(v), base, upper), if v < 0 then "-" else "";
            var pad := if width > |sign| + |digits| then width - |sign| - |digits| else 0;
            P.Text(Plain(unsigned, base, upper, width, z), v)
              == (if z then sign + Repeat('0', pad) else Repeat(' ', pad) + sign) + digits
  {
    hide Digits, P.Lead, P.Preface;
    var digits, sign := Digits(Abs(v), base, upper), if v < 0 then "-" else "";
    PlainLead(Plain(unsigned, base, upper, width, z), v < 0, |digits|, sign,
              if width > |sign| + |digits| then width - |sign| - |digits| else 0);
    assert Repeat(' ', 0) == [];
  }

  /** On unsigned numbers they agree: digits, case, width and zero padding. */
  lemma UnsignedFieldsAgree(base: nat, upper: bool, width: nat, z: bool, v: nat)
    requires base in {8, 10, 16}
    ensures P.Text(Plain(true, base, upper, width, z), v) == Field(width, z, Digits(v, base, upper))
  {
    hide Digits, P.Text;
    PlainText(true, base, upper, width, z, v);
  }

  /** On signed ones they agree unless zeros have to go between a minus sign and
      the digits: this printer puts them in front of the sign. */
  lemma SignedFieldsAgree(width: nat, z: bool, v: int)
    ensures P.Text(Plain(false, 10, false, width, z), v) == Field(width, z, Signed(v))
       <==> !(z && v < 0 && width > |Signed(v)|)
  {
    hide Digits, P.Text;
    PlainText(false, 10, false, width, z, v);
    if z && v < 0 && width > |Signed(v)| {
      assert P.Text(Plain(false, 10, false, width, z), v)[0] == '-';
      assert Field(width, z, Signed(v))[0] == '0';
    }
  }

  // ---- the buffer of tfp_format --------------------------------------------

  /** char bf[12]. */
  const BUFFER := 12

  /** How many digits a number has. */
  lemma {:induction false} DigitCount(v: nat, base: nat, upper: bool, k: nat)
    requires ValidBase(base) && k >= 1
    ensures |Digits(v, base, upper)| <= k <==> v < Pow(base, k)
    decreases k
  {
    DropDigit(v, base);
    PowStep(base, k);
    hide DigitChar;
    DigitsStep(v, base, upper);
    if k == 1 {
      assert Pow(base, 1) == base by { assert Pow(base, 0) == 1; }
    } else if v < base {
      PowGrows(base, k);
    } else {
      DigitCount(Div(v, base), base, upper, k - 1);
      hide Digits, Pow, Div, Mod;
      DivFacts(v, base);
      if Div(v, base) < Pow(base, k - 1) {
        MulGap(Div(v, base), Pow(base, k - 1), base);
      } else {
        MulMono(Pow(base, k - 1), Div(v, base), base);
      }
    }
  }

  lemma PowStep(base: nat, k: nat)
    requires base >= 1 && k >= 1
    ensures Pow(base, k) == Pow(base, k - 1) * base
  {
  }

  lemma {:induction false} PowGrows(base: nat, k: nat)
    requires base >= 2 && k >= 1
    ensures base <= Pow(base, k)
    decreases k
  {
    if k > 1 {
      PowGrows(base, k - 1);
      MulMono(1, base, Pow(base, k - 1));
    } else {
      assert Pow(base, 0) == 1;
    }
  }

  /** The text and its NUL fit the buffer. */
  predicate FitsBuffer(text: seq<char>) {
    |text| < BUFFER
  }

  lemma UnsignedFits(v: nat, upper: bool)
    ensures FitsBuffer(Digits(v, 10, upper)) <==> v < 100_000_000_000
    ensures FitsBuffer(Digits(v, 16, upper)) <==> v < 0x1000_0000_0000
  {
    DigitCount(v, 10, upper, 11);
    DigitCount(v, 16, upper, 11);
    hide Digits;
    assert Pow(10, 3) == 1000 && Pow(10, 7) == 10_000_000 && Pow(10, 11) == 100_000_000_000;
    assert Pow(16, 3) == 0x1000 && Pow(16, 7) == 0x1000_0000 && Pow(16, 11) == 0x1000_0000_0000;
  }

  lemma SignedFits(v: int)
    ensures FitsBuffer(Signed(v)) <==> -10_000_000_000 < v < 100_000_000_000
  {
    UnsignedFits(Abs(v), false);
    DigitCount(Abs(v), 10, false, 10);
    hide Digits;
    assert Pow(10, 3) == 1000 && Pow(10, 7) == 10_000_000 && Pow(10, 10) == 10_000_000_000;
  }

  /** The "%lu", "%lx" and "%lX" of tfp_format: the field of print.c, provided the
      number fits the buffer. `None` if it does not: the digits overrun it. */
  method FormatUnsigned(v: nat, base: nat, upper: bool, width: nat, z: bool) returns (out: Option<seq<char>>)
    requires v <= ULONG_MAX && base in {10, 16}
    ensures out == if v < (if base == 10 then 100_000_000_000 else 0x1000_0000_0000)
                   then Some(P.Text(Plain(true, base, upper, width, z), v)) else None
  {
    UnsignedFits(v, upper);
    hide P.Text, Field, Digits;
    var bf := new char[BUFFER](_ => '\0');
    if |Digits(v, base, upper)| >= bf.Length { return None; }
    var end := Uli2a(v, base, upper, bf, 0);
    UnsignedFieldsAgree(base, upper, width, z, v);
    assert bf[..end] == Digits(v, base, upper);
    var text := Putchw(width, z, bf[..end]);
    out := Some(text);
  }

  /** Its "%ld": the same, unless zeros have to go between sign and digits. */
  method FormatSigned(v: int, width: nat, z: bool) returns (out: Option<seq<char>>)
    requires LONG_MIN <= v <= LONG_MAX
    ensures out.Some? <==> -10_000_000_000 < v < 100_000_000_000
    ensures out.Some? ==>
              (out.value == P.Text(Plain(false, 10, false, width, z), v) <==> !(z && v < 0 && width > |Signed(v)|))
  {
    SignedFits(v);
    hide Signed, P.Text, Field;
    var bf := new char[BUFFER](_ => '\0');
    if |Signed(v)| >= bf.Length { return None; }
    var end := Li2a(v, bf);
    SignedFieldsAgree(width, z, v);
    var text := Putchw(width, z, bf[..end]);
    out := Some(text);
  }
}
