/** The integer conversions of print.c (print.c:72-219, 445-533), following section
    7.19.6.1 of ISO/IEC 9899:1999, into a memory buffer. */
module NumberPrint {
  import opened NumberDigits

  /** What the flags, width and precision of a conversion ask for. `prec` is 0 if
      none is given. */
  datatype Spec = Spec(minus: bool, plus: bool, alt: bool, space: bool, zero: bool, lower: bool, unsigned: bool,
                       base: nat, width: nat, prec: nat)

  predicate ValidSpec(sp: Spec) {
    sp.base in {8, 10, 16} && (!sp.unsigned ==> sp.base == 10)
  }

  // ---- the text of a conversion --------------------------------------------

  /** Base prefix, or sign. */
  function Preface(sp: Spec, negative: bool): (s: seq<char>)
    ensures |s| <= 3
  {
    (if sp.alt && sp.base == 16 then ['0', if sp.lower then 'x' else 'X']
     else if sp.alt && sp.base == 8 then "0" else [])
    + (if negative then "-" else if sp.unsigned then [] else if sp.plus then "+" else if sp.space then " " else [])
  }

  function Max(a: nat, b: nat): nat {
    if a > b then a else b
  }

  /** How many spaces, and how many zeros for width and for precision, come before
      `n` digits. */
  function LeftPad(sp: Spec, negative: bool, n: nat): nat {
    var used := |Preface(sp, negative)| + Max(n, sp.prec);
    if !sp.minus && !sp.zero && sp.width > used then sp.width - used else 0
  }

  function ZeroPad(sp: Spec, negative: bool, n: nat): nat {
    var used := |Preface(sp, negative)| + n;
    if !sp.minus && sp.zero && sp.width > used then sp.width - used else 0
  }

  function PrecPad(sp: Spec, n: nat): nat {
    if sp.prec > n then sp.prec - n else 0
  }

  /** What `status->current` is once all of that is out: it leaves out the zeros
      for the precision. */
  function Counted(sp: Spec, negative: bool, n: nat): nat {
    n + LeftPad(sp, negative, n) + |Preface(sp, negative)| + ZeroPad(sp, negative, n)
  }

  function RightPad(sp: Spec, negative: bool, n: nat): nat {
    var c := Counted(sp, negative, n);
    if sp.minus && sp.width > c then sp.width - c else 0
  }

  /** What comes before `n` digits. */
  function Lead(sp: Spec, negative: bool, n: nat): seq<char> {
    Repeat(' ', LeftPad(sp, negative, n)) + Preface(sp, negative)
    + Repeat('0', ZeroPad(sp, negative, n)) + Repeat('0', PrecPad(sp, n))
  }

  function DigitsOf(sp: Spec, v: int): seq<char>
    requires ValidSpec(sp)
  {
    Digits(Abs(v), sp.base, !sp.lower)
  }

  /** The whole text. */
  function Text(sp: Spec, v: int): seq<char>
    requires ValidSpec(sp)
  {
    var digits := DigitsOf(sp, v);
    Lead(sp, v < 0, |digits|) + digits + Repeat(' ', RightPad(sp, v < 0, |digits|))
  }

  /** Without a precision, a conversion is exactly as wide as its width asks, or as
      prefix and digits need. */
  lemma FieldWidth(sp: Spec, v: int)
    requires ValidSpec(sp) && sp.prec <= |DigitsOf(sp, v)|
    ensures |Text(sp, v)| == Max(sp.width, |Preface(sp, v < 0)| + |DigitsOf(sp, v)|)
  {
  }

  /** What stands before the digits: of an unsigned number the base, if "#" asks for it;
      of a signed one a minus sign, or what "+" and " " ask for, "+" first. */
  lemma PrefaceIs(sp: Spec, negative: bool)
    requires ValidSpec(sp) && (sp.unsigned ==> !negative)
    ensures sp.unsigned && sp.alt && sp.base == 16 ==> Preface(sp, negative) == if sp.lower then "0x" else "0X"
    ensures sp.unsigned && sp.alt && sp.base == 8 ==> Preface(sp, negative) == "0"
    ensures sp.unsigned && (!sp.alt || sp.base == 10) ==> Preface(sp, negative) == ""
    ensures !sp.unsigned && negative ==> Preface(sp, negative) == "-"
    ensures !sp.unsigned && !negative && sp.plus ==> Preface(sp, negative) == "+"
    ensures !sp.unsigned && !negative && !sp.plus && sp.space ==> Preface(sp, negative) == " "
    ensures !sp.unsigned && !negative && !sp.plus && !sp.space ==> Preface(sp, negative) == ""
  {
  }

  /** How much a number falls short of another. */
  function Short(a: nat, b: nat): nat {
    if a < b then b - a else 0
  }

  /** With "-" the field begins with the number and only spaces follow; the precision is
      made up with zeros, which are not taken off the spaces. */
  lemma LeftAligned(sp: Spec, v: int)
    requires ValidSpec(sp) && sp.minus
    ensures var digits, preface := DigitsOf(sp, v), Preface(sp, v < 0);
            Text(sp, v) == preface + Repeat('0', Short(|digits|, sp.prec)) + digits
                           + Repeat(' ', Short(|preface| + |digits|, sp.width))
  {
    hide Digits, Preface;
    NoPad(' ');
    NoPad('0');
    var digits, preface := DigitsOf(sp, v), Preface(sp, v < 0);
    assert [] + preface == preface && preface + [] == preface;
  }

  /** Without "-" and "0" it ends with the number, and only spaces come before. */
  lemma RightAligned(sp: Spec, v: int)
    requires ValidSpec(sp) && !sp.minus && !sp.zero
    ensures var digits, preface := DigitsOf(sp, v), Preface(sp, v < 0);
            Text(sp, v) == Repeat(' ', Short(|preface| + Max(|digits|, sp.prec), sp.width))
                           + (preface + Repeat('0', Short(|digits|, sp.prec)) + digits)
  {
    hide Digits, Preface;
    NoPad(' ');
    NoPad('0');
    var digits, preface := DigitsOf(sp, v), Preface(sp, v < 0);
    var left, zeros := Repeat(' ', LeftPad(sp, v < 0, |digits|)), Repeat('0', PrecPad(sp, |digits|));
    assert left + preface + [] + zeros + digits + [] == left + (preface + zeros + digits);
  }

  /** With "0" zeros between preface and digits fill the width, and those for the
      precision come on top. */
  lemma ZeroPadded(sp: Spec, v: int)
    requires ValidSpec(sp) && !sp.minus && sp.zero
    ensures var digits, preface := DigitsOf(sp, v), Preface(sp, v < 0);
            Text(sp, v) == preface
              + Repeat('0', Short(|preface| + |digits|, sp.width) + Short(|digits|, sp.prec)) + digits
  {
    hide Digits, Preface;
    NoPad(' ');
    NoPad('0');
    var digits, preface := DigitsOf(sp, v), Preface(sp, v < 0);
    var fill, zeros := ZeroPad(sp, v < 0, |digits|), PrecPad(sp, |digits|);
    assert Repeat('0', fill) + Repeat('0', zeros) == Repeat('0', fill + zeros);
    assert [] + preface + Repeat('0', fill) + Repeat('0', zeros) + digits + []
        == preface + (Repeat('0', fill) + Repeat('0', zeros)) + digits;
  }

  /** Without a "#", digits come in the case asked for. */
  lemma {:induction false} DigitsInCase(v: nat, base: nat, upper: bool)
    requires ValidBase(base)
    ensures forall k | 0 <= k < |Digits(v, base, upper)| ::
              var c := Digits(v, base, upper)[k];
              '0' <= c <= '9' || (if upper then 'A' <= c <= 'Z' else 'a' <= c <= 'z')
    decreases v
  {
    DropDigit(v, base);
    if v >= base {
      DigitsInCase(v / base, base, upper);
    }
  }

  /** Plain "%d", with nothing asked for. */
  const PLAIN := Spec(false, false, false, false, false, true, false, 10, 0, 0)

  lemma DigitsOf42()
    ensures Digits(42, 10, false) == "42"
  {
    assert Digits(4, 10, false) == "4";
  }

  /** "%-5d", "%5d", "%05d", "%+d", "% d" and "%.4d". */
  lemma Examples()
    ensures Text(PLAIN.(minus := true, width := 5), 42) == "42   "
    ensures Text(PLAIN.(width := 5), -42) == "  -42"
    ensures Text(PLAIN.(zero := true, width := 5), -42) == "-0042"
    ensures Text(PLAIN.(plus := true), 42) == "+42" && Text(PLAIN.(space := true), 42) == " 42"
    ensures Text(PLAIN.(prec := 4), 42) == "0042"
  {
    DigitsOf42();
    hide Digits, Text;
    LeftAligned(PLAIN.(minus := true, width := 5), 42);
    RightAligned(PLAIN.(width := 5), -42);
    ZeroPadded(PLAIN.(zero := true, width := 5), -42);
    RightAligned(PLAIN.(plus := true), 42);
    RightAligned(PLAIN.(space := true), 42);
    RightAligned(PLAIN.(prec := 4), 42);
    assert Repeat(' ', 3) == "   " && Repeat(' ', 2) == "  " && Repeat('0', 2) == "00";
    assert Repeat(' ', 0) == [] && Repeat('0', 0) == [];
  }

  lemma Regroup(t: seq<char>, a: seq<char>, b: seq<char>, c: seq<char>, d: seq<char>)
    ensures t + a + b + c + d == t + (a + b + c + d)
  {
  }

  lemma RegroupThree(t: seq<char>, a: seq<char>, b: seq<char>, c: seq<char>)
    ensures t + a + b + c == t + (a + b + c)
  {
  }

  lemma RightPadIs(sp: Spec, negative: bool, n: nat)
    ensures RightPad(sp, negative, n)
         == if sp.minus && sp.width > Counted(sp, negative, n) then sp.width - Counted(sp, negative, n) else 0
  {
  }

  lemma NoPad(c: char)
    ensures Repeat(c, 0) == []
  {
  }

  // ---- the code ------------------------------------------------------------

  /** struct _PDCLIB_status_t. The buffer `s` takes the first `n` characters;
      `text` is everything delivered. */
  class Status {
    const sp: Spec
    const s: array<char>
    const n: nat
    var i: nat
    var current: nat
    ghost var text: seq<char>

    ghost predicate Valid()
      reads this, s
    {
      && ValidSpec(sp) && n <= s.Length && i == |text|
      && forall k | 0 <= k < i && k < n :: s[k] == text[k]
    }

    constructor (sp: Spec, s: array<char>, n: nat)
      requires ValidSpec(sp) && n <= s.Length
      ensures Valid() && this.sp == sp && this.s == s && this.n == n && text == [] && current == 0
    {
      this.sp, this.s, this.n, i, current := sp, s, n, 0, 0;
      text := [];
    }

    /** PUT: delivers a character, and counts it whether or not there is room. */
    method Put(c: char)
      requires Valid()
      modifies this`i, this`text, s
      ensures Valid() && text == old(text) + [c]
    {
      if i < n {
        s[i] := c;
      }
      i := i + 1;
      text := text + [c];
    }

    /** `count` times the same character, each counted in `current`. */
    method PutPad(c: char, count: nat)
      requires Valid()
      modifies this`i, this`text, this`current, s
      ensures Valid() && text == old(text) + Repeat(c, count) && current == old(current) + count
    {
      for k := 0 to count
        invariant Valid() && text == old(text) + Repeat(c, k) && current == old(current) + k
      {
        Put(c);
        current := current + 1;
      }
    }

    /** The characters before the number: base prefix, sign. */
    method MakePreface(value: int) returns (preface: seq<char>)
      ensures preface == Preface(sp, value < 0)
    {
      preface := [];
      if sp.alt && (sp.base == 16 || sp.base == 8) {
        preface := preface + ['0'];
        if sp.base == 16 {
          preface := preface + [if sp.lower then 'x' else 'X'];
        }
      }
      if value < 0 {
        preface := preface + ['-'];
      } else if !sp.unsigned {
        if sp.plus {
          preface := preface + ['+'];
        } else if sp.space {
          preface := preface + [' '];
        }
      }
    }

    /** Spaces on the left, if no zeros and no left alignment are asked for. */
    method PadLeft(preface: seq<char>, ghost negative: bool)
      requires Valid() && preface == Preface(sp, negative)
      modifies this`i, this`text, this`current, s
      ensures Valid() && text == old(text) + Repeat(' ', LeftPad(sp, negative, old(current)))
      ensures current == old(current) + LeftPad(sp, negative, old(current))
    {
      hide Preface, Valid, Repeat;
      NoPad(' ');
      if !(sp.minus || sp.zero) {
        var characters := |preface| + if current > sp.prec then current else sp.prec;
        if sp.width > characters {
          PutPad(' ', sp.width - characters);
        }
      }
    }

    /** Zeros up to the width, if those are asked for; `n` is the number of digits. */
    method PadZero(ghost negative: bool, ghost n: nat)
      requires Valid() && current == n + LeftPad(sp, negative, n) + |Preface(sp, negative)|
      modifies this`i, this`text, this`current, s
      ensures Valid() && text == old(text) + Repeat('0', ZeroPad(sp, negative, n))
      ensures current == Counted(sp, negative, n)
    {
      hide Preface, Valid, Repeat;
      NoPad('0');
      if !sp.minus && sp.zero && current < sp.width {
        PutPad('0', sp.width - current);
      }
    }

    /** intformat: everything that comes before the digits, of which there are
        `current`. Only the sign of the value matters. */
    method IntFormat(value: int)
      requires Valid()
      modifies this`i, this`text, this`current, s
      ensures Valid() && text == old(text) + Lead(sp, value < 0, old(current))
      ensures current == Counted(sp, value < 0, old(current))
    {
      hide Preface, Valid, Repeat, LeftPad, ZeroPad, Counted;
      ghost var n := current;
      var preface := MakePreface(value);
      var precPads := if sp.prec > current then sp.prec - current else 0;
      PadLeft(preface, value < 0);
      PutAll(preface);
      PadZero(value < 0, n);
      PutZeros(precPads);
      Regroup(old(text), Repeat(' ', LeftPad(sp, value < 0, n)), preface, Repeat('0', ZeroPad(sp, value < 0, n)),
              Repeat('0', precPads));
    }

    /** The prefix, counted. */
    method PutAll(preface: seq<char>)
      requires Valid()
      modifies this`i, this`text, this`current, s
      ensures Valid() && text == old(text) + preface && current == old(current) + |preface|
    {
      for k := 0 to |preface|
        invariant Valid() && text == old(text) + preface[..k] && current == old(current) + k
      {
        Put(preface[k]);
        current := current + 1;
      }
    }

    /** The zeros for the precision, not counted. */
    method PutZeros(count: nat)
      requires Valid()
      modifies this`i, this`text, s
      ensures Valid() && text == old(text) + Repeat('0', count)
    {
      for k := 0 to count
        invariant Valid() && text == old(text) + Repeat('0', k)
      {
        Put('0');
      }
    }

    /** int2base: recursion prints the digits on the way back; the deepest call
        has the first digit, knows their number, and does the formatting. */
    method Int2Base(value: int)
      requires Valid()
      modifies this`i, this`text, this`current, s
      ensures Valid()
      ensures var digits := DigitsOf(sp, value); var n := old(current) + |digits|;
              text == old(text) + Lead(sp, value < 0, n) + digits && current == Counted(sp, value < 0, n)
      decreases Abs(value)
    {
      hide Lead, Counted, Repeat, Digits;
      current := current + 1;
      LastDigit(sp, value);
      if CDiv(value, sp.base) != 0 {
        Int2Base(CDiv(value, sp.base));
      } else {
        IntFormat(value);
      }
      var digit := CMod(value, sp.base);
      if digit < 0 {
        digit := digit * -1;
      }
      PutDigit(digit);
    }

    /** What is in the buffer when a conversion is done: the text as far as there
        is room, with a NUL over its last character if it does not fit. */
    ghost predicate Stored()
      reads this, s
    {
      && n <= s.Length && i == |text|
      && (forall k | 0 <= k < i && k < n && !(i >= n && k == n - 1) :: s[k] == text[k])
      && (i >= n > 0 ==> s[n - 1] == '\0')
    }

    /** The end of a conversion: spaces on the right, then the terminator if the
        buffer is full. */
    method Finish()
      requires Valid()
      modifies this`i, this`text, this`current, s
      ensures Stored()
      ensures var pad := if sp.minus && sp.width > old(current) then sp.width - old(current) else 0;
              text == old(text) + Repeat(' ', pad)
    {
      NoPad(' ');
      if sp.minus && current < sp.width {
        PutPad(' ', sp.width - current);
      }
      if i >= n && n > 0 {
        s[n - 1] := '\0';
      }
    }

    /** %d and %i. */
    method PrintSigned(value: int)
      requires Valid() && !sp.unsigned && current == 0
      modifies this`i, this`text, this`current, s
      ensures Stored() && text == old(text) + Text(sp, value)
    {
      hide Lead, Counted, Repeat, Digits, Stored;
      ghost var digits := DigitsOf(sp, value);
      Int2Base(value);
      Finish();
      RightPadIs(sp, value < 0, |digits|);
      RegroupThree(old(text), Lead(sp, value < 0, |digits|), digits, Repeat(' ', RightPad(sp, value < 0, |digits|)));
    }

    /** %u, %o, %x and %X: one division first, so that the rest fits a signed
        number; then the last digit. */
    method PrintUnsigned(value: nat)
      requires Valid() && sp.unsigned && current == 0
      modifies this`i, this`text, this`current, s
      ensures Stored() && text == old(text) + Text(sp, value)
    {
      hide Lead, Counted, Repeat, Digits, Stored;
      ghost var digits := DigitsOf(sp, value);
      LastDigit(sp, value);
      current := current + 1;
      if value / sp.base != 0 {
        Int2Base(value / sp.base);
      } else {
        IntFormat(value);
      }
      PutDigit(value % sp.base);
      Finish();
      RightPadIs(sp, false, |digits|);
      RegroupThree(old(text), Lead(sp, false, |digits|), digits, Repeat(' ', RightPad(sp, false, |digits|)));
    }

    /** A digit, in lower or upper case. */
    method PutDigit(digit: nat)
      requires Valid() && digit < sp.base
      modifies this`i, this`text, s
      ensures Valid() && text == old(text) + [DigitChar(digit, !sp.lower)]
    {
      Put(DigitChar(digit, !sp.lower));
    }
  }

  /** The digits of a value: those of the truncated quotient, and one more. */
  lemma LastDigit(sp: Spec, value: int)
    requires ValidSpec(sp)
    ensures var q, r := CDiv(value, sp.base), CMod(value, sp.base);
            && Abs(r) < sp.base
            && (q == 0 ==> DigitsOf(sp, value) == [DigitChar(Abs(r), !sp.lower)])
            && (q != 0 ==>
                  && (q < 0 <==> value < 0)
                  && Abs(q) < Abs(value)
                  && DigitsOf(sp, value) == DigitsOf(sp, q) + [DigitChar(Abs(r), !sp.lower)])
  {
    DropDigit(Abs(value), sp.base);
  }
}
