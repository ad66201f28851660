/**
 What a directive prints, from its characters and its argument alone: flags, a width, a length modifier and
 a conversion character.  Together with the composition of formats this says what every format of
 such directives prints.
 */
module FormatLaw {

  import opened Common
  import opened Format
  import opened FormatNumber

  // ----- numerals ---------------------------------------------------------------------------

  const LOWER_DIGITS := "0123456789abcdef"
  const UPPER_DIGITS := "0123456789ABCDEF"

  function DigitChar(d: nat, upper: bool): char
    requires d < 16
  {
    if upper then UPPER_DIGITS[d] else LOWER_DIGITS[d]
  }

  /** The numeral of `v`, highest digit first. */
  function Numeral(v: nat, base: nat, upper: bool): (s: string)
    requires 2 <= base <= 16
    ensures |s| >= 1
    decreases v
  {
    Smaller(v, base);
    if v < base then [DigitChar(v, upper)] else Numeral(v / base, base, upper) + [DigitChar(v % base, upper)]
  }

  lemma Smaller(v: nat, base: nat)
    requires base >= 2
    ensures 0 <= v / base && 0 <= v % base < base && (v >= base ==> v / base < v)
  {
    var q, r := v / base, v % base;
    assert v == q * base + r;
    if q > 0 {
      assert q * base >= q * 2;
    }
  }

  lemma RestIs(v: nat, base: nat)
    requires IsBase(base)
    ensures Rest(v, base) == v / base && LowDigit(v, base) == v % base
    ensures Rest(v, base) == 0 <==> v < base
  {
    if base == 2 {
    } else if base == 8 {
    } else if base == 10 {
    } else {
    }
  }

  lemma SameDigit(d: nat, upper: bool)
    requires d < 16
    ensures Digit(d, upper) == DigitChar(d, upper)
  {
  }

  /** With room for them, the stored digits are the numeral reversed. */
  lemma {:induction false} DigitsAreNumeral(v: nat, base: nat, upper: bool, room: nat)
    requires IsBase(base) && room > 0 && v < Pow(base, room)
    ensures Reverse(RevDigits(v, base, upper, room)) == Numeral(v, base, upper)
    decreases room
  {
    hide Rest, LowDigit, Digit, DigitChar, Pow;
    RestIs(v, base);
    SameDigit(LowDigit(v, base), upper);
    RestBelow(v, base, room - 1);
    NoDigits(base);
    var s := RevDigits(v, base, upper, room);
    if Rest(v, base) != 0 && room > 1 {
      DigitsAreNumeral(Rest(v, base), base, upper, room - 1);
      assert s[1..] == RevDigits(Rest(v, base), base, upper, room - 1);
    } else {
      assert s == [Digit(LowDigit(v, base), upper)] && s[1..] == [];
      Small(v, base);
    }
  }

  lemma Small(v: nat, base: nat)
    requires IsBase(base) && v < base
    ensures v % base == v
  {
  }

  // ----- a number in its field --------------------------------------------------------------

  /** Left-justified, filled with zeros behind the sign, or right-justified. */
  function Layout(sign: string, numeral: string, width: nat, zero: bool, left: bool): string {
    var fill := width - |sign| - |numeral|;
    if left then sign + numeral + Repeat(' ', fill)
    else if zero then sign + Repeat('0', fill) + numeral
    else Repeat(' ', fill) + sign + numeral
  }

  function Sign(negative: bool, plus: bool, space: bool): (s: string)
    ensures |s| <= 1
  {
    if negative then "-" else if plus then "+" else if space then " " else ""
  }

  lemma {:induction false} ReversePad(s: string, n: int)
    ensures Reverse(s + Repeat('0', n)) == Repeat('0', n) + Reverse(s)
    decreases Max(n, 0)
  {
    if n <= 0 {
      assert s + Repeat('0', n) == s;
    } else {
      ReversePad(s, n - 1);
      ReversePush(s + Repeat('0', n - 1), '0');
      assert s + Repeat('0', n) == s + Repeat('0', n - 1) + ['0'];
      ZeroFirst(n);
    }
  }

  lemma {:induction false} ZeroFirst(n: int)
    requires n > 0
    ensures Repeat('0', n) == ['0'] + Repeat('0', n - 1)
  {
    if n > 1 {
      ZeroFirst(n - 1);
    }
  }

  lemma ReverseBody(digits: string, z: int, mark: string)
    requires IsMark(mark)
    ensures Reverse((digits + Repeat('0', z)) + mark) == mark + Repeat('0', z) + Reverse(digits)
  {
    hide Reverse, Repeat;
    ReverseMarked(digits + Repeat('0', z), mark);
    ReversePad(digits, z);
  }

  lemma MarkIsSign(n: int, f: Flags, negative: bool)
    requires n < NTOA_SIZE || !HasSign(f, negative)
    ensures Mark(n, f, negative) == Sign(negative, f.plus, f.space)
  {
  }

  lemma NoPad(c: char, n: int)
    requires n <= 0
    ensures Repeat(c, n) == []
  {
  }

  /** Every 64-bit number in base 8, 10 or 16 prints as its sign and numeral laid out in its field. */
  lemma NumberLaw(v: nat, negative: bool, base: nat, width: nat, f: Flags)
    requires IsBase(base) && base != 2 && v < MOD64 && !f.hash && !f.prec
    requires f.zero && !f.left ==> width <= NTOA_SIZE
    ensures NumberText(v, negative, base, 0, width, f)
         == Layout(Sign(negative, f.plus, f.space), Numeral(v, base, f.upper), width, f.zero, f.left)
  {
    hide NumberText, RevDigits, Numeral, Reverse, Repeat, Pow, Mark, Sign, Layout, Zeros, DigitWidth, HasSign;
    var digits := RevDigits(v, base, f.upper, NTOA_SIZE);
    var numeral := Numeral(v, base, f.upper);
    var w := DigitWidth(width, f, negative);
    var z := Zeros(|digits|, w, f);
    StoredNumeral(v, base, f.upper);
    TextShape(v, negative, base, width, f, digits);
    Widths(|digits|, width, f, negative);
    var mark := Mark(|digits| + Max(z, 0), f, negative);
    ReverseBody(digits, z, mark);
    PadLength('0', z);
    FieldShape(mark, numeral, z, width, w, |digits| + Max(z, 0) + |mark|, f.zero, f.left);
  }

  /** The width left for digits, the zeros and the sign of a number of `n` digits. */
  lemma Widths(n: nat, width: nat, f: Flags, negative: bool)
    requires 1 <= n <= 31 && (f.zero && !f.left ==> width <= NTOA_SIZE)
    ensures var w := DigitWidth(width, f, negative);
            var z := Zeros(n, w, f);
            var sign := Sign(negative, f.plus, f.space);
            && Mark(n + Max(z, 0), f, negative) == sign
            && w == (if !f.left && width > 0 && f.zero then width - |sign| else width)
            && z == (if f.left || !f.zero then 0 else w - n)
  {
    SignLength(f, negative);
    MarkIsSign(n + Max(Zeros(n, DigitWidth(width, f, negative), f), 0), f, negative);
  }

  lemma PadLength(c: char, n: int)
    ensures |Repeat(c, n)| == Max(n, 0)
  {
  }

  /** The three ways to fill a field. */
  lemma FieldShape(sign: string, numeral: string, z: int, width: nat, w: nat, len: nat, zero: bool, left: bool)
    requires w == if !left && width > 0 && zero then width - |sign| else width
    requires z == if left || !zero then 0 else w - |numeral|
    requires len == |numeral| + Max(z, 0) + |sign|
    ensures Repeat(' ', if left || zero then 0 else w - len) + (sign + Repeat('0', z) + numeral)
            + Repeat(' ', if left then w - len else 0)
         == Layout(sign, numeral, width, zero, left)
  {
    hide Repeat;
    NoPad(' ', 0);
    NoPad('0', 0);
    if zero && !left && z <= 0 {
      NoPad('0', z);
      NoPad('0', width - |sign| - |numeral|);
    }
  }

  lemma SignLength(f: Flags, negative: bool)
    ensures |Sign(negative, f.plus, f.space)| == if HasSign(f, negative) then 1 else 0
  {
  }

  lemma StoredNumeral(v: nat, base: nat, upper: bool)
    requires IsBase(base) && base != 2 && v < MOD64
    ensures var digits := RevDigits(v, base, upper, NTOA_SIZE);
            Reverse(digits) == Numeral(v, base, upper) && 1 <= |digits| <= 24
  {
    hide RevDigits, Numeral, Reverse, Pow;
    Wide(base);
    PowGrows(base, NTOA_SIZE - 1, NTOA_SIZE);
    DigitsAreNumeral(v, base, upper, NTOA_SIZE);
    DigitCount(v, base, upper, NTOA_SIZE, 24);
  }

  // ----- numbers with a precision -----------------------------------------------------------

  /** The digits a precision asks for: a zero has none of its own, and the rest are leading zeros. */
  function PaddedNumeral(v: nat, base: nat, upper: bool, prec: nat, left: bool): string
    requires 2 <= base <= 16
  {
    var numeral := if v == 0 then "" else Numeral(v, base, upper);
    (if left then "" else Repeat('0', prec - |numeral|)) + numeral
  }

  lemma PrecisionBody(digits: string, negative: bool, base: nat, prec: nat, width: nat, f: Flags)
    requires |digits| <= 31 && !f.hash && !f.zero && (f.left || prec <= 31)
    ensures NumberBody(digits, negative, base, prec, width, f)
         == (digits + Repeat('0', if f.left then 0 else prec - |digits|)) + Sign(negative, f.plus, f.space)
  {
    hide Repeat;
    var z := if f.left then 0 else prec - |digits|;
    NoPad('0', 0);
    PadLength('0', z);
    var b := LeadingZeros(digits, prec, width, f);
    assert b == digits + Repeat('0', z);
    assert b + "" == b;
  }

  lemma SpaceShape(sign: string, numeral: string, b: string, width: nat, f: Flags)
    requires Reverse(b) == sign + numeral && |b| == |sign| + |numeral| && !f.zero
    ensures Reversed(b, width, f) == Layout(sign, numeral, width, false, f.left)
  {
    hide Repeat, Reverse;
    Beside(sign, numeral, Repeat(' ', width - |b|));
  }

  lemma Beside(sign: string, numeral: string, pad: string)
    ensures [] + (sign + numeral) + pad == sign + numeral + pad
    ensures pad + (sign + numeral) + [] == pad + sign + numeral
  {
  }

  /** The stored digits of a number that has a precision, read from the back. */
  lemma PrecisionDigits(v: nat, base: nat, f: Flags)
    requires IsBase(base) && base != 2 && v < MOD64 && f.prec
    ensures var digits := DigitsOf(v, base, f);
            Reverse(digits) == (if v == 0 then "" else Numeral(v, base, f.upper)) && |digits| <= 31
            && |Reverse(digits)| == |digits|
  {
    hide RevDigits, Numeral, Pow;
    if v != 0 {
      StoredNumeral(v, base, f.upper);
    }
  }

  lemma SignIsMark(negative: bool, plus: bool, space: bool)
    ensures IsMark(Sign(negative, plus, space))
  {
  }

  lemma WidthKept(width: nat, f: Flags, negative: bool)
    requires !f.zero
    ensures DigitWidth(width, f, negative) == width
  {
  }

  /** With a precision a number has at least that many digits; to the left the precision is not heeded. */
  lemma PrecisionNumber(v: nat, negative: bool, base: nat, prec: nat, width: nat, f: Flags)
    requires IsBase(base) && base != 2 && v < MOD64 && !f.hash && f.prec && !f.zero && (f.left || prec <= 31)
    ensures NumberText(v, negative, base, prec, width, f)
         == Layout(Sign(negative, f.plus, f.space), PaddedNumeral(v, base, f.upper, prec, f.left), width, false, f.left)
  {
    hide RevDigits, Numeral, Reverse, Repeat, Pow, Sign, NumberBody, Reversed, DigitsOf, DigitWidth, Layout, IsMark;
    var digits := DigitsOf(v, base, f);
    var z := if f.left then 0 else prec - |digits|;
    var sign := Sign(negative, f.plus, f.space);
    PrecisionDigits(v, base, f);
    WidthKept(width, f, negative);
    PrecisionBody(digits, negative, base, prec, width, f);
    SignIsMark(negative, f.plus, f.space);
    ReverseBody(digits, z, sign);
    PadLength('0', z);
    NoPad('0', 0);
    var body := (digits + Repeat('0', z)) + sign;
    assert Reverse(body) == sign + (Repeat('0', z) + Reverse(digits));
    SpaceShape(sign, Repeat('0', z) + Reverse(digits), body, width, f);
  }

  // ----- reading a directive ----------------------------------------------------------------

  predicate FlagChars(fl: string) {
    forall k :: 0 <= k < |fl| ==> fl[k] == '0' || fl[k] == '-' || fl[k] == '+' || fl[k] == ' ' || fl[k] == '#'
  }

  predicate DigitChars(wd: string) {
    forall k :: 0 <= k < |wd| ==> '0' <= wd[k] <= '9'
  }

  /** A width or a precision: digits, or an argument for a star. */
  datatype Field = Digits(digits: string) | Star

  function FieldChars(w: Field): string {
    if w.Digits? then w.digits else "*"
  }

  function PrecisionChars(p: Option<Field>): string {
    if p.None? then "" else "." + FieldChars(p.value)
  }

  predicate FieldWritten(w: Field) {
    w.Digits? ==> DigitChars(w.digits)
  }

  predicate Modifier(lm: string) {
    lm == "" || lm == "h" || lm == "hh" || lm == "l" || lm == "ll" || lm == "j" || lm == "z" || lm == "t"
  }

  predicate Conversion(c: char) {
    || c == 'd' || c == 'i' || c == 'u' || c == 'x' || c == 'X' || c == 'o'
    || c == 'c' || c == 's' || c == 'p' || c == '%'
  }

  /** Each flag character stands for one flag, in any order and number. */
  function FlagsOf(fl: string): Flags {
    NO_FLAGS.(zero := '0' in fl, left := '-' in fl, plus := '+' in fl, space := ' ' in fl, hash := '#' in fl)
  }

  function WithFlags(f: Flags, fl: string): Flags {
    f.(zero := f.zero || '0' in fl, left := f.left || '-' in fl, plus := f.plus || '+' in fl,
       space := f.space || ' ' in fl, hash := f.hash || '#' in fl)
  }

  lemma {:induction false} FlagsRead(s: string, i: nat, fl: string, f: Flags)
    requires FlagChars(fl) && i + |fl| < |s| && s[i..i + |fl|] == fl && !IsFlag(s[i + |fl|])
    ensures ParseFlags(s, i, f) == (WithFlags(f, fl), i + |fl|)
    decreases |fl|
  {
    if fl != [] {
      assert s[i] == fl[0];
      assert s[i + 1..i + |fl|] == fl[1..];
      FlagsRead(s, i + 1, fl[1..], WithFlag(f, fl[0]));
      FlagsJoin(f, fl);
    }
  }

  lemma OneFlag(f: Flags, c: char)
    requires c == '0' || c == '-' || c == '+' || c == ' ' || c == '#'
    ensures WithFlag(f, c) == f.(zero := f.zero || c == '0', left := f.left || c == '-', plus := f.plus || c == '+',
                                 space := f.space || c == ' ', hash := f.hash || c == '#')
  {
    if c == '0' {
    } else if c == '-' {
    } else if c == '+' {
    } else if c == ' ' {
    } else {
    }
  }

  lemma FlagsJoin(f: Flags, fl: string)
    requires fl != [] && FlagChars(fl)
    ensures WithFlags(WithFlag(f, fl[0]), fl[1..]) == WithFlags(f, fl)
  {
    hide WithFlag;
    OneFlag(f, fl[0]);
    InRest('0', fl);
    InRest('-', fl);
    InRest('+', fl);
    InRest(' ', fl);
    InRest('#', fl);
  }

  lemma InRest(c: char, fl: string)
    requires fl != []
    ensures c in fl <==> c == fl[0] || c in fl[1..]
  {
    assert fl == [fl[0]] + fl[1..];
  }

  lemma {:induction false} WidthRead(s: string, i: nat, wd: string, n: nat)
    requires (forall k :: 0 <= k < |wd| ==> '0' <= wd[k] <= '9')
    requires i + |wd| < |s| && s[i..i + |wd|] == wd && !IsDigit(s[i + |wd|])
    ensures ParseNumber(s, i, n).1 == i + |wd|
    decreases |wd|
  {
    if wd != [] {
      assert s[i] == wd[0];
      assert s[i + 1..i + |wd|] == wd[1..];
      WidthRead(s, i + 1, wd[1..], (n * 10 + (s[i] as nat - '0' as nat)) % MOD32);
    }
  }

  lemma {:induction false} HornerStops(wd: string, rest: string, acc: nat)
    requires (forall k :: 0 <= k < |wd| ==> '0' <= wd[k] <= '9') && rest != [] && DigitValue(rest[0]) >= 10
    ensures Horner(wd + rest, 10, acc) == Horner(wd, 10, acc)
    decreases |wd|
  {
    if wd == [] {
      assert wd + rest == rest;
    } else {
      assert (wd + rest)[1..] == wd[1..] + rest;
      HornerStops(wd[1..], rest, acc * 10 + DigitValue(wd[0]));
    }
  }

  function Decimal(wd: string): nat {
    Horner(wd, 10, 0) % MOD32
  }

  /** The `int` that an argument is read as. */
  function Int32(num: int): int {
    var u := num % 0x1_0000_0000;
    if u < 0x8000_0000 then u else u - 0x1_0000_0000
  }

  /** A part of a format that no flag, number or star goes on into. */
  predicate Stops(t: string) {
    t != [] && !IsFlag(t[0]) && !IsDigit(t[0]) && t[0] != '*' && DigitValue(t[0]) >= 10
  }

  lemma FlagsLaw(s: string, fl: string, t: string)
    requires FlagChars(fl) && t != [] && !IsFlag(t[0]) && s == ['%'] + fl + t
    ensures ParseFlags(s, 1, NO_FLAGS) == (FlagsOf(fl), 1 + |fl|)
  {
    assert s[1..1 + |fl|] == fl && s[1 + |fl|] == t[0];
    FlagsRead(s, 1, fl, NO_FLAGS);
  }

  lemma NumberAt(s: string, i: nat, wd: string, t: string)
    requires i <= |s| && s[i..] == wd + t && DigitChars(wd) && Stops(t)
    ensures ParseNumber(s, i, 0) == (Decimal(wd), i + |wd|)
    ensures At(s, i) == (if wd == [] then t[0] else wd[0])
  {
    hide ParseNumber, Horner;
    assert s[i..i + |wd|] == s[i..][..|wd|] == wd;
    assert s[i + |wd|] == s[i..][|wd|] == t[0];
    WidthRead(s, i, wd, 0);
    FieldIsDecimal(s, i, 0);
    HornerStops(wd, t, 0);
  }

  /** The arguments that the stars of a directive use. */
  function Stars(w: Field, p: Option<Field>): nat {
    (if w.Star? then 1 else 0) + (if p.Some? && p.value.Star? then 1 else 0)
  }

  function WidthOf(w: Field, args: seq<Arg>): nat {
    var n := Int32(ArgAt(args, 0).num);
    if w.Digits? then Decimal(w.digits) else if n < 0 then -n else n
  }

  predicate LeftOf(fl: string, w: Field, args: seq<Arg>) {
    '-' in fl || (w.Star? && Int32(ArgAt(args, 0).num) < 0)
  }

  function PrecisionOf(w: Field, p: Option<Field>, args: seq<Arg>): nat {
    match p
    case None => 0
    case Some(Digits(pd)) => Decimal(pd)
    case Some(Star) => Max(Int32(ArgAt(args, if w.Star? then 1 else 0).num), 0)
  }

  lemma NoDecimal()
    ensures Decimal([]) == 0
  {
  }

  lemma DigitWidthLaw(s: string, i: nat, wd: string, t: string, f: Flags, args: seq<Arg>)
    requires i <= |s| && Stops(t) && DigitChars(wd) && s[i..] == wd + t
    ensures ParseWidth(s, Directive(f, 0, 0, i, 0), args) == Directive(f, Decimal(wd), 0, i + |wd|, 0)
  {
    hide ParseNumber, Decimal, DigitValue;
    NumberAt(s, i, wd, t);
    if wd == [] {
      NoDecimal();
    }
  }

  lemma ReadAsInt(num: int)
    ensures Signed(num, MOD32) == Int32(num)
  {
  }

  lemma StarWidthLaw(s: string, i: nat, t: string, f: Flags, args: seq<Arg>)
    requires i <= |s| && s[i..] == "*" + t
    ensures ParseWidth(s, Directive(f, 0, 0, i, 0), args)
         == Directive(f.(left := f.left || LeftOf("", Star, args)), WidthOf(Star, args), 0, i + 1, 1)
  {
    hide ParseNumber, Decimal, Signed, Int32;
    assert s[i] == s[i..][0];
    ReadAsInt(ArgAt(args, 0).num);
  }

  lemma WidthLaw(s: string, i: nat, w: Field, t: string, f: Flags, args: seq<Arg>)
    requires i <= |s| && Stops(t) && FieldWritten(w) && s[i..] == FieldChars(w) + t
    ensures ParseWidth(s, Directive(f, 0, 0, i, 0), args)
         == Directive(f.(left := f.left || LeftOf("", w, args)), WidthOf(w, args), 0, i + |FieldChars(w)|,
                      Stars(w, None))
  {
    hide ParseWidth, Decimal, Int32, Stops, DigitChars;
    match w
    case Digits(wd) => DigitWidthLaw(s, i, wd, t, f, args);
    case Star => StarWidthLaw(s, i, t, f, args);
  }

  lemma BehindDot(s: string, i: nat, u: string, t: string)
    requires i <= |s| && s[i..] == ("." + u) + t
    ensures i < |s| && s[i] == '.' && s[i + 1..] == u + t && (u + t != [] ==> At(s, i + 1) == (u + t)[0])
  {
    assert s[i + 1..] == s[i..][1..];
    assert s[i] == s[i..][0];
  }

  lemma PrecisionLaw(s: string, d: Directive, w: Field, p: Option<Field>, t: string, args: seq<Arg>)
    requires d.at <= |s| && Stops(t) && t[0] != '.' && d.precision == 0 && d.arg == Stars(w, None) && !d.flags.prec
    requires (p.Some? ==> FieldWritten(p.value)) && s[d.at..] == PrecisionChars(p) + t
    ensures ParsePrecision(s, d, args)
         == d.(flags := d.flags.(prec := p.Some?), precision := PrecisionOf(w, p, args),
               at := d.at + |PrecisionChars(p)|, arg := Stars(w, p))
  {
    hide ParseNumber, Decimal, DigitValue, Signed, Int32;
    ReadAsInt(ArgAt(args, d.arg).num);
    match p
    case None => assert s[d.at] == s[d.at..][0];
    case Some(Digits(pd)) =>
      BehindDot(s, d.at, pd, t);
      NumberAt(s, d.at + 1, pd, t);
      if pd == [] {
        NoDecimal();
      }
    case Some(Star) => BehindDot(s, d.at, "*", t);
  }

  function ModFlags(f: Flags, lm: string, long: nat): Flags {
    f.(short := f.short || lm == "h" || lm == "hh", char8 := f.char8 || lm == "hh",
       long := f.long || lm == "l" || lm == "ll" || lm == "z" || lm == "t" || (lm == "j" && long == MOD64),
       longLong := f.longLong || lm == "ll" || (lm == "j" && long != MOD64))
  }

  lemma LengthLaw(s: string, d: Directive, lm: string, c: char, long: nat)
    requires d.at <= |s| && s[d.at..] == lm + [c] && Modifier(lm) && Conversion(c)
    ensures ParseLength(s, d, long) == d.(flags := ModFlags(d.flags, lm, long), at := |s| - 1)
  {
    var t := lm + [c];
    assert At(s, d.at) == t[0] && (|lm| >= 1 ==> At(s, d.at + 1) == s[d.at..][1] == t[1]);
    if lm == "" {
    } else if lm == "h" || lm == "l" {
    } else if lm == "hh" || lm == "ll" {
    } else {
    }
  }

  lemma TailStops(lm: string, c: char)
    requires Modifier(lm) && Conversion(c)
    ensures Stops(lm + [c]) && (lm + [c])[0] != '.'
  {
  }

  // ----- whole directives -------------------------------------------------------------------

  /** The characters of a directive. */
  function Spec(fl: string, w: Field, p: Option<Field>, lm: string, c: char): string {
    ['%'] + fl + FieldChars(w) + PrecisionChars(p) + lm + [c]
  }

  /** A width is written without a leading zero, which would be a flag. */
  predicate Written(fl: string, w: Field, p: Option<Field>, lm: string, c: char) {
    && FlagChars(fl) && Modifier(lm) && Conversion(c)
    && FieldWritten(w) && (w.Digits? && w.digits != [] ==> w.digits[0] != '0')
    && (p.Some? ==> FieldWritten(p.value))
  }

  function Meant(fl: string, w: Field, p: Option<Field>, lm: string, args: seq<Arg>, long: nat, at: nat): Directive {
    Directive(ModFlags(FlagsOf(fl).(left := LeftOf(fl, w, args), prec := p.Some?), lm, long), WidthOf(w, args),
              PrecisionOf(w, p, args), at, Stars(w, p))
  }

  lemma Slices(a: string, b: string, c: string, d: string, e: string)
    ensures var s := a + b + c + d + e;
            && |s| == |a| + |b| + |c| + |d| + |e|
            && s == a + b + (c + (d + e)) && s[|a| + |b|..] == c + (d + e)
            && s[|a| + |b| + |c|..] == d + e && s[|a| + |b| + |c| + |d|..] == e
  {
    var s := a + b + c + d + e;
    assert s == a + b + (c + (d + e));
    assert s == a + b + c + (d + e);
  }

  lemma SpecParts(fl: string, w: Field, p: Option<Field>, lm: string, c: char)
    ensures var s := Spec(fl, w, p, lm, c);
            var ws, ps := FieldChars(w), PrecisionChars(p);
            && |s| == 1 + |fl| + |ws| + |ps| + |lm| + 1 && s[0] == '%' && s[|s| - 1] == c
            && s == ['%'] + fl + (ws + (ps + (lm + [c])))
            && s[1 + |fl|..] == ws + (ps + (lm + [c]))
            && s[1 + |fl| + |ws|..] == ps + (lm + [c])
            && s[1 + |fl| + |ws| + |ps|..] == lm + [c]
  {
    hide FieldChars, PrecisionChars;
    var ws, ps := FieldChars(w), PrecisionChars(p);
    Slices(['%'], fl, ws, ps, lm + [c]);
    assert Spec(fl, w, p, lm, c) == ['%'] + fl + ws + ps + (lm + [c]);
  }

  lemma PartsStop(w: Field, p: Option<Field>, lm: string, c: char)
    requires Modifier(lm) && Conversion(c) && (w.Digits? && w.digits != [] ==> w.digits[0] != '0')
    requires FieldWritten(w)
    ensures Stops(PrecisionChars(p) + (lm + [c]))
    ensures var t := FieldChars(w) + (PrecisionChars(p) + (lm + [c])); t != [] && !IsFlag(t[0])
  {
    TailStops(lm, c);
    hide Modifier, Conversion;
  }

  /** Width and precision, with the arguments of their stars. */
  lemma FieldsLaw(s: string, i: nat, w: Field, p: Option<Field>, t: string, f: Flags, args: seq<Arg>)
    requires i + |FieldChars(w)| <= |s| && Stops(t) && t != [] && t[0] != '.' && Stops(PrecisionChars(p) + t) && !f.prec
    requires s[i..] == FieldChars(w) + (PrecisionChars(p) + t)
    requires s[i + |FieldChars(w)|..] == PrecisionChars(p) + t
    requires FieldWritten(w) && (p.Some? ==> FieldWritten(p.value))
    ensures ParsePrecision(s, ParseWidth(s, Directive(f, 0, 0, i, 0), args), args)
         == Directive(f.(left := f.left || LeftOf("", w, args), prec := p.Some?), WidthOf(w, args),
                      PrecisionOf(w, p, args), i + |FieldChars(w)| + |PrecisionChars(p)|, Stars(w, p))
  {
    hide ParseWidth, ParsePrecision, Decimal, Int32, Stops, FieldWritten, FieldChars, PrecisionChars, WidthOf,
      PrecisionOf, Stars, LeftOf;
    WidthLaw(s, i, w, PrecisionChars(p) + t, f, args);
    var d := ParseWidth(s, Directive(f, 0, 0, i, 0), args);
    PrecisionLaw(s, d, w, p, t, args);
  }

  lemma ParseLaw(fl: string, w: Field, p: Option<Field>, lm: string, c: char, args: seq<Arg>, long: nat)
    requires Written(fl, w, p, lm, c)
    ensures var s := Spec(fl, w, p, lm, c);
            Parse(s, 1, args, 0, long) == Meant(fl, w, p, lm, args, long, |s| - 1)
  {
    hide Spec, ParseFlags, ParseWidth, ParsePrecision, ParseLength, ModFlags, Modifier, Conversion, Stops, FlagChars,
      FieldWritten, WidthOf, PrecisionOf, Stars, FieldChars, PrecisionChars;
    var s := Spec(fl, w, p, lm, c);
    var f := FlagsOf(fl);
    var ws, ps := FieldChars(w), PrecisionChars(p);
    SpecParts(fl, w, p, lm, c);
    PartsStop(w, p, lm, c);
    TailStops(lm, c);
    FlagsLaw(s, fl, ws + (ps + (lm + [c])));
    FieldsLaw(s, 1 + |fl|, w, p, lm + [c], f, args);
    LengthLaw(s, ParsePrecision(s, ParseWidth(s, Directive(f, 0, 0, 1 + |fl|, 0), args), args), lm, c, long);
  }

  /** The text of a directive on its own is what its conversion prints for the argument behind those of its stars. */
  lemma AloneLaw(fl: string, w: Field, p: Option<Field>, lm: string, c: char, args: seq<Arg>, long: nat)
    requires Written(fl, w, p, lm, c) && (long == MOD32 || long == MOD64)
    ensures var s := Spec(fl, w, p, lm, c);
            && Complete(s, 0, args, 0, long)
            && Text(s, 0, args, 0, long)
               == DirectiveText(c, Meant(fl, w, p, lm, args, long, |s| - 1), ArgAt(args, Stars(w, p)), long)
  {
    hide DirectiveText, Parse, ModFlags, FlagsOf, WidthOf, PrecisionOf, LeftOf, Stars, ArgsUsed, FieldWritten, Spec,
      FieldChars, PrecisionChars;
    var s := Spec(fl, w, p, lm, c);
    ParseLaw(fl, w, p, lm, c, args, long);
    SpecParts(fl, w, p, lm, c);
    NotFloat(c);
    var d := Parse(s, 1, args, 0, long);
    assert Complete(s, |s|, args, d.arg + ArgsUsed(c), long);
    CompleteBefore(s, 0, args, 0, long, d);
    TextStep(s, 0, args, 0, long, d);
  }

  lemma NotFloat(c: char)
    requires Conversion(c)
    ensures !IsFloat(c)
  {
  }

  /** The number of values of the type a length modifier names; `long` is that of an `unsigned long`. */
  function Values(lm: string, long: nat): nat {
    if lm == "hh" then 0x100
    else if lm == "h" then 0x1_0000
    else if lm == "" then 0x1_0000_0000
    else if lm == "ll" || lm == "j" then 0x1_0000_0000_0000_0000
    else long
  }

  /**
   An integer conversion reads `v` from an argument: `v` is in the range of the modifier's type and
   equal to the argument modulo its number of values.  Plain `char` has no sign.
   */
  predicate Reads(lm: string, signed: bool, num: int, long: nat, v: int)
    requires long == MOD32 || long == MOD64
  {
    var m := Values(lm, long);
    var low := if signed && lm != "hh" then -(m / 2) else 0;
    low <= v < low + m && m > 0 && (num - v) % m == 0
  }

  lemma ReadsOne(m: nat, low: int, num: int, v: int, u: int, k: int, j: int)
    requires m > 0 && low <= v < low + m && low <= u < low + m && num == v + k * m && num == u + j * m
    ensures v == u
  {
    Spread(j, k, m);
    Spread(k, j, m);
  }

  lemma Spread(j: int, k: int, m: nat)
    ensures j < k ==> j * m + m <= k * m
  {
    if j < k {
      var d := k - j;
      assert k * m == j * m + d * m && (d - 1) * m >= 0 && d * m == (d - 1) * m + m;
    }
  }

  lemma WrapReads(num: int, m: nat)
    requires m == 0x100 || m == 0x1_0000 || m == MOD32 || m == MOD64
    ensures 0 <= Unsigned(num, m) < m && num == Unsigned(num, m) + num / m * m
    ensures -(m / 2) <= Signed(num, m) < m - m / 2
    ensures num == Signed(num, m) + num / m * m || num == Signed(num, m) + (num / m + 1) * m
  {
  }

  /** The value that is printed is the one that is read. */
  lemma ValueIsRead(c: char, f: Flags, lm: string, num: int, long: nat, v: int)
    requires NoLength(f) && IsInteger(c) && Modifier(lm) && (long == MOD32 || long == MOD64)
    requires Reads(lm, c == 'd' || c == 'i', num, long, v)
    ensures IntegerValue(c, ModFlags(f, lm, long), num, long) == v
  {
    var m := Values(lm, long);
    var signed := (c == 'd' || c == 'i') && lm != "hh";
    var k := (num - v) / m;
    assert num - v == k * m + (num - v) % m;
    ValueByType(c, f, lm, num, long);
    hide IntegerValue, ModFlags, Signed, Unsigned;
    WrapReads(num, m);
    var u := if signed then Signed(num, m) else Unsigned(num, m);
    var low := if signed then -(m / 2) else 0;
    if num == u + num / m * m {
      ReadsOne(m, low, num, v, u, k, num / m);
    } else {
      ReadsOne(m, low, num, v, u, k, num / m + 1);
    }
  }

  predicate NoLength(f: Flags) {
    !f.short && !f.char8 && !f.long && !f.longLong
  }

  /** The number of values of the type that the flags name. */
  function FlagValues(f: Flags, long: nat): nat {
    if f.longLong then MOD64 else if f.long then long else if f.char8 then MOD8 else if f.short then MOD16 else MOD32
  }

  lemma ShortFlags(f: Flags, lm: string, long: nat)
    requires NoLength(f) && (lm == "" || lm == "h" || lm == "hh") && (long == MOD32 || long == MOD64)
    ensures var g := ModFlags(f, lm, long);
            && FlagValues(g, long) == Values(lm, long) && !g.long && !g.longLong && (g.char8 <==> lm == "hh")
  {
  }

  lemma LongFlags(f: Flags, lm: string, long: nat)
    requires NoLength(f) && (lm == "l" || lm == "ll" || lm == "j" || lm == "z" || lm == "t")
    requires long == MOD32 || long == MOD64
    ensures var g := ModFlags(f, lm, long);
            && FlagValues(g, long) == Values(lm, long) && (g.long || g.longLong) && lm != "hh"
  {
    if lm == "l" {
    } else if lm == "ll" {
    } else if lm == "j" {
    } else {
    }
  }

  lemma LengthFlags(f: Flags, lm: string, long: nat)
    requires NoLength(f) && Modifier(lm) && (long == MOD32 || long == MOD64)
    ensures var g := ModFlags(f, lm, long);
            && FlagValues(g, long) == Values(lm, long) && ((g.char8 && !g.long && !g.longLong) <==> lm == "hh")
  {
    hide ModFlags, FlagValues, Values;
    if lm == "" || lm == "h" || lm == "hh" {
      ShortFlags(f, lm, long);
    } else {
      LongFlags(f, lm, long);
    }
  }

  lemma ValueByFlags(c: char, f: Flags, num: int, long: nat)
    requires long == MOD32 || long == MOD64
    ensures IntegerValue(c, f, num, long)
         == if IsSigned(c) && !(f.char8 && !f.long && !f.longLong) then Signed(num, FlagValues(f, long))
            else Unsigned(num, FlagValues(f, long))
  {
    hide Signed, Unsigned;
  }

  lemma ValueByType(c: char, f: Flags, lm: string, num: int, long: nat)
    requires NoLength(f) && Modifier(lm) && (long == MOD32 || long == MOD64)
    ensures IntegerValue(c, ModFlags(f, lm, long), num, long)
         == if (c == 'd' || c == 'i') && lm != "hh" then Signed(num, Values(lm, long))
            else Unsigned(num, Values(lm, long))
  {
    hide Signed, Unsigned, IntegerValue, ModFlags, Values, FlagValues, Modifier;
    LengthFlags(f, lm, long);
    ValueByFlags(c, ModFlags(f, lm, long), num, long);
  }

  /**
   An integer directive: the argument, read in the modifier's type, in base 16 for 'x' and 'X', 8 for 'o' and
   10 for 'd', 'i' and 'u'; capitals for 'X' alone; a sign for 'd' and 'i' alone; to the left for '-' or a
   negative star; filled with zeros for '0' unless there is a precision, which asks for digits.
   */
  lemma IntegerLaw(fl: string, w: Field, p: Option<Field>, lm: string, c: char, args: seq<Arg>, long: nat, v: int)
    requires Written(fl, w, p, lm, c) && (long == MOD32 || long == MOD64)
    requires c == 'd' || c == 'i' || c == 'u' || c == 'x' || c == 'X' || c == 'o'
    requires '#' !in fl || c == 'd' || c == 'i' || c == 'u'
    requires !LeftOf(fl, w, args) ==> if p.Some? then PrecisionOf(w, p, args) <= 31 else '0' in fl ==>
             WidthOf(w, args) <= 32
    requires Reads(lm, c == 'd' || c == 'i', ArgAt(args, Stars(w, p)).num, long, v)
    ensures Complete(Spec(fl, w, p, lm, c), 0, args, 0, long)
    ensures var signed := c == 'd' || c == 'i';
            var base := if c == 'x' || c == 'X' then 16 else if c == 'o' then 8 else 10;
            var n := if v < 0 then -v else v;
            var left := LeftOf(fl, w, args);
            Text(Spec(fl, w, p, lm, c), 0, args, 0, long)
            == Layout(Sign(v < 0, signed && '+' in fl, signed && ' ' in fl),
                      if p.Some? then PaddedNumeral(n, base, c == 'X', PrecisionOf(w, p, args), left)
                      else Numeral(n, base, c == 'X'),
                      WidthOf(w, args), '0' in fl && p.None?, left)
  {
    hide Text, Complete, Spec, NumberText, Layout, Numeral, PaddedNumeral, Sign, Reads, WidthOf, LeftOf, ModFlags,
      IntegerFlags, FieldText, IntegerValue, StringPart, FieldWritten, Stars;
    AloneLaw(fl, w, p, lm, c, args, long);
    var f := FlagsOf(fl).(left := LeftOf(fl, w, args), prec := p.Some?);
    var num := ArgAt(args, Stars(w, p)).num;
    KeptFlags(c, f, lm, long);
    ValueIsRead(c, f, lm, num, long, v);
    ReadsRange(lm, c == 'd' || c == 'i', num, long, v);
    var g := IntegerFlags(c, ModFlags(f, lm, long));
    if p.Some? {
      PrecisionNumber(if v < 0 then -v else v, v < 0, BaseOf(c), PrecisionOf(w, p, args), WidthOf(w, args), g);
    } else {
      NumberLaw(if v < 0 then -v else v, v < 0, BaseOf(c), WidthOf(w, args), g);
    }
  }

  lemma ReadsRange(lm: string, signed: bool, num: int, long: nat, v: int)
    requires (long == MOD32 || long == MOD64) && Reads(lm, signed, num, long, v)
    ensures -MOD64 < v < MOD64
  {
  }

  /** A length modifier touches none of the flags that lay out the field. */
  lemma ModKeeps(f: Flags, lm: string, long: nat)
    ensures var g := ModFlags(f, lm, long);
            && g.zero == f.zero && g.left == f.left && g.plus == f.plus && g.space == f.space && g.hash == f.hash
            && g.prec == f.prec && g.upper == f.upper
  {
  }

  lemma KeptFlags(c: char, f: Flags, lm: string, long: nat)
    requires c == 'd' || c == 'i' || c == 'u' || c == 'x' || c == 'X' || c == 'o'
    requires !f.upper
    ensures var g := IntegerFlags(c, ModFlags(f, lm, long));
            var signed := c == 'd' || c == 'i';
            && g.hash == (f.hash && c != 'd' && c != 'i' && c != 'u') && g.prec == f.prec
            && g.zero == (f.zero && !f.prec) && g.left == f.left && g.upper == (c == 'X')
            && g.plus == (signed && f.plus) && g.space == (signed && f.space)
  {
    ModKeeps(f, lm, long);
    hide ModFlags;
  }

  /** A string in a field: to the left for '-' or a negative star. */
  function InField(t: string, width: nat, left: bool): string {
    if left then t + Repeat(' ', width - |t|) else Repeat(' ', width - |t|) + t
  }

  /** `%c` prints the argument's low byte in its field. */
  lemma CharLaw(fl: string, w: Field, p: Option<Field>, lm: string, args: seq<Arg>, long: nat)
    requires Written(fl, w, p, lm, 'c') && (long == MOD32 || long == MOD64)
    ensures Complete(Spec(fl, w, p, lm, 'c'), 0, args, 0, long)
    ensures Text(Spec(fl, w, p, lm, 'c'), 0, args, 0, long)
         == InField([(ArgAt(args, Stars(w, p)).num % 256) as char], WidthOf(w, args), LeftOf(fl, w, args))
  {
    hide Text, Complete, Spec, Repeat, WidthOf, LeftOf, PrecisionOf, ModFlags, NumberText, FieldWritten, Stars;
    AloneLaw(fl, w, p, lm, 'c', args, long);
    ModKeeps(FlagsOf(fl).(left := LeftOf(fl, w, args), prec := p.Some?), lm, long);
  }

  /** `%s` prints the argument's string in its field, at most as many characters as the precision says. */
  lemma StringLaw(fl: string, w: Field, p: Option<Field>, lm: string, args: seq<Arg>, long: nat)
    requires Written(fl, w, p, lm, 's') && (long == MOD32 || long == MOD64)
    requires |ArgAt(args, Stars(w, p)).str| < MOD32
    ensures Complete(Spec(fl, w, p, lm, 's'), 0, args, 0, long)
    ensures var t := ArgAt(args, Stars(w, p)).str;
            var n := if p.Some? then Min(PrecisionOf(w, p, args), |t|) else |t|;
            Text(Spec(fl, w, p, lm, 's'), 0, args, 0, long) == InField(t[..n], WidthOf(w, args), LeftOf(fl, w, args))
  {
    hide Text, Complete, Spec, Repeat, WidthOf, LeftOf, PrecisionOf, ModFlags, NumberText, FieldWritten, Stars;
    AloneLaw(fl, w, p, lm, 's', args, long);
    ModKeeps(FlagsOf(fl).(left := LeftOf(fl, w, args), prec := p.Some?), lm, long);
    var t := ArgAt(args, Stars(w, p)).str;
    assert t[..|t|] == t;
  }

  /** `%p` prints the argument in capital hexadecimal with leading zeros for all its digits. */
  lemma PointerLaw(fl: string, w: Field, lm: string, args: seq<Arg>, long: nat)
    requires Written(fl, w, None, lm, 'p') && (long == MOD32 || long == MOD64) && '#' !in fl
    ensures Complete(Spec(fl, w, None, lm, 'p'), 0, args, 0, long)
    ensures Text(Spec(fl, w, None, lm, 'p'), 0, args, 0, long)
         == Layout(Sign(false, '+' in fl, ' ' in fl), Numeral(ArgAt(args, Stars(w, None)).num % long, 16, true),
                   if long == MOD64 then 16 else 8, true, LeftOf(fl, w, args))
  {
    hide Text, Complete, Spec, NumberText, Layout, Numeral, Sign, WidthOf, LeftOf, ModFlags, FieldText, StringPart,
      FieldWritten, Stars;
    AloneLaw(fl, w, None, lm, 'p', args, long);
    var g := FlagsOf(fl).(left := LeftOf(fl, w, args), prec := false);
    ModKeeps(g, lm, long);
    var f := ModFlags(g, lm, long);
    NumberLaw(ArgAt(args, Stars(w, None)).num % long, false, 16, if long == MOD64 then 16 else 8,
              f.(zero := true, upper := true));
  }

  /** `%%` prints a percent sign. */
  lemma PercentLaw(fl: string, w: Field, p: Option<Field>, lm: string, args: seq<Arg>, long: nat)
    requires Written(fl, w, p, lm, '%') && (long == MOD32 || long == MOD64)
    ensures Complete(Spec(fl, w, p, lm, '%'), 0, args, 0, long)
    ensures Text(Spec(fl, w, p, lm, '%'), 0, args, 0, long) == "%"
  {
    hide Text, Complete, Spec, NumberText, Meant;
    AloneLaw(fl, w, p, lm, '%', args, long);
  }
}
