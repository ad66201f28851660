/**
 Printed integers read back: a reader that knows nothing of the digit buffer gets the value that
 was printed, exactly when the digits and the sign fit in that buffer.
 */
module FormatNumber {

  import opened Common
  import opened Format

  function Pow(base: nat, n: nat): nat
    decreases n, base
  {
    if n == 0 then 1 else base * Pow(base, n - 1)
  }

  // ----- the reader -------------------------------------------------------------------------

  function DigitValue(c: char): nat {
    if '0' <= c <= '9' then c as nat - '0' as nat
    else if 'a' <= c <= 'f' then c as nat - 'a' as nat + 10
    else if 'A' <= c <= 'F' then c as nat - 'A' as nat + 10
    else 16
  }

  /** The number that the leading digits of `t` continue from `acc`. */
  function Horner(t: string, base: nat, acc: nat): nat {
    if t == [] || DigitValue(t[0]) >= base then acc else Horner(t[1..], base, acc * base + DigitValue(t[0]))
  }

  function SkipSpaces(t: string): string {
    if t != [] && t[0] == ' ' then SkipSpaces(t[1..]) else t
  }

  /** Leading spaces, an optional sign and digits, as strtoul reads them: the sign and the magnitude. */
  function Scan(t: string, base: nat): (bool, nat) {
    var u := SkipSpaces(t);
    if u != [] && (u[0] == '-' || u[0] == '+') then (u[0] == '-', Horner(u[1..], base, 0))
    else (false, Horner(u, base, 0))
  }

  // ----- digits -----------------------------------------------------------------------------

  /** The value of digits stored lowest first. */
  function Value(s: string, base: nat): nat {
    if s == [] then 0 else DigitValue(s[0]) + base * Value(s[1..], base)
  }

  predicate AllDigits(s: string, base: nat) {
    forall k :: 0 <= k < |s| ==> DigitValue(s[k]) < base
  }

  lemma RestSplit(v: nat, base: nat)
    requires IsBase(base)
    ensures v == Rest(v, base) * base + LowDigit(v, base)
  {
  }

  lemma DigitRound(d: nat, upper: bool)
    requires d < 16
    ensures DigitValue(Digit(d, upper)) == d
  {
  }

  lemma {:induction false} DigitsAll(v: nat, base: nat, upper: bool, room: nat)
    requires IsBase(base) && room > 0
    ensures AllDigits(RevDigits(v, base, upper, room), base)
    decreases room
  {
    hide Rest, LowDigit, Digit, DigitValue;
    DigitRound(LowDigit(v, base), upper);
    if Rest(v, base) != 0 && room > 1 {
      DigitsAll(Rest(v, base), base, upper, room - 1);
    }
  }

  /** A low digit put below the digits of the rest. */
  lemma ValueOn(v: nat, base: nat, upper: bool, t: string)
    requires IsBase(base) && Value(t, base) == Rest(v, base)
    ensures Value([Digit(LowDigit(v, base), upper)] + t, base) == v
  {
    hide Rest, LowDigit, Digit, DigitValue;
    var s := [Digit(LowDigit(v, base), upper)] + t;
    assert s[1..] == t;
    DigitRound(LowDigit(v, base), upper);
    RestSplit(v, base);
  }

  /** Room for enough digits: the stored digits are those of the value. */
  lemma {:induction false} DigitsValue(v: nat, base: nat, upper: bool, room: nat)
    requires IsBase(base) && room > 0 && v < Pow(base, room)
    ensures Value(RevDigits(v, base, upper, room), base) == v
    decreases room
  {
    hide Rest, LowDigit, Digit, DigitValue, Pow, Value;
    RestBelow(v, base, room - 1);
    if Rest(v, base) != 0 && room > 1 {
      DigitsValue(Rest(v, base), base, upper, room - 1);
      ValueOn(v, base, upper, RevDigits(Rest(v, base), base, upper, room - 1));
    } else {
      NoDigits(base);
      ValueOn(v, base, upper, []);
    }
  }

  lemma NoDigits(base: nat)
    ensures Pow(base, 0) == 1 && Value([], base) == 0
  {
  }

  lemma RestBelow(v: nat, base: nat, n: nat)
    requires IsBase(base)
    ensures v < Pow(base, n + 1) <==> Rest(v, base) < Pow(base, n)
  {
    RestSplit(v, base);
    if base == 2 {
    } else if base == 8 {
    } else if base == 10 {
    } else {
    }
  }

  /** The number of digits: at most `n` exactly when the value is below `base` to the `n`. */
  lemma {:induction false} DigitCount(v: nat, base: nat, upper: bool, room: nat, n: nat)
    requires IsBase(base) && 1 <= n < room
    ensures |RevDigits(v, base, upper, room)| <= n <==> v < Pow(base, n)
    decreases n
  {
    RestBelow(v, base, n - 1);
    if Rest(v, base) == 0 {
      PowPositive(base, n - 1);
    } else if n > 1 {
      DigitCount(Rest(v, base), base, upper, room - 1, n - 1);
    }
  }

  lemma PowPositive(base: nat, n: nat)
    requires base > 0
    ensures Pow(base, n) > 0
  {
    if n > 0 {
      PowPositive(base, n - 1);
      assert base * Pow(base, n - 1) >= 1 * Pow(base, n - 1);
    }
  }

  lemma {:induction false} ValueBelow(s: string, base: nat)
    requires IsBase(base) && AllDigits(s, base)
    ensures Value(s, base) < Pow(base, |s|)
  {
    if s != [] {
      ValueBelow(s[1..], base);
    }
  }

  lemma {:induction false} PadKeepsValue(s: string, base: nat, n: int)
    requires AllDigits(s, base) && IsBase(base)
    ensures Value(s + Repeat('0', n), base) == Value(s, base) && AllDigits(s + Repeat('0', n), base)
    decreases Max(n, 0)
  {
    if n <= 0 {
      assert s + Repeat('0', n) == s;
    } else {
      PadKeepsValue(s, base, n - 1);
      ZeroOnTop(s + Repeat('0', n - 1), base);
      assert s + Repeat('0', n) == s + Repeat('0', n - 1) + ['0'];
    }
  }

  lemma {:induction false} ZeroOnTop(s: string, base: nat)
    ensures Value(s + ['0'], base) == Value(s, base)
  {
    if s == [] {
      assert (s + ['0'])[1..] == [];
    } else {
      ZeroOnTop(s[1..], base);
      assert (s + ['0'])[1..] == s[1..] + ['0'];
    }
  }

  // ----- reading the printed text -----------------------------------------------------------

  lemma {:induction false} ReadReversed(s: string, tail: string, base: nat)
    requires AllDigits(s, base)
    ensures Horner(Reverse(s) + tail, base, 0) == Horner(tail, base, Value(s, base))
  {
    if s == [] {
      assert Reverse(s) + tail == tail;
    } else {
      ReadReversed(s[1..], [s[0]] + tail, base);
      assert Reverse(s) + tail == Reverse(s[1..]) + ([s[0]] + tail);
      assert ([s[0]] + tail)[1..] == tail;
    }
  }

  lemma {:induction false} SkipPad(n: int, t: string)
    ensures SkipSpaces(Repeat(' ', n) + t) == SkipSpaces(t)
    decreases Max(n, 0)
  {
    if n <= 0 {
      assert Repeat(' ', n) + t == t;
    } else {
      SkipPad(n - 1, [' '] + t);
      assert Repeat(' ', n) + t == Repeat(' ', n - 1) + ([' '] + t);
      assert ([' '] + t)[1..] == t;
    }
  }

  lemma PadFirst(n: int)
    ensures n > 0 ==> Repeat(' ', n)[0] == ' '
  {
    if n > 1 {
      PadFirst(n - 1);
    }
  }

  lemma {:induction false} ReversePush(s: string, c: char)
    ensures Reverse(s + [c]) == [c] + Reverse(s)
  {
    if s == [] {
      assert (s + [c])[1..] == [];
    } else {
      ReversePush(s[1..], c);
      assert (s + [c])[1..] == s[1..] + [c];
    }
  }

  lemma {:induction false} FirstOfReversed(s: string)
    requires s != []
    ensures Reverse(s)[0] == s[|s| - 1]
  {
    if |s| > 1 {
      FirstOfReversed(s[1..]);
    }
  }

  predicate IsMark(mark: string) {
    mark == [] || mark == ['-'] || mark == ['+'] || mark == [' ']
  }

  lemma ReadDigits(s: string, right: int, base: nat)
    requires s != [] && AllDigits(s, base) && IsBase(base)
    ensures var t := Reverse(s) + Repeat(' ', right);
            Horner(t, base, 0) == Value(s, base) && DigitValue(t[0]) < base
  {
    ReadReversed(s, Repeat(' ', right), base);
    FirstOfReversed(s);
    PadFirst(right);
  }

  lemma ScanMarked(mark: string, digits: string, base: nat)
    requires IsMark(mark) && digits != [] && DigitValue(digits[0]) < base && IsBase(base)
    ensures Scan(mark + digits, base) == (mark == ['-'], Horner(digits, base, 0))
  {
    assert SkipSpaces(digits) == digits;
    if mark == [] {
      assert mark + digits == digits;
    } else {
      assert (mark + digits)[1..] == digits;
    }
  }

  lemma ReverseMarked(s: string, mark: string)
    requires IsMark(mark)
    ensures Reverse(s + mark) == mark + Reverse(s)
  {
    if mark == [] {
      assert s + mark == s;
    } else {
      ReversePush(s, mark[0]);
    }
  }

  lemma ScanPadded(left: int, t: string, base: nat)
    ensures Scan(Repeat(' ', left) + t, base) == Scan(t, base)
  {
    SkipPad(left, t);
  }

  /** Digits, lowest first, that are printed behind spaces and an optional sign character. */
  lemma ScanPrinted(s: string, mark: string, left: int, right: int, base: nat)
    requires s != [] && AllDigits(s, base) && IsBase(base) && IsMark(mark)
    ensures Scan(Repeat(' ', left) + Reverse(s + mark) + Repeat(' ', right), base)
         == (mark == ['-'], Value(s, base))
  {
    hide *;
    var tail := Repeat(' ', right);
    ReadDigits(s, right, base);
    ScanMarked(mark, Reverse(s) + tail, base);
    ReverseMarked(s, mark);
    ScanPadded(left, mark + (Reverse(s) + tail), base);
    assert Repeat(' ', left) + Reverse(s + mark) + tail == Repeat(' ', left) + (mark + (Reverse(s) + tail));
  }

  // ----- the printed number -----------------------------------------------------------------

  /** The number of zeros put in front of the digits. */
  function Zeros(n: nat, width: nat, f: Flags): int {
    if f.left || !f.zero then 0 else Min(width, NTOA_SIZE) - n
  }

  /** The sign character, which is dropped when the digit buffer is full. */
  function Mark(n: int, f: Flags, negative: bool): (m: string)
    ensures IsMark(m) && (m == ['-'] <==> negative && n < NTOA_SIZE)
  {
    if n >= NTOA_SIZE then [] else if negative then ['-'] else if f.plus then ['+'] else if f.space then [' '] else []
  }

  lemma BodyShape(digits: string, negative: bool, base: nat, width: nat, f: Flags)
    requires 1 <= |digits| <= NTOA_SIZE && !f.hash
    ensures var z := Zeros(|digits|, width, f);
            NumberBody(digits, negative, base, 0, width, f)
            == (digits + Repeat('0', z)) + Mark(|digits| + Max(z, 0), f, negative)
  {
    assert ZeroPad(digits, 0) == digits;
  }

  lemma TextShape(v: nat, negative: bool, base: nat, width: nat, f: Flags, digits: string)
    requires IsBase(base) && !f.hash && !f.prec && digits == RevDigits(v, base, f.upper, NTOA_SIZE)
    ensures var w := DigitWidth(width, f, negative);
            var z := Zeros(|digits|, w, f);
            var b := (digits + Repeat('0', z)) + Mark(|digits| + Max(z, 0), f, negative);
            NumberText(v, negative, base, 0, width, f)
            == Repeat(' ', if f.left || f.zero then 0 else w - |b|) + Reverse(b)
               + Repeat(' ', if f.left then w - |b| else 0)
  {
    var w := DigitWidth(width, f, negative);
    assert NumberFlags(v, f) == f;
    BodyShape(digits, negative, base, w, f);
  }

  /** What is read back: the stored digits, and the sign unless it was dropped. */
  lemma ScanText(v: nat, negative: bool, base: nat, width: nat, f: Flags, digits: string)
    requires IsBase(base) && !f.hash && !f.prec && digits == RevDigits(v, base, f.upper, NTOA_SIZE)
    ensures var z := Zeros(|digits|, DigitWidth(width, f, negative), f);
            Scan(NumberText(v, negative, base, 0, width, f), base)
            == (negative && |digits| + Max(z, 0) < NTOA_SIZE, Value(digits, base))
  {
    hide *;
    var w := DigitWidth(width, f, negative);
    var z := Zeros(|digits|, w, f);
    var mark := Mark(|digits| + Max(z, 0), f, negative);
    var b := (digits + Repeat('0', z)) + mark;
    TextShape(v, negative, base, width, f, digits);
    DigitsAll(v, base, f.upper, NTOA_SIZE);
    PadKeepsValue(digits, base, z);
    ScanPrinted(digits + Repeat('0', z), mark, if f.left || f.zero then 0 else w - |b|,
                if f.left then w - |b| else 0, base);
  }

  lemma {:induction false} PowGrows(base: nat, m: nat, n: nat)
    requires IsBase(base) && m <= n
    ensures Pow(base, m) <= Pow(base, n)
    decreases n
  {
    if m < n {
      PowGrows(base, m, n - 1);
      assert 1 * Pow(base, n - 1) <= base * Pow(base, n - 1);
    }
  }

  /** The digits fit in the buffer, and so does the sign of a negative number. */
  predicate Fits(v: nat, negative: bool, base: nat, width: nat, f: Flags) {
    && v < Pow(base, NTOA_SIZE)
    && (negative ==> v < Pow(base, NTOA_SIZE - 1) && (f.zero && !f.left ==> width <= NTOA_SIZE))
  }

  lemma ValueExact(v: nat, base: nat, upper: bool)
    requires IsBase(base)
    ensures Value(RevDigits(v, base, upper, NTOA_SIZE), base) == v <==> v < Pow(base, NTOA_SIZE)
  {
    var digits := RevDigits(v, base, upper, NTOA_SIZE);
    hide *;
    DigitsAll(v, base, upper, NTOA_SIZE);
    if v < Pow(base, NTOA_SIZE) {
      DigitsValue(v, base, upper, NTOA_SIZE);
    }
    ValueBelow(digits, base);
    PowGrows(base, |digits|, NTOA_SIZE);
  }

  /**
   A number printed without precision and alternate form reads back with its sign and its
   magnitude if and only if it fits; otherwise high digits or the sign are lost.
   */
  lemma PrintsBackIff(v: nat, negative: bool, base: nat, width: nat, f: Flags)
    requires IsBase(base) && !f.hash && !f.prec
    ensures Scan(NumberText(v, negative, base, 0, width, f), base) == (negative, v)
            <==> Fits(v, negative, base, width, f)
  {
    hide NumberText, RevDigits, Pow, Scan, Value;
    var digits := RevDigits(v, base, f.upper, NTOA_SIZE);
    ScanText(v, negative, base, width, f, digits);
    ValueExact(v, base, f.upper);
    DigitCount(v, base, f.upper, NTOA_SIZE, NTOA_SIZE - 1);
  }

  /** A negative number zero-padded to 33 characters prints without its sign. */
  lemma SignLost()
    ensures Scan(NumberText(5, true, 10, 0, 33, NO_FLAGS.(zero := true)), 10) == (false, 5)
  {
    var f := NO_FLAGS.(zero := true);
    var digits := RevDigits(5, 10, false, NTOA_SIZE);
    NoDigits(10);
    ValueOn(5, 10, false, []);
    assert digits == [Digit(5, false)];
    hide NumberText, Scan, RevDigits;
    ScanText(5, true, 10, 33, f, digits);
  }

  /** The number of digits a value has in the buffer. */
  function DigitsShown(v: nat, base: nat): nat
    requires IsBase(base)
  {
    |RevDigits(v, base, false, NTOA_SIZE)|
  }

  lemma {:induction false} SameLength(v: nat, base: nat, room: nat)
    requires IsBase(base) && room > 0
    ensures |RevDigits(v, base, true, room)| == |RevDigits(v, base, false, room)|
    decreases room
  {
    if room > 1 {
      SameLength(Rest(v, base), base, room - 1);
    }
  }

  /** The field width is met exactly, unless digits and sign need more. */
  lemma PrintedLength(v: nat, negative: bool, base: nat, width: nat, f: Flags)
    requires IsBase(base) && !f.hash && !f.prec
    requires v < Pow(base, NTOA_SIZE - 1) && (f.zero && !f.left ==> width <= NTOA_SIZE)
    ensures |NumberText(v, negative, base, 0, width, f)|
         == Max(width, DigitsShown(v, base) + (if HasSign(f, negative) then 1 else 0))
  {
    hide NumberText, RevDigits, Pow;
    var digits := RevDigits(v, base, f.upper, NTOA_SIZE);
    SameLength(v, base, NTOA_SIZE);
    DigitCount(v, base, f.upper, NTOA_SIZE, NTOA_SIZE - 1);
    TextShape(v, negative, base, width, f, digits);
  }

  lemma {:induction false} PowDouble(base: nat, n: nat)
    requires IsBase(base) && base != 2
    ensures Pow(base, n) >= Pow(8, n) >= 0
  {
    if n > 0 {
      PowDouble(base, n - 1);
    }
  }

  lemma PowFour(n: nat)
    ensures Pow(8, n + 4) == 0x1000 * Pow(8, n) && Pow(2, n + 4) == 0x10 * Pow(2, n)
  {
    assert Pow(8, n + 4) == 8 * Pow(8, n + 3) && Pow(2, n + 4) == 2 * Pow(2, n + 3);
    assert Pow(8, n + 2) == 8 * Pow(8, n + 1) && Pow(2, n + 2) == 2 * Pow(2, n + 1);
  }

  lemma BinaryRange()
    ensures Pow(2, NTOA_SIZE) == MOD32
  {
    PowFour(0);
    PowFour(4);
    PowFour(8);
    PowFour(12);
    PowFour(16);
    PowFour(20);
    PowFour(24);
    PowFour(28);
  }

  lemma Wide(base: nat)
    requires IsBase(base) && base != 2
    ensures Pow(base, NTOA_SIZE - 1) >= Pow(base, 24) >= MOD64
  {
    PowDouble(base, 24);
    PowFour(0);
    PowFour(4);
    PowFour(8);
    PowFour(12);
    PowFour(16);
    PowFour(20);
    PowGrows(base, 24, NTOA_SIZE - 1);
  }

  /**
   Every 64-bit integer printed in base 8, 10 or 16 reads back, at exactly the width of its field or
   the length of its digits and sign.  The field may ask for at most 32 characters when it is filled
   with zeros.
   */
  lemma IntegerPrintsBack(c: char, d: Directive, v: int)
    requires c == 'd' || c == 'i' || c == 'u' || c == 'x' || c == 'X' || c == 'o'
    requires -MOD64 / 2 <= v < MOD64 && !d.flags.prec && d.precision == 0
    requires d.flags.hash ==> c == 'd' || c == 'i' || c == 'u'
    requires d.flags.zero && !d.flags.left ==> d.width <= NTOA_SIZE
    ensures var u := if v < 0 then -v else v;
            var base := if c == 'x' || c == 'X' then 16 else if c == 'o' then 8 else 10;
            var sign := v < 0 || ((c == 'd' || c == 'i') && (d.flags.plus || d.flags.space));
            && Scan(IntegerText(c, d, v), base) == (v < 0, u)
            && |IntegerText(c, d, v)| == Max(d.width, DigitsShown(u, base) + (if sign then 1 else 0))
  {
    FlagsKept(c, d.flags);
    NumberPrintsBack(if v < 0 then -v else v, v < 0, BaseOf(c), d.width, IntegerFlags(c, d.flags));
    hide NumberText, RevDigits, Pow, Scan;
  }

  lemma FlagsKept(c: char, f: Flags)
    requires !f.prec && (BaseOf(c) == 10 || !f.hash)
    ensures var g := IntegerFlags(c, f);
            !g.prec && !g.hash && g.zero == f.zero && g.left == f.left
  {
  }

  lemma NumberPrintsBack(v: nat, negative: bool, base: nat, width: nat, f: Flags)
    requires IsBase(base) && base != 2 && v < MOD64
    requires !f.hash && !f.prec && (f.zero && !f.left ==> width <= NTOA_SIZE)
    ensures Scan(NumberText(v, negative, base, 0, width, f), base) == (negative, v)
    ensures |NumberText(v, negative, base, 0, width, f)|
         == Max(width, DigitsShown(v, base) + (if HasSign(f, negative) then 1 else 0))
  {
    hide NumberText, RevDigits, Pow, Scan;
    Wide(base);
    PowGrows(base, NTOA_SIZE - 1, NTOA_SIZE);
    PrintsBackIff(v, negative, base, width, f);
    PrintedLength(v, negative, base, width, f);
  }

  /** In base 2 only 32 digits are kept, so a value reads back if and only if it has 32 bits. */
  lemma BinaryPrintsBackIff(d: Directive, v: nat)
    requires !d.flags.prec && d.precision == 0 && !d.flags.hash
    ensures Scan(IntegerText('b', d, v), 2) == (false, v) <==> v < MOD32
  {
    hide NumberText, RevDigits, Scan, Pow;
    BinaryRange();
    PrintsBackIff(v, false, 2, d.width, IntegerFlags('b', d.flags));
  }

  // ----- widths and precisions --------------------------------------------------------------

  lemma ModStep(acc: nat, d: nat)
    ensures (acc % MOD32 * 10 + d) % MOD32 == (acc * 10 + d) % MOD32
  {
    var q, r := acc / MOD32, acc % MOD32;
    assert acc * 10 + d == (r * 10 + d) + MOD32 * (q * 10);
    Multiples(r * 10 + d, q * 10);
  }

  lemma Multiples(a: nat, k: nat)
    ensures (a + MOD32 * k) % MOD32 == a % MOD32
  {
  }

  /** A width or precision in a format is read as the same reader reads decimals, in 32 bits. */
  lemma {:induction false} FieldIsDecimal(s: string, i: nat, acc: nat)
    requires i <= |s|
    ensures ParseNumber(s, i, acc % MOD32).0 == Horner(s[i..], 10, acc) % MOD32
    decreases |s| - i
  {
    if i < |s| && IsDigit(s[i]) {
      var d := DigitValue(s[i]);
      ModStep(acc, d);
      FieldIsDecimal(s, i + 1, acc * 10 + d);
      assert s[i..][1..] == s[i + 1..];
    }
  }
}
