/**
 What the formatter prints: the text of a format and its arguments, as a function that knows
 nothing of the place the text goes to.
 */
module Format {

  import opened Common

  const MOD8 := 0x100
  const MOD16 := 0x1_0000

  /** The size of the digit buffer. */
  const NTOA_SIZE := 32

  datatype Flags = Flags(zero: bool, left: bool, plus: bool, space: bool, hash: bool, upper: bool,
                         char8: bool, short: bool, long: bool, longLong: bool, prec: bool)

  const NO_FLAGS := Flags(false, false, false, false, false, false, false, false, false, false, false)

  /** An argument as each kind of conversion would read it. */
  datatype Arg = Arg(num: int, str: string)

  function ArgAt(args: seq<Arg>, a: nat): Arg {
    if a < |args| then args[a] else Arg(0, "")
  }

  /** The character at an index of a C string, with the terminator behind the last one. */
  function At(s: string, i: nat): char {
    if i < |s| then s[i] else '\0'
  }

  /** A C string: no terminator inside, and it lies in a memory of `size` bytes with it. */
  predicate CString(s: string, size: nat) {
    |s| < size && forall k :: 0 <= k < |s| ==> s[k] != '\0'
  }

  predicate IsDigit(c: char) {
    '0' <= c <= '9'
  }

  function Unsigned(v: int, mod: nat): nat
    requires mod > 0
  {
    v % mod
  }

  function Signed(v: int, mod: nat): int
    requires mod > 0
  {
    var u := v % mod;
    if u < mod / 2 then u else u - mod
  }

  function Repeat(c: char, n: int): (s: string)
    ensures |s| == Max(n, 0)
  {
    if n <= 0 then [] else Repeat(c, n - 1) + [c]
  }

  function Reverse(s: string): (r: string)
    ensures |r| == |s|
  {
    if s == [] then [] else Reverse(s[1..]) + [s[0]]
  }

  // ----- parsing a directive ----------------------------------------------------------------

  predicate IsFlag(c: char) {
    c == '0' || c == '-' || c == '+' || c == ' ' || c == '#'
  }

  function WithFlag(f: Flags, c: char): Flags {
    if c == '0' then f.(zero := true)
    else if c == '-' then f.(left := true)
    else if c == '+' then f.(plus := true)
    else if c == ' ' then f.(space := true)
    else f.(hash := true)
  }

  /** The flags from index `i` on, and the index behind them. */
  function ParseFlags(s: string, i: nat, f: Flags): (r: (Flags, nat))
    ensures i <= r.1
    decreases |s| - i
  {
    if i < |s| && IsFlag(s[i]) then ParseFlags(s, i + 1, WithFlag(f, s[i])) else (f, i)
  }

  /** A decimal number from index `i` on, in 32 bits, and the index behind it. */
  function ParseNumber(s: string, i: nat, n: nat): (r: (nat, nat))
    ensures i <= r.1 && (n < MOD32 ==> r.0 < MOD32)
    decreases |s| - i
  {
    if i < |s| && IsDigit(s[i]) then ParseNumber(s, i + 1, (n * 10 + (s[i] as nat - '0' as nat)) % MOD32) else (n, i)
  }

  /** A directive as far as it has been read: the next index of the format and the next argument. */
  datatype Directive = Directive(flags: Flags, width: nat, precision: nat, at: nat, arg: nat)

  /** Fields fit in 32 bits, and without a point the precision is zero. */
  predicate Coherent(d: Directive) {
    d.width < MOD32 && d.precision < MOD32 && (d.flags.prec || d.precision == 0)
  }

  function ParseWidth(s: string, d: Directive, args: seq<Arg>): (r: Directive)
    ensures d.at <= r.at && (Coherent(d) ==> Coherent(r))
  {
    if IsDigit(At(s, d.at)) then
      var (w, i) := ParseNumber(s, d.at, 0);
      d.(width := w, at := i)
    else if At(s, d.at) == '*' then
      var w := Signed(ArgAt(args, d.arg).num, MOD32);
      if w < 0 then d.(flags := d.flags.(left := true), width := -w, at := d.at + 1, arg := d.arg + 1)
      else d.(width := w, at := d.at + 1, arg := d.arg + 1)
    else d
  }

  function ParsePrecision(s: string, d: Directive, args: seq<Arg>): (r: Directive)
    ensures d.at <= r.at && (Coherent(d) ==> Coherent(r))
  {
    if At(s, d.at) != '.' then d
    else
      var e := d.(flags := d.flags.(prec := true), at := d.at + 1);
      if IsDigit(At(s, e.at)) then
        var (p, i) := ParseNumber(s, e.at, 0);
        e.(precision := p, at := i)
      else if At(s, e.at) == '*' then
        e.(precision := Max(Signed(ArgAt(args, e.arg).num, MOD32), 0), at := e.at + 1, arg := e.arg + 1)
      else e
  }

  /** The length modifiers; `long` is the number of values of an `unsigned long`. */
  function ParseLength(s: string, d: Directive, long: nat): (r: Directive)
    ensures d.at <= r.at && (Coherent(d) ==> Coherent(r))
  {
    var c := At(s, d.at);
    if c == 'l' then
      if At(s, d.at + 1) == 'l' then d.(flags := d.flags.(long := true, longLong := true), at := d.at + 2)
      else d.(flags := d.flags.(long := true), at := d.at + 1)
    else if c == 'h' then
      if At(s, d.at + 1) == 'h' then d.(flags := d.flags.(short := true, char8 := true), at := d.at + 2)
      else d.(flags := d.flags.(short := true), at := d.at + 1)
    else if c == 't' || c == 'z' then d.(flags := d.flags.(long := true), at := d.at + 1)
    else if c == 'j' then
      if long == MOD64 then d.(flags := d.flags.(long := true), at := d.at + 1)
      else d.(flags := d.flags.(longLong := true), at := d.at + 1)
    else d
  }

  /** The directive that starts behind the percent sign at index `i - 1`. */
  function Parse(s: string, i: nat, args: seq<Arg>, a: nat, long: nat): (d: Directive)
    ensures i <= d.at && Coherent(d)
  {
    var (f, j) := ParseFlags(s, i, NO_FLAGS);
    var w := ParseWidth(s, Directive(f, 0, 0, j, a), args);
    ParseLength(s, ParsePrecision(s, w, args), long)
  }

  // ----- numbers ----------------------------------------------------------------------------

  function Digit(d: nat, upper: bool): char
    requires d < 16
  {
    if d < 10 then '0' + d as char else (if upper then 'A' else 'a') + (d - 10) as char
  }

  predicate IsBase(base: nat) {
    base == 2 || base == 8 || base == 10 || base == 16
  }

  function LowDigit(v: nat, base: nat): (d: nat)
    requires IsBase(base)
    ensures d < base
  {
    if base == 2 then v % 2 else if base == 8 then v % 8 else if base == 10 then v % 10 else v % 16
  }

  function Rest(v: nat, base: nat): (q: nat)
    requires IsBase(base)
    ensures v > 0 ==> q < v
  {
    if base == 2 then v / 2 else if base == 8 then v / 8 else if base == 10 then v / 10 else v / 16
  }

  /** The digits of a value, lowest first, at most `room` of them. */
  function RevDigits(v: nat, base: nat, upper: bool, room: nat): (s: string)
    requires IsBase(base) && room > 0
    ensures 1 <= |s| <= room
    decreases room, v
  {
    [Digit(LowDigit(v, base), upper)]
    + (if Rest(v, base) == 0 || room == 1 then [] else RevDigits(Rest(v, base), base, upper, room - 1))
  }

  /** Leading zeros, which stop at the end of the digit buffer. */
  function ZeroPad(b: string, width: nat): (s: string)
    requires |b| <= NTOA_SIZE
    ensures |s| == Max(|b|, Min(width, NTOA_SIZE)) && b <= s
  {
    b + Repeat('0', Min(width, NTOA_SIZE) - |b|)
  }

  function Push(b: string, c: char): (s: string)
    requires |b| <= NTOA_SIZE
    ensures |s| <= NTOA_SIZE
  {
    if |b| < NTOA_SIZE then b + [c] else b
  }

  predicate HasSign(f: Flags, negative: bool) {
    negative || f.plus || f.space
  }

  /** The width that is left for digits when zeros are padded in front of a sign. */
  function DigitWidth(width: nat, f: Flags, negative: bool): nat {
    if !f.left && width > 0 && f.zero && HasSign(f, negative) then width - 1 else width
  }

  function LeadingZeros(b: string, prec: nat, width: nat, f: Flags): (s: string)
    requires |b| <= NTOA_SIZE
    ensures |b| <= |s| <= NTOA_SIZE
  {
    if f.left then b
    else
      var c := ZeroPad(b, prec);
      if f.zero then ZeroPad(c, width) else c
  }

  /** The prefix of the alternate form, in the reversed order of the buffer. */
  function HashMarks(b: string, base: nat, prec: nat, width: nat, f: Flags): (s: string)
    requires |b| <= NTOA_SIZE
    ensures |s| <= NTOA_SIZE
  {
    if !f.hash then b
    else
      var n := if !f.prec && |b| > 0 && (|b| == prec || |b| == width)
               then (if |b| > 1 && base == 16 then |b| - 2 else |b| - 1) else |b|;
      var c := if base == 16 then Push(b[..n], if f.upper then 'X' else 'x')
               else if base == 2 then Push(b[..n], 'b') else b[..n];
      Push(c, '0')
  }

  function SignMark(b: string, f: Flags, negative: bool): (s: string)
    requires |b| <= NTOA_SIZE
    ensures |s| <= NTOA_SIZE
  {
    if negative then Push(b, '-') else if f.plus then Push(b, '+') else if f.space then Push(b, ' ') else b
  }

  /** The reversed buffer, padded with spaces on the side that the flags ask for. */
  function Reversed(b: string, width: nat, f: Flags): (s: string)
  {
    (if f.left || f.zero then [] else Repeat(' ', width - |b|))
    + Reverse(b)
    + (if f.left then Repeat(' ', width - |b|) else [])
  }

  function NumberBody(digits: string, negative: bool, base: nat, prec: nat, width: nat, f: Flags): (s: string)
    requires |digits| <= NTOA_SIZE
    ensures |s| <= NTOA_SIZE
  {
    SignMark(HashMarks(LeadingZeros(digits, prec, width, f), base, prec, width, f), f, negative)
  }

  /** A digit buffer as it is printed. */
  function BufferText(digits: string, negative: bool, base: nat, prec: nat, width: nat, f: Flags): (s: string)
    requires |digits| <= NTOA_SIZE
  {
    var w := DigitWidth(width, f, negative);
    Reversed(NumberBody(digits, negative, base, prec, w, f), w, f)
  }

  /** A zero has no alternate form. */
  function NumberFlags(v: nat, f: Flags): Flags {
    if v == 0 then f.(hash := false) else f
  }

  /** With a precision a zero has no digits. */
  function DigitsOf(v: nat, base: nat, f: Flags): (s: string)
    requires IsBase(base)
    ensures |s| <= NTOA_SIZE
  {
    if f.prec && v == 0 then [] else RevDigits(v, base, f.upper, NTOA_SIZE)
  }

  function NumberText(v: nat, negative: bool, base: nat, prec: nat, width: nat, f: Flags): (s: string)
    requires IsBase(base)
  {
    BufferText(DigitsOf(v, base, f), negative, base, prec, width, NumberFlags(v, f))
  }

  // ----- conversions ------------------------------------------------------------------------

  predicate IsInteger(c: char) {
    c == 'd' || c == 'i' || c == 'u' || c == 'x' || c == 'X' || c == 'o' || c == 'b'
  }

  predicate IsFloat(c: char) {
    c == 'f' || c == 'F' || c == 'e' || c == 'E' || c == 'g' || c == 'G'
  }

  predicate IsSigned(c: char) {
    c == 'd' || c == 'i'
  }

  function BaseOf(c: char): (b: nat)
    ensures IsBase(b)
  {
    if c == 'x' || c == 'X' then 16 else if c == 'o' then 8 else if c == 'b' then 2 else 10
  }

  /** The flags an integer conversion keeps. */
  function IntegerFlags(c: char, f: Flags): Flags {
    f.(hash := f.hash && BaseOf(c) != 10, upper := f.upper || c == 'X',
       plus := f.plus && IsSigned(c), space := f.space && IsSigned(c), zero := f.zero && !f.prec)
  }

  /** The number of values of the type an integer conversion reads; plain `char` is unsigned. */
  function IntegerValue(c: char, f: Flags, v: int, long: nat): (r: int)
    requires long == MOD32 || long == MOD64
    ensures -MOD64 / 2 <= r < MOD64
  {
    if f.longLong then (if IsSigned(c) then Signed(v, MOD64) else Unsigned(v, MOD64))
    else if f.long then (if IsSigned(c) then Signed(v, long) else Unsigned(v, long))
    else if f.char8 then Unsigned(v, MOD8)
    else if f.short then (if IsSigned(c) then Signed(v, MOD16) else Unsigned(v, MOD16))
    else (if IsSigned(c) then Signed(v, MOD32) else Unsigned(v, MOD32))
  }

  function IntegerText(c: char, d: Directive, v: int): (s: string)
  {
    NumberText(if v < 0 then -v else v, v < 0, BaseOf(c), d.precision, d.width, IntegerFlags(c, d.flags))
  }

  /** A character or a string in its field. */
  function FieldText(s: string, width: nat, length: nat, left: bool): string {
    if left then s + Repeat(' ', width - length) else Repeat(' ', width - length) + s
  }

  /** The characters of a string argument that are printed. */
  function StringPart(s: string, d: Directive): string {
    if d.flags.prec && d.precision < |s| then s[..d.precision] else s
  }

  /** The text of one directive, whose conversion character is `c`. */
  function DirectiveText(c: char, d: Directive, arg: Arg, long: nat): (s: string)
    requires long == MOD32 || long == MOD64
  {
    if IsInteger(c) then IntegerText(c, d, IntegerValue(c, d.flags, arg.num, long))
    else if c == 'c' then FieldText([Unsigned(arg.num, MOD8) as char], d.width, 1, d.flags.left)
    else if c == 's' then
      var part := StringPart(arg.str, d);
      FieldText(part, d.width, |part| % MOD32, d.flags.left)
    else if c == 'p' then
      NumberText(Unsigned(arg.num, long), false, 16, d.precision, if long == MOD64 then 16 else 8,
                 d.flags.(zero := true, upper := true))
    else [c]
  }

  function ArgsUsed(c: char): nat {
    if IsInteger(c) || c == 'c' || c == 's' || c == 'p' then 1 else 0
  }

  /** From index `i` on no directive is cut off by the end of the format, and none prints a float. */
  predicate Complete(s: string, i: nat, args: seq<Arg>, a: nat, long: nat)
    decreases |s| - i
  {
    if i >= |s| then true
    else if s[i] != '%' then Complete(s, i + 1, args, a, long)
    else
      var d := Parse(s, i + 1, args, a, long);
      d.at < |s| && !IsFloat(s[d.at]) && Complete(s, d.at + 1, args, d.arg + ArgsUsed(s[d.at]), long)
  }

  function Piece(s: string, d: Directive, args: seq<Arg>, long: nat): string
    requires (long == MOD32 || long == MOD64) && d.at < |s|
  {
    DirectiveText(s[d.at], d, ArgAt(args, d.arg), long)
  }

  /** The text of the format from index `i` on, with the arguments from `a` on. */
  function Text(s: string, i: nat, args: seq<Arg>, a: nat, long: nat): (t: string)
    requires long == MOD32 || long == MOD64
    requires Complete(s, i, args, a, long)
    decreases |s| - i
  {
    hide Parse, DirectiveText;
    if i >= |s| then []
    else if s[i] != '%' then [s[i]] + Text(s, i + 1, args, a, long)
    else
      var d := Parse(s, i + 1, args, a, long);
      Piece(s, d, args, long)
      + Text(s, d.at + 1, args, d.arg + ArgsUsed(s[d.at]), long)
  }

  lemma CompleteStep(s: string, i: nat, args: seq<Arg>, a: nat, long: nat, d: Directive)
    requires Complete(s, i, args, a, long) && i < |s| && s[i] == '%' && d == Parse(s, i + 1, args, a, long)
    ensures i < d.at < |s| && Coherent(d)
    ensures !IsFloat(s[d.at]) && Complete(s, d.at + 1, args, d.arg + ArgsUsed(s[d.at]), long)
  {
    hide Parse, ArgsUsed, IsFloat;
  }

  /** The other way round. */
  lemma CompleteBefore(s: string, i: nat, args: seq<Arg>, a: nat, long: nat, d: Directive)
    requires i < d.at < |s| && s[i] == '%' && d == Parse(s, i + 1, args, a, long)
    requires !IsFloat(s[d.at]) && Complete(s, d.at + 1, args, d.arg + ArgsUsed(s[d.at]), long)
    ensures Complete(s, i, args, a, long)
  {
    hide Parse, ArgsUsed, IsFloat;
  }

  lemma TextStep(s: string, i: nat, args: seq<Arg>, a: nat, long: nat, d: Directive)
    requires long == MOD32 || long == MOD64
    requires i < d.at < |s| && s[i] == '%' && d == Parse(s, i + 1, args, a, long)
    requires Complete(s, i, args, a, long) && Complete(s, d.at + 1, args, d.arg + ArgsUsed(s[d.at]), long)
    ensures Text(s, i, args, a, long)
         == Piece(s, d, args, long) + Text(s, d.at + 1, args, d.arg + ArgsUsed(s[d.at]), long)
  {
    hide Piece, Parse, ArgsUsed;
  }

  lemma TextPlain(s: string, i: nat, args: seq<Arg>, a: nat, long: nat)
    requires (long == MOD32 || long == MOD64) && Complete(s, i, args, a, long) && i < |s| && s[i] != '%'
    ensures Complete(s, i + 1, args, a, long)
    ensures Text(s, i, args, a, long) == [s[i]] + Text(s, i + 1, args, a, long)
  {
    hide Piece, Parse;
  }

  lemma TextEnd(s: string, args: seq<Arg>, long: nat)
    requires long == MOD32 || long == MOD64
    ensures forall a: nat :: Complete(s, |s|, args, a, long) && Text(s, |s|, args, a, long) == []
  {
  }
}
