/**
 The alternate form of hexadecimal and octal numbers.  The prefix takes the place of padding when the digits fill
 the field exactly, and of digits when there is no padding to take: the number is printed whole if and
 only if its digits neither fill the field nor, for the two characters of a hexadecimal prefix
 among zeros, leave room for one.
 */
module FormatAlternate {

  import opened Common
  import opened Format
  import opened FormatNumber
  import opened FormatLaw

  function Prefix(base: nat, upper: bool): string {
    if base == 16 then (if upper then "0X" else "0x") else "0"
  }

  /** The prefix as it lies in the digit buffer, last character first. */
  function StoredPrefix(base: nat, upper: bool): string {
    if base == 16 then (if upper then "X0" else "x0") else "0"
  }

  /** The characters that give way to the prefix, out of `n` that are there. */
  function Dropped(n: nat, base: nat, width: nat): (k: nat)
    ensures k <= n
  {
    if n != width then 0 else if base == 16 then Min(n, 2) else Min(n, 1)
  }

  // ----- the buffer -------------------------------------------------------------------------

  lemma {:induction false} ReverseTake(b: string, k: nat)
    requires k <= |b|
    ensures |Reverse(b)| == |b| && Reverse(b[..|b| - k]) == Reverse(b)[k..]
  {
    if k == 0 {
      assert b[..|b|] == b;
    } else {
      var init := b[..|b| - 1];
      assert b == init + [b[|b| - 1]] && b[..|b| - k] == init[..|init| - (k - 1)];
      ReversePush(init, b[|b| - 1]);
      ReverseTake(init, k - 1);
    }
  }

  lemma HashShape(b: string, base: nat, width: nat, f: Flags)
    requires 0 < |b| <= NTOA_SIZE && f.hash && !f.prec && (base == 8 || base == 16)
    requires |b| - Dropped(|b|, base, width) + |Prefix(base, f.upper)| <= NTOA_SIZE
    ensures HashMarks(b, base, 0, width, f) == b[..|b| - Dropped(|b|, base, width)] + StoredPrefix(base, f.upper)
  {
  }

  lemma ReversePrefix(s: string, base: nat, upper: bool)
    ensures Reverse(s + StoredPrefix(base, upper)) == Prefix(base, upper) + Reverse(s)
  {
    hide Reverse;
    if base == 16 {
      var x := if upper then 'X' else 'x';
      ReversePush(s, x);
      ReversePush(s + [x], '0');
      assert s + StoredPrefix(base, upper) == (s + [x]) + ['0'];
    } else {
      ReversePush(s, '0');
    }
  }

  // ----- numbers ----------------------------------------------------------------------------

  /** What is printed without the prefix: the numeral behind the zeros of a filled field. */
  function Filled(numeral: string, width: nat, zero: bool, left: bool): string {
    Repeat('0', if zero && !left then width - |numeral| else 0) + numeral
  }

  /** The digits of a number that is not zero, with the zeros of a filled field. */
  lemma StoredFull(digits: string, width: nat, f: Flags)
    requires 1 <= |digits| <= 24 && |Reverse(digits)| == |digits| && (f.zero && !f.left ==> width <= NTOA_SIZE)
    ensures var b := LeadingZeros(digits, 0, width, f);
            Reverse(b) == Filled(Reverse(digits), width, f.zero, f.left)
              && |b| == |Filled(Reverse(digits), width, f.zero, f.left)|
  {
    hide Reverse, Repeat;
    var z := if f.zero && !f.left then width - |digits| else 0;
    NoPad('0', 0);
    NoPad('0', -|digits|);
    PadLength('0', z);
    ReversePad(digits, z);
    assert digits + [] == digits;
  }

  lemma AlternateBody(digits: string, base: nat, width: nat, f: Flags)
    requires 1 <= |digits| <= 24 && |Reverse(digits)| == |digits| && (f.zero && !f.left ==> width <= NTOA_SIZE)
    requires (base == 8 || base == 16) && f.hash && !f.prec && !f.plus && !f.space
    ensures var full := Filled(Reverse(digits), width, f.zero, f.left);
            var b := NumberBody(digits, false, base, 0, width, f);
            Reverse(b) == Prefix(base, f.upper) + full[Dropped(|full|, base, width)..] && |Reverse(b)| == |b|
  {
    hide Reverse, Filled, LeadingZeros, HashMarks, StoredPrefix;
    var b := LeadingZeros(digits, 0, width, f);
    StoredFull(digits, width, f);
    FullLength(Reverse(digits), width, f.zero, f.left);
    var k := Dropped(|b|, base, width);
    HashShape(b, base, width, f);
    ReverseTake(b, k);
    ReversePrefix(b[..|b| - k], base, f.upper);
    ReverseTake(HashMarks(b, base, 0, width, f), 0);
  }

  lemma FullLength(numeral: string, width: nat, zero: bool, left: bool)
    ensures |Filled(numeral, width, zero, left)| == if zero && !left then Max(width, |numeral|) else |numeral|
  {
  }

  /** Every 64-bit number in the alternate form: the prefix, then the numeral less what gave way. */
  lemma AlternateNumber(v: nat, base: nat, width: nat, f: Flags)
    requires 0 < v < MOD64 && (base == 8 || base == 16) && f.hash && !f.prec && !f.plus && !f.space
    requires f.zero && !f.left ==> width <= NTOA_SIZE
    ensures var full := Filled(Numeral(v, base, f.upper), width, f.zero, f.left);
            NumberText(v, false, base, 0, width, f)
            == Layout("", Prefix(base, f.upper) + full[Dropped(|full|, base, width)..], width, false, f.left)
  {
    hide RevDigits, Numeral, Reverse, Repeat, NumberBody, Filled, Layout, Reversed;
    var digits := RevDigits(v, base, f.upper, NTOA_SIZE);
    StoredNumeral(v, base, f.upper);
    ReverseTake(digits, 0);
    AlternateBody(digits, base, width, f);
    var full := Filled(Reverse(digits), width, f.zero, f.left);
    FullLength(Reverse(digits), width, f.zero, f.left);
    var b := NumberBody(digits, false, base, 0, width, f);
    PrefixShape(Prefix(base, f.upper) + full[Dropped(|full|, base, width)..], b, width, f);
  }

  /** A field that is filled with zeros has no room for spaces. */
  lemma PrefixShape(body: string, b: string, width: nat, f: Flags)
    requires Reverse(b) == body && |body| == |b| && (f.zero && !f.left ==> width <= |b|)
    ensures Reversed(b, width, f) == Layout("", body, width, false, f.left)
  {
    hide Reverse, Repeat;
    Beside("", body, Repeat(' ', width - |b|));
    if f.zero && !f.left {
      NoPad(' ', width - |b|);
    }
  }

  /** The prefix, the numeral in full, and the zeros that the field has room for between them. */
  function Whole(numeral: string, base: nat, upper: bool, width: nat, zero: bool, left: bool): string {
    var prefix := Prefix(base, upper);
    Layout("", prefix + Repeat('0', if zero && !left then width - |prefix| - |numeral| else 0) + numeral, width, false,
           left)
  }

  /** `n` digits that give way to the prefix. */
  predicate Lossy(n: nat, base: nat, width: nat, zero: bool, left: bool) {
    n == width || (zero && !left && base == 16 && n + 1 == width)
  }

  lemma LayoutLength(body: string, width: nat, left: bool)
    ensures |Layout("", body, width, false, left)| == Max(width, |body|)
  {
  }

  lemma {:induction false} ZerosSlice(n: int, k: nat)
    requires k <= n
    ensures |Repeat('0', n)| == n && Repeat('0', n)[k..] == Repeat('0', n - k)
  {
    PadLength('0', n);
    if k > 0 {
      ZeroFirst(n);
      ZerosSlice(n - 1, k - 1);
      assert Repeat('0', n)[k..] == Repeat('0', n - 1)[k - 1..];
    }
  }

  /** The body less what gave way is the whole one, or shorter than it. */
  lemma BodyIff(numeral: string, base: nat, upper: bool, width: nat, zero: bool, left: bool)
    requires numeral != [] && (base == 8 || base == 16)
    ensures var full := Filled(numeral, width, zero, left);
            var body := Prefix(base, upper) + full[Dropped(|full|, base, width)..];
            (Layout("", body, width, false, left) == Whole(numeral, base, upper, width, zero, left))
            <==> !Lossy(|numeral|, base, width, zero, left)
  {
    hide Layout, Repeat, Filled, Dropped, Prefix;
    var full := Filled(numeral, width, zero, left);
    FullLength(numeral, width, zero, left);
    var body := Prefix(base, upper) + full[Dropped(|full|, base, width)..];
    var z := if zero && !left then width - |Prefix(base, upper)| - |numeral| else 0;
    if Lossy(|numeral|, base, width, zero, left) {
      BodyShorter(|numeral|, |full|, z, base, upper, width, zero, left);
      PadLength('0', z);
      LayoutLength(body, width, left);
      LayoutLength(Prefix(base, upper) + Repeat('0', z) + numeral, width, left);
    } else {
      SameBody(numeral, base, upper, width, zero, left);
      Joined(Prefix(base, upper), Repeat('0', z), numeral);
    }
  }

  lemma BodyShorter(n: nat, full: nat, z: int, base: nat, upper: bool, width: nat, zero: bool, left: bool)
    requires n > 0 && (base == 8 || base == 16) && Lossy(n, base, width, zero, left)
    requires full == if zero && !left then Max(width, n) else n
    requires z == if zero && !left then width - |Prefix(base, upper)| - n else 0
    ensures var whole := |Prefix(base, upper)| + Max(z, 0) + n;
            |Prefix(base, upper)| + full - Dropped(full, base, width) < whole && width < whole
  {
  }

  lemma Joined(a: string, b: string, c: string)
    ensures a + (b + c) == a + b + c
  {
  }

  lemma SameBody(numeral: string, base: nat, upper: bool, width: nat, zero: bool, left: bool)
    requires numeral != [] && (base == 8 || base == 16) && !Lossy(|numeral|, base, width, zero, left)
    ensures var full := Filled(numeral, width, zero, left);
            full[Dropped(|full|, base, width)..]
            == Repeat('0', if zero && !left then width - |Prefix(base, upper)| - |numeral| else 0) + numeral
  {
    hide Repeat;
    var n := |numeral|;
    FullLength(numeral, width, zero, left);
    if zero && !left && n < width {
      var z := width - n;
      var k := if base == 16 then 2 else 1;
      ZerosSlice(z, k);
      assert (Repeat('0', z) + numeral)[k..] == Repeat('0', z)[k..] + numeral;
    } else {
      NoPad('0', 0);
      NoPad('0', Min(width - n, 0));
      NoPad('0', Min(width - |Prefix(base, upper)| - n, 0));
    }
  }

  /** The alternate form shows every digit if and only if the digits do not give way to the prefix. */
  lemma AlternateIff(v: nat, base: nat, width: nat, f: Flags)
    requires 0 < v < MOD64 && (base == 8 || base == 16) && f.hash && !f.prec && !f.plus && !f.space
    requires f.zero && !f.left ==> width <= NTOA_SIZE
    ensures var numeral := Numeral(v, base, f.upper);
            NumberText(v, false, base, 0, width, f) == Whole(numeral, base, f.upper, width, f.zero, f.left)
            <==> !Lossy(|numeral|, base, width, f.zero, f.left)
  {
    hide NumberText, Numeral, Whole, Lossy, Layout, Filled, Prefix, Dropped;
    AlternateNumber(v, base, width, f);
    BodyIff(Numeral(v, base, f.upper), base, f.upper, width, f.zero, f.left);
  }

  /**
   A hexadecimal or octal directive with '#': zero has no prefix; any other number is printed whole behind
   its prefix, unless its digits fill the field (or, in hexadecimal with '0', leave one place) and give way.
   */
  lemma AlternateLaw(fl: string, w: Field, lm: string, c: char, args: seq<Arg>, long: nat, v: int)
    requires Written(fl, w, None, lm, c) && (long == MOD32 || long == MOD64) && '#' in fl
    requires c == 'x' || c == 'X' || c == 'o'
    requires '0' in fl && !LeftOf(fl, w, args) ==> WidthOf(w, args) <= 32
    requires Reads(lm, false, ArgAt(args, Stars(w, None)).num, long, v)
    ensures Complete(Spec(fl, w, None, lm, c), 0, args, 0, long)
    ensures var base := if c == 'o' then 8 else 16;
            var numeral := Numeral(v, base, c == 'X');
            var width, left := WidthOf(w, args), LeftOf(fl, w, args);
            var full := Filled(numeral, width, '0' in fl, left);
            var text := Text(Spec(fl, w, None, lm, c), 0, args, 0, long);
            && (v == 0 ==> text == Layout("", numeral, width, '0' in fl, left))
            && (v > 0 ==>
                  && text == Layout("", Prefix(base, c == 'X') + full[Dropped(|full|, base, width)..], width, false,
                    left)
                  && (text == Whole(numeral, base, c == 'X', width, '0' in fl, left)
                      <==> !Lossy(|numeral|, base, width, '0' in fl, left)))
  {
    hide Text, Complete, Spec, NumberText, Layout, Numeral, Whole, Lossy, Filled, Prefix, Dropped, WidthOf, LeftOf,
      ModFlags, IntegerFlags, FieldText, IntegerValue, StringPart, FieldWritten, Stars, Reads;
    AloneLaw(fl, w, None, lm, c, args, long);
    var f := FlagsOf(fl).(left := LeftOf(fl, w, args), prec := false);
    var num := ArgAt(args, Stars(w, None)).num;
    KeptFlags(c, f, lm, long);
    ValueIsRead(c, f, lm, num, long, v);
    ReadsNat(lm, num, long, v);
    var g := IntegerFlags(c, ModFlags(f, lm, long));
    if v == 0 {
      ZeroPlain(BaseOf(c), WidthOf(w, args), g);
    } else {
      AlternateNumber(v, BaseOf(c), WidthOf(w, args), g);
      AlternateIff(v, BaseOf(c), WidthOf(w, args), g);
    }
  }

  lemma ReadsNat(lm: string, num: int, long: nat, v: int)
    requires (long == MOD32 || long == MOD64) && Reads(lm, false, num, long, v)
    ensures 0 <= v < MOD64
  {
  }

  /** A zero is printed as without '#'. */
  lemma ZeroPlain(base: nat, width: nat, f: Flags)
    requires (base == 8 || base == 16) && !f.prec && !f.plus && !f.space
    requires f.zero && !f.left ==> width <= NTOA_SIZE
    ensures NumberText(0, false, base, 0, width, f)
         == Layout("", Numeral(0, base, f.upper), width, f.zero, f.left)
  {
    hide BufferText, RevDigits, Layout;
    var g := f.(hash := false);
    assert NumberText(0, false, base, 0, width, f) == NumberText(0, false, base, 0, width, g);
    NumberLaw(0, false, base, width, g);
  }

  // ----- with a precision -------------------------------------------------------------------

  lemma PrecisionHashBody(digits: string, base: nat, prec: nat, width: nat, f: Flags)
    requires 1 <= |digits| <= 24 && (base == 8 || base == 16) && (f.left || prec <= 30)
    requires f.hash && f.prec && !f.zero && !f.plus && !f.space
    ensures NumberBody(digits, false, base, prec, width, f)
         == (digits + Repeat('0', if f.left then 0 else prec - |digits|)) + StoredPrefix(base, f.upper)
  {
    hide Repeat;
    var z := if f.left then 0 else prec - |digits|;
    NoPad('0', 0);
    PadLength('0', z);
    var b := LeadingZeros(digits, prec, width, f);
    assert b == digits + Repeat('0', z);
  }

  /** With a precision nothing gives way to the prefix. */
  lemma PrecisionAlternate(v: nat, base: nat, prec: nat, width: nat, f: Flags)
    requires 0 < v < MOD64 && (base == 8 || base == 16) && (f.left || prec <= 30)
    requires f.hash && f.prec && !f.zero && !f.plus && !f.space
    ensures NumberText(v, false, base, prec, width, f)
         == Layout("", Prefix(base, f.upper) + PaddedNumeral(v, base, f.upper, prec, f.left), width, false, f.left)
  {
    hide RevDigits, Numeral, Reverse, Repeat, NumberBody, Reversed, Layout, StoredPrefix, Prefix;
    var digits := RevDigits(v, base, f.upper, NTOA_SIZE);
    var z := if f.left then 0 else prec - |digits|;
    StoredNumeral(v, base, f.upper);
    ReverseTake(digits, 0);
    PrecisionHashBody(digits, base, prec, width, f);
    var b := (digits + Repeat('0', z)) + StoredPrefix(base, f.upper);
    ReverseTake(b, 0);
    ReversePrefix(digits + Repeat('0', z), base, f.upper);
    ReversePad(digits, z);
    NoPad('0', 0);
    PrefixShape(Prefix(base, f.upper) + PaddedNumeral(v, base, f.upper, prec, f.left), b, width, f);
  }

  /** A hexadecimal or octal directive with '#' and a precision: the prefix, then at least that many digits. */
  lemma AlternatePrecisionLaw(fl: string, w: Field, p: Field, lm: string, c: char, args: seq<Arg>, long: nat, v: int)
    requires Written(fl, w, Some(p), lm, c) && (long == MOD32 || long == MOD64) && '#' in fl
    requires c == 'x' || c == 'X' || c == 'o'
    requires LeftOf(fl, w, args) || PrecisionOf(w, Some(p), args) <= 30
    requires Reads(lm, false, ArgAt(args, Stars(w, Some(p))).num, long, v)
    ensures Complete(Spec(fl, w, Some(p), lm, c), 0, args, 0, long)
    ensures var base := if c == 'o' then 8 else 16;
            var left := LeftOf(fl, w, args);
            var numeral := PaddedNumeral(v, base, c == 'X', PrecisionOf(w, Some(p), args), left);
            Text(Spec(fl, w, Some(p), lm, c), 0, args, 0, long)
            == Layout("", (if v == 0 then "" else Prefix(base, c == 'X')) + numeral, WidthOf(w, args), false, left)
  {
    hide Text, Complete, Spec, NumberText, Layout, Numeral, Prefix, WidthOf, LeftOf, PrecisionOf, ModFlags,
      IntegerFlags,
      FieldText, IntegerValue, StringPart, FieldWritten, Stars, Reads, PaddedNumeral;
    AloneLaw(fl, w, Some(p), lm, c, args, long);
    var f := FlagsOf(fl).(left := LeftOf(fl, w, args), prec := true);
    var num := ArgAt(args, Stars(w, Some(p))).num;
    KeptFlags(c, f, lm, long);
    ValueIsRead(c, f, lm, num, long, v);
    ReadsNat(lm, num, long, v);
    var g := IntegerFlags(c, ModFlags(f, lm, long));
    var prec := PrecisionOf(w, Some(p), args);
    if v == 0 {
      ZeroPrecision(BaseOf(c), prec, WidthOf(w, args), g);
      assert "" + PaddedNumeral(0, BaseOf(c), g.upper, prec, g.left) == PaddedNumeral(0, BaseOf(c), g.upper, prec,
             g.left);
    } else {
      PrecisionAlternate(v, BaseOf(c), prec, WidthOf(w, args), g);
    }
  }

  lemma ZeroPrecision(base: nat, prec: nat, width: nat, f: Flags)
    requires (base == 8 || base == 16) && f.prec && !f.zero && !f.plus && !f.space && (f.left || prec <= 30)
    ensures NumberText(0, false, base, prec, width, f)
         == Layout("", PaddedNumeral(0, base, f.upper, prec, f.left), width, false, f.left)
  {
    hide BufferText, RevDigits, Layout, PaddedNumeral;
    var g := f.(hash := false);
    assert NumberText(0, false, base, prec, width, f) == NumberText(0, false, base, prec, width, g);
    PrecisionNumber(0, false, base, prec, width, g);
  }

  /** A byte in a field of two characters prints as the prefix alone. */
  lemma DigitsLost()
    ensures Text("%#2x", 0, [Arg(0xab, "")], 0, MOD64) == "0x"
  {
    var w := Digits("2");
    LostFormat();
    LostNumeral();
    hide Text, Complete, Numeral, Horner, Decimal, Spec, Repeat, Whole, Lossy;
    assert Reads("", false, 0xab, MOD64, 0xab);
    AlternateLaw("#", w, "", 'x', [Arg(0xab, "")], MOD64, 0xab);
    NoPad('0', 0);
    NoPad(' ', 0);
    assert Filled("ab", 2, false, false) == "ab" && "ab"[2..] == [];
    assert Prefix(16, false) + [] == "0x";
  }

  lemma LostFormat()
    ensures Spec("#", Digits("2"), None, "", 'x') == "%#2x" && Written("#", Digits("2"), None, "", 'x')
    ensures Decimal("2") == 2
  {
    assert Horner("2", 10, 0) == Horner("2"[1..], 10, 2) == 2;
  }

  lemma LostNumeral()
    ensures Numeral(0xab, 16, false) == "ab"
  {
    assert Numeral(0xa, 16, false) == "a";
  }
}
