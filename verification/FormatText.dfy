/**
 Formats compose: a format put behind another prints behind it, with the arguments that the first
 one left.
 */
module FormatText {

  import opened Common
  import opened Format

  // ----- a directive that ends inside a format does not look behind it ------------------------

  lemma {:induction false} FlagsLocal(f: string, g: string, i: nat, fl: Flags)
    requires ParseFlags(f, i, fl).1 < |f|
    ensures ParseFlags(f + g, i, fl) == ParseFlags(f, i, fl)
    decreases |f| - i
  {
    if i < |f| && IsFlag(f[i]) {
      FlagsLocal(f, g, i + 1, WithFlag(fl, f[i]));
    }
  }

  lemma {:induction false} NumberLocal(f: string, g: string, i: nat, n: nat)
    requires ParseNumber(f, i, n).1 < |f|
    ensures ParseNumber(f + g, i, n) == ParseNumber(f, i, n)
    decreases |f| - i
  {
    if i < |f| && IsDigit(f[i]) {
      NumberLocal(f, g, i + 1, (n * 10 + (f[i] as nat - '0' as nat)) % MOD32);
    }
  }

  lemma WidthLocal(f: string, g: string, d: Directive, args: seq<Arg>)
    requires ParseWidth(f, d, args).at < |f|
    ensures ParseWidth(f + g, d, args) == ParseWidth(f, d, args)
  {
    if IsDigit(At(f, d.at)) {
      NumberLocal(f, g, d.at, 0);
    }
  }

  lemma PrecisionLocal(f: string, g: string, d: Directive, args: seq<Arg>)
    requires ParsePrecision(f, d, args).at < |f|
    ensures ParsePrecision(f + g, d, args) == ParsePrecision(f, d, args)
  {
    if At(f, d.at) == '.' && IsDigit(At(f, d.at + 1)) {
      NumberLocal(f, g, d.at + 1, 0);
    }
  }

  lemma LengthLocal(f: string, g: string, d: Directive, long: nat)
    requires ParseLength(f, d, long).at < |f|
    ensures ParseLength(f + g, d, long) == ParseLength(f, d, long)
  {
  }

  lemma ParseLocal(f: string, g: string, i: nat, args: seq<Arg>, a: nat, long: nat)
    requires Parse(f, i, args, a, long).at < |f|
    ensures Parse(f + g, i, args, a, long) == Parse(f, i, args, a, long)
  {
    hide ParseFlags, ParseWidth, ParsePrecision, ParseLength;
    var (fl, j) := ParseFlags(f, i, NO_FLAGS);
    var w := ParseWidth(f, Directive(fl, 0, 0, j, a), args);
    var p := ParsePrecision(f, w, args);
    LengthLocal(f, g, p, long);
    PrecisionLocal(f, g, w, args);
    WidthLocal(f, g, Directive(fl, 0, 0, j, a), args);
    FlagsLocal(f, g, i, NO_FLAGS);
  }

  // ----- reading the second format ------------------------------------------------------------

  /** A directive of the second format, seen from the first. */
  function Moved(d: Directive, offset: nat): Directive {
    d.(at := d.at + offset)
  }

  lemma {:induction false} FlagsMove(f: string, g: string, i: nat, fl: Flags)
    ensures ParseFlags(f + g, |f| + i, fl) == (ParseFlags(g, i, fl).0, |f| + ParseFlags(g, i, fl).1)
    decreases |g| - i
  {
    if i < |g| && IsFlag(g[i]) {
      FlagsMove(f, g, i + 1, WithFlag(fl, g[i]));
    }
  }

  lemma {:induction false} NumberMove(f: string, g: string, i: nat, n: nat)
    ensures ParseNumber(f + g, |f| + i, n) == (ParseNumber(g, i, n).0, |f| + ParseNumber(g, i, n).1)
    decreases |g| - i
  {
    if i < |g| && IsDigit(g[i]) {
      NumberMove(f, g, i + 1, (n * 10 + (g[i] as nat - '0' as nat)) % MOD32);
    }
  }

  lemma WidthMove(f: string, g: string, d: Directive, args: seq<Arg>)
    ensures ParseWidth(f + g, Moved(d, |f|), args) == Moved(ParseWidth(g, d, args), |f|)
  {
    NumberMove(f, g, d.at, 0);
  }

  lemma PrecisionMove(f: string, g: string, d: Directive, args: seq<Arg>)
    ensures ParsePrecision(f + g, Moved(d, |f|), args) == Moved(ParsePrecision(g, d, args), |f|)
  {
    NumberMove(f, g, d.at + 1, 0);
  }

  lemma LengthMove(f: string, g: string, d: Directive, long: nat)
    ensures ParseLength(f + g, Moved(d, |f|), long) == Moved(ParseLength(g, d, long), |f|)
  {
  }

  lemma ParseMove(f: string, g: string, i: nat, args: seq<Arg>, a: nat, long: nat)
    ensures Parse(f + g, |f| + i, args, a, long) == Moved(Parse(g, i, args, a, long), |f|)
  {
    hide ParseFlags, ParseWidth, ParsePrecision, ParseLength;
    var (fl, j) := ParseFlags(g, i, NO_FLAGS);
    var d := Directive(fl, 0, 0, j, a);
    var w := ParseWidth(g, d, args);
    var p := ParsePrecision(g, w, args);
    FlagsMove(f, g, i, NO_FLAGS);
    WidthMove(f, g, d, args);
    PrecisionMove(f, g, w, args);
    LengthMove(f, g, p, long);
  }

  lemma {:induction false} TextMove(f: string, g: string, i: nat, args: seq<Arg>, a: nat, long: nat)
    requires (long == MOD32 || long == MOD64) && Complete(g, i, args, a, long)
    ensures Complete(f + g, |f| + i, args, a, long)
    ensures Text(f + g, |f| + i, args, a, long) == Text(g, i, args, a, long)
    decreases |g| - i
  {
    hide Parse, DirectiveText;
    if i < |g| {
      if g[i] != '%' {
        TextMove(f, g, i + 1, args, a, long);
      } else {
        var d := Parse(g, i + 1, args, a, long);
        ParseMove(f, g, i + 1, args, a, long);
        SamePiece(d, Moved(d, |f|), g[d.at], ArgAt(args, d.arg), long);
        TextMove(f, g, d.at + 1, args, d.arg + ArgsUsed(g[d.at]), long);
      }
    }
  }

  /** The text of a directive does not depend on where in the format it stands. */
  lemma SamePiece(d: Directive, e: Directive, c: char, arg: Arg, long: nat)
    requires (long == MOD32 || long == MOD64) && e == d.(at := e.at)
    ensures DirectiveText(c, d, arg, long) == DirectiveText(c, e, arg, long)
  {
    hide NumberText;
  }

  // ----- composition ------------------------------------------------------------------------

  /** The next argument behind a format. */
  function ArgsAfter(s: string, i: nat, args: seq<Arg>, a: nat, long: nat): nat
    decreases |s| - i
  {
    if i >= |s| then a
    else if s[i] != '%' then ArgsAfter(s, i + 1, args, a, long)
    else
      var d := Parse(s, i + 1, args, a, long);
      if d.at >= |s| then d.arg else ArgsAfter(s, d.at + 1, args, d.arg + ArgsUsed(s[d.at]), long)
  }

  lemma AfterStep(s: string, i: nat, args: seq<Arg>, a: nat, long: nat, d: Directive)
    requires i < d.at < |s| && s[i] == '%' && d == Parse(s, i + 1, args, a, long)
    ensures ArgsAfter(s, i, args, a, long) == ArgsAfter(s, d.at + 1, args, d.arg + ArgsUsed(s[d.at]), long)
  {
    hide Parse, ArgsUsed;
  }

  lemma PieceLocal(f: string, g: string, d: Directive, args: seq<Arg>, long: nat)
    requires (long == MOD32 || long == MOD64) && d.at < |f|
    ensures Piece(f + g, d, args, long) == Piece(f, d, args, long)
  {
    hide DirectiveText;
  }

  /** Printing with one format put behind another is printing with the one and then with the other. */
  lemma {:induction false} TextAppend(f: string, g: string, i: nat, args: seq<Arg>, a: nat, long: nat)
    requires (long == MOD32 || long == MOD64) && i <= |f| && Complete(f, i, args, a, long)
    requires Complete(g, 0, args, ArgsAfter(f, i, args, a, long), long)
    ensures Complete(f + g, i, args, a, long)
    ensures Text(f + g, i, args, a, long)
         == Text(f, i, args, a, long) + Text(g, 0, args, ArgsAfter(f, i, args, a, long), long)
    decreases |f| - i, 1
  {
    hide Parse, Piece, ArgsUsed;
    if i == |f| {
      TextMove(f, g, 0, args, a, long);
    } else if f[i] != '%' {
      TextAppend(f, g, i + 1, args, a, long);
    } else {
      AppendDirective(f, g, i, args, a, long, Parse(f, i + 1, args, a, long));
    }
  }

  lemma {:induction false} AppendDirective(f: string, g: string, i: nat, args: seq<Arg>, a: nat, long: nat,
                                           d: Directive)
    requires (long == MOD32 || long == MOD64) && i < |f| && f[i] == '%' && Complete(f, i, args, a, long)
    requires Complete(g, 0, args, ArgsAfter(f, i, args, a, long), long) && d == Parse(f, i + 1, args, a, long)
    ensures Complete(f + g, i, args, a, long)
    ensures Text(f + g, i, args, a, long)
         == Text(f, i, args, a, long) + Text(g, 0, args, ArgsAfter(f, i, args, a, long), long)
    decreases |f| - i, 0
  {
    hide Complete, Text, ArgsAfter, Parse, Piece, ArgsUsed, IsFloat;
    CompleteStep(f, i, args, a, long, d);
    var b := d.arg + ArgsUsed(f[d.at]);
    AfterStep(f, i, args, a, long, d);
    TextAppend(f, g, d.at + 1, args, b, long);
    ParseLocal(f, g, i + 1, args, a, long);
    PieceLocal(f, g, d, args, long);
    CompleteBefore(f + g, i, args, a, long, d);
    TextStep(f, i, args, a, long, d);
    TextStep(f + g, i, args, a, long, d);
  }

  /** A format without a percent sign prints itself. */
  lemma {:induction false} PlainText(s: string, i: nat, args: seq<Arg>, a: nat, long: nat)
    requires (long == MOD32 || long == MOD64) && i <= |s| && '%' !in s
    ensures Complete(s, i, args, a, long) && Text(s, i, args, a, long) == s[i..]
    decreases |s| - i
  {
    hide Parse, DirectiveText;
    if i < |s| {
      PlainText(s, i + 1, args, a, long);
    }
  }

  lemma {:induction false} AllSpaces(n: int, k: nat)
    requires k < n
    ensures Repeat(' ', n)[k] == ' '
    decreases n
  {
    if k < n - 1 {
      AllSpaces(n - 1, k);
    }
  }

  /** A string prints its first characters, as many as the precision allows, on its side of the field, and spaces. */
  lemma StringText(d: Directive, arg: Arg, long: nat)
    requires (long == MOD32 || long == MOD64) && |arg.str| < MOD32
    ensures var t := DirectiveText('s', d, arg, long);
            var n := if d.flags.prec then Min(d.precision, |arg.str|) else |arg.str|;
            var at := if d.flags.left then 0 else |t| - n;
            && |t| == Max(d.width, n) && t[at..at + n] == arg.str[..n]
            && forall k :: 0 <= k < |t| && !(at <= k < at + n) ==> t[k] == ' '
  {
    hide Repeat;
    var t := DirectiveText('s', d, arg, long);
    var part := StringPart(arg.str, d);
    var n := |part|;
    var at := if d.flags.left then 0 else |t| - n;
    assert part == arg.str[..n];
    forall k | 0 <= k < |t| && !(at <= k < at + n)
      ensures t[k] == ' '
    {
      AllSpaces(d.width - n, if d.flags.left then k - n else k);
    }
  }
}
