/**
 The formatter as code: it sends one character at a time to an output that drops what does not
 fit, and what it sends is the text of the format whatever the size of the buffer is.
 */
module FormatCode {

  import opened Common
  import opened Format

  /** The buffer after `text` was sent to it from index 0 on. */
  function Overlay(before: string, maxlen: nat, text: string): (s: string)
    requires maxlen <= |before|
    ensures |s| == |before|
  {
    var n := Min(|text|, maxlen);
    text[..n] + before[n..]
  }

  /** The console does not show the terminator. */
  function Visible(text: string): string {
    if text == [] then []
    else Visible(text[..|text| - 1]) + (if text[|text| - 1] == '\0' then [] else [text[|text| - 1]])
  }

  /** The output function with its buffer: a bounded buffer, the console, or nothing at all. */
  class Output {
    const buffer: array?<char>
    const maxlen: nat
    const console: bool
    var shown: string
    ghost const before: string
    ghost var sent: string

    ghost predicate Valid()
      reads this, buffer
    {
      && shown == (if console then Visible(sent) else [])
      && (buffer != null && !console ==>
          maxlen <= buffer.Length == |before| && buffer[..] == Overlay(before, maxlen, sent))
    }

    constructor Bounded(buffer: array?<char>, maxlen: nat)
      requires buffer != null ==> maxlen <= buffer.Length
      ensures Valid() && sent == [] && this.buffer == buffer && this.maxlen == maxlen && !console
      ensures buffer != null ==> before == buffer[..]
    {
      this.buffer, this.maxlen, console := buffer, maxlen, false;
      shown, sent := [], [];
      before := if buffer == null then [] else buffer[..];
    }

    constructor Console()
      ensures Valid() && sent == [] && console && buffer == null
    {
      buffer, maxlen, console := null, MOD64 - 1, true;
      shown, sent := [], [];
      before := [];
    }

    method Put(c: char, idx: nat)
      requires Valid() && idx == |sent|
      modifies this, buffer
      ensures Valid() && sent == old(sent) + [c]
    {
      if console {
        if c != '\0' {
          shown := shown + [c];
        }
      } else if buffer != null {
        if idx < maxlen {
          buffer[idx] := c;
        }
      }
      sent := sent + [c];
      assert sent[..|sent| - 1] == old(sent);
    }

    /** A loop that sends `n` copies of one character. */
    method Fill(c: char, idx: nat, n: int) returns (next: nat)
      requires Valid() && idx == |sent|
      modifies this, buffer
      ensures Valid() && sent == old(sent) + Repeat(c, n) && next == |sent|
    {
      next := idx;
      var i := 0;
      while i < n
        invariant 0 <= i <= Max(n, 0) && Valid() && next == |sent|
        invariant sent == old(sent) + Repeat(c, i)
      {
        Put(c, next);
        assert Repeat(c, i) + [c] == Repeat(c, i + 1);
        i, next := i + 1, next + 1;
      }
    }
  }

  // ----- numbers ----------------------------------------------------------------------------

  method OutDigits(o: Output, idx: nat, b: array<char>, len: nat) returns (next: nat)
    requires o.Valid() && idx == |o.sent| && len <= b.Length && b != o.buffer
    modifies o, o.buffer
    ensures o.Valid() && o.sent == old(o.sent) + Reverse(b[..len]) && next == |o.sent|
  {
    next := idx;
    var n := len;
    while n > 0
      invariant 0 <= n <= len && o.Valid() && next == |o.sent| && b[..] == old(b[..])
      invariant o.sent == old(o.sent) + Reverse(b[n..len])
    {
      n := n - 1;
      assert b[n..len][1..] == b[n + 1..len];
      o.Put(b[n], next);
      next := next + 1;
    }
    assert b[0..len] == b[..len];
  }

  /** Sends the digit buffer in reverse with its padding. */
  method OutRev(o: Output, idx: nat, b: array<char>, len: nat, width: nat, f: Flags) returns (next: nat)
    requires o.Valid() && idx == |o.sent| && len <= b.Length && b != o.buffer
    modifies o, o.buffer
    ensures o.Valid() && o.sent == old(o.sent) + Reversed(b[..len], width, f) && next == |o.sent|
  {
    hide Repeat, Reverse, Overlay, Visible;
    next := idx;
    if !f.left && !f.zero {
      next := o.Fill(' ', next, width - len);
    }
    next := OutDigits(o, next, b, len);
    if f.left {
      next := o.Fill(' ', next, width - (next - idx));
    }
  }

  /** Appends a character to the digit buffer unless it is full. */
  method PushTo(b: array<char>, len: nat, c: char) returns (n: nat)
    requires len <= b.Length == NTOA_SIZE
    modifies b
    ensures n <= NTOA_SIZE && b[..n] == Push(old(b[..len]), c)
  {
    n := len;
    if n < NTOA_SIZE {
      b[n] := c;
      n := n + 1;
    }
  }

  method ZeroFill(b: array<char>, len: nat, width: nat) returns (n: nat)
    requires len <= b.Length == NTOA_SIZE
    modifies b
    ensures n <= NTOA_SIZE && b[..n] == ZeroPad(old(b[..len]), width)
  {
    n := len;
    while n < width && n < NTOA_SIZE
      invariant len <= n <= Max(len, Min(width, NTOA_SIZE))
      invariant b[..n] == old(b[..len]) + Repeat('0', n - len)
    {
      b[n] := '0';
      n := n + 1;
    }
  }

  method LeadFill(b: array<char>, len: nat, prec: nat, width: nat, f: Flags) returns (n: nat)
    requires len <= b.Length == NTOA_SIZE
    modifies b
    ensures n <= NTOA_SIZE && b[..n] == LeadingZeros(old(b[..len]), prec, width, f)
  {
    n := len;
    if !f.left {
      n := ZeroFill(b, n, prec);
      if f.zero {
        n := ZeroFill(b, n, width);
      }
    }
  }

  method HashFill(b: array<char>, len: nat, base: nat, prec: nat, width: nat, f: Flags) returns (n: nat)
    requires len <= b.Length == NTOA_SIZE
    modifies b
    ensures n <= NTOA_SIZE && b[..n] == HashMarks(old(b[..len]), base, prec, width, f)
  {
    n := len;
    if f.hash {
      if !f.prec && n > 0 && (n == prec || n == width) {
        n := n - 1;
        if n > 0 && base == 16 {
          n := n - 1;
        }
      }
      assert b[..n] == old(b[..len])[..n];
      if base == 16 && !f.upper {
        n := PushTo(b, n, 'x');
      } else if base == 16 && f.upper {
        n := PushTo(b, n, 'X');
      } else if base == 2 {
        n := PushTo(b, n, 'b');
      }
      n := PushTo(b, n, '0');
    }
  }

  method SignFill(b: array<char>, len: nat, negative: bool, f: Flags) returns (n: nat)
    requires len <= b.Length == NTOA_SIZE
    modifies b
    ensures n <= NTOA_SIZE && b[..n] == SignMark(old(b[..len]), f, negative)
  {
    n := len;
    if negative {
      n := PushTo(b, n, '-');
    } else if f.plus {
      n := PushTo(b, n, '+');
    } else if f.space {
      n := PushTo(b, n, ' ');
    }
  }

  method NtoaFormat(o: Output, idx: nat, b: array<char>, len: nat, negative: bool, base: nat, prec: nat,
                    width: nat, f: Flags)
    returns (next: nat)
    requires o.Valid() && idx == |o.sent| && len <= b.Length == NTOA_SIZE && b != o.buffer
    modifies o, o.buffer, b
    ensures o.sent == old(o.sent) + BufferText(old(b[..len]), negative, base, prec, width, f)
    ensures o.Valid() && next == |o.sent|
  {
    var w := DigitWidth(width, f, negative);
    var n := LeadFill(b, len, prec, w, f);
    n := HashFill(b, n, base, prec, w, f);
    n := SignFill(b, n, negative, f);
    next := OutRev(o, idx, b, n, w, f);
  }

  /** The digits of a value, lowest first, into the digit buffer. */
  method Digits(b: array<char>, value: nat, base: nat, upper: bool) returns (len: nat)
    requires b.Length == NTOA_SIZE && IsBase(base)
    modifies b
    ensures len <= NTOA_SIZE && b[..len] == RevDigits(value, base, upper, NTOA_SIZE)
  {
    hide RevDigits, LowDigit, Rest, Digit;
    ghost var goal := RevDigits(value, base, upper, NTOA_SIZE);
    var v, more := value, true;
    len := 0;
    while more
      invariant 0 <= len <= NTOA_SIZE && (more ==> len < NTOA_SIZE)
      invariant more ==> goal == b[..len] + RevDigits(v, base, upper, NTOA_SIZE - len)
      invariant !more ==> goal == b[..len]
      decreases NTOA_SIZE - len, more
    {
      ghost var was := b[..len];
      NextDigit(was, v, base, upper, NTOA_SIZE - len);
      b[len] := Digit(LowDigit(v, base), upper);
      len := len + 1;
      assert b[..len] == was + [Digit(LowDigit(v, base), upper)];
      v := Rest(v, base);
      more := v != 0 && len < NTOA_SIZE;
    }
  }

  lemma NextDigit(was: string, v: nat, base: nat, upper: bool, room: nat)
    requires IsBase(base) && room > 0
    ensures was + RevDigits(v, base, upper, room)
         == (was + [Digit(LowDigit(v, base), upper)])
            + (if Rest(v, base) == 0 || room == 1 then [] else RevDigits(Rest(v, base), base, upper, room - 1))
  {
  }

  /** With a precision a zero gets no digits. */
  method DigitFill(b: array<char>, value: nat, base: nat, f: Flags) returns (len: nat)
    requires b.Length == NTOA_SIZE && IsBase(base)
    modifies b
    ensures len <= NTOA_SIZE && b[..len] == DigitsOf(value, base, f)
  {
    len := 0;
    if !f.prec || value != 0 {
      len := Digits(b, value, base, f.upper);
    }
  }

  method NtoaLong(o: Output, idx: nat, value: nat, negative: bool, base: nat, prec: nat, width: nat, flags: Flags)
    returns (next: nat)
    requires o.Valid() && idx == |o.sent| && IsBase(base)
    modifies o, o.buffer
    ensures o.Valid() && o.sent == old(o.sent) + NumberText(value, negative, base, prec, width, flags)
    ensures next == |o.sent|
  {
    var b := new char[NTOA_SIZE](_ => '\0');
    var f := NumberFlags(value, flags);
    var len := DigitFill(b, value, base, flags);
    next := NtoaFormat(o, idx, b, len, negative, base, prec, width, f);
  }

  // ----- directives -------------------------------------------------------------------------

  method ReadFlags(s: string, i: nat) returns (f: Flags, at: nat)
    ensures (f, at) == ParseFlags(s, i, NO_FLAGS)
  {
    f, at := NO_FLAGS, i;
    while IsFlag(At(s, at))
      invariant i <= at && ParseFlags(s, i, NO_FLAGS) == ParseFlags(s, at, f)
      decreases |s| - at
    {
      f, at := WithFlag(f, s[at]), at + 1;
    }
  }

  method Atoi(s: string, i: nat) returns (n: nat, at: nat)
    ensures (n, at) == ParseNumber(s, i, 0)
  {
    n, at := 0, i;
    while IsDigit(At(s, at))
      invariant i <= at && ParseNumber(s, i, 0) == ParseNumber(s, at, n)
      decreases |s| - at
    {
      n, at := (n * 10 + (s[at] as nat - '0' as nat)) % MOD32, at + 1;
    }
  }

  method ReadWidth(s: string, d: Directive, args: seq<Arg>) returns (r: Directive)
    ensures r == ParseWidth(s, d, args)
  {
    r := d;
    if IsDigit(At(s, d.at)) {
      var w, i := Atoi(s, d.at);
      r := r.(width := w, at := i);
    } else if At(s, d.at) == '*' {
      var w := Signed(ArgAt(args, d.arg).num, MOD32);
      if w < 0 {
        r := r.(flags := r.flags.(left := true), width := -w);
      } else {
        r := r.(width := w);
      }
      r := r.(at := r.at + 1, arg := r.arg + 1);
    }
  }

  method ReadPrecision(s: string, d: Directive, args: seq<Arg>) returns (r: Directive)
    ensures r == ParsePrecision(s, d, args)
  {
    r := d;
    if At(s, r.at) == '.' {
      r := r.(flags := r.flags.(prec := true), at := r.at + 1);
      if IsDigit(At(s, r.at)) {
        var p, i := Atoi(s, r.at);
        r := r.(precision := p, at := i);
      } else if At(s, r.at) == '*' {
        var p := Signed(ArgAt(args, r.arg).num, MOD32);
        r := r.(precision := if p > 0 then p else 0, at := r.at + 1, arg := r.arg + 1);
      }
    }
  }

  method ReadDirective(s: string, i: nat, args: seq<Arg>, a: nat, long: nat) returns (d: Directive)
    ensures d == Parse(s, i, args, a, long)
  {
    var f, j := ReadFlags(s, i);
    d := ReadWidth(s, Directive(f, 0, 0, j, a), args);
    d := ReadPrecision(s, d, args);
    d := ParseLength(s, d, long);
  }

  /** Measures a string up to a limit. */
  method Strnlen(s: string, limit: nat, ghost size: nat) returns (n: nat)
    requires CString(s, size)
    ensures n == Min(|s|, limit) % MOD32
  {
    var k, left := 0, limit;
    while At(s, k) != '\0' && left > 0
      invariant 0 <= k <= |s| && k + left == limit
      decreases left
    {
      k, left := k + 1, left - 1;
    }
    n := k % MOD32;
  }

  /** The length the field is filled up from; `size` is the number of values of a `size_t`. */
  method FieldLength(s: string, d: Directive, size: nat) returns (l: nat)
    requires CString(s, size) && Coherent(d)
    ensures l == |StringPart(s, d)| % MOD32
  {
    l := Strnlen(s, if d.precision > 0 then d.precision else size - 1, size);
    if d.flags.prec {
      l := if l < d.precision then l else d.precision;
    }
  }

  method PrintString(o: Output, idx: nat, s: string, d: Directive, size: nat) returns (next: nat)
    requires o.Valid() && idx == |o.sent| && CString(s, size) && Coherent(d)
    modifies o, o.buffer
    ensures var part := StringPart(s, d);
            o.sent == old(o.sent) + FieldText(part, d.width, |part| % MOD32, d.flags.left)
    ensures o.Valid() && next == |o.sent|
  {
    var l := FieldLength(s, d, size);
    next := idx;
    if !d.flags.left {
      next := o.Fill(' ', next, d.width - l);
    }
    next := OutString(o, next, s, d, size);
    if d.flags.left {
      next := o.Fill(' ', next, d.width - l);
    }
  }

  method OutString(o: Output, idx: nat, s: string, d: Directive, ghost size: nat) returns (next: nat)
    requires o.Valid() && idx == |o.sent| && CString(s, size)
    modifies o, o.buffer
    ensures o.sent == old(o.sent) + StringPart(s, d) && o.Valid() && next == |o.sent|
  {
    next := idx;
    var k := 0;
    while At(s, k) != '\0' && (!d.flags.prec || k < d.precision)
      invariant 0 <= k <= |s| && (d.flags.prec ==> k <= d.precision) && o.Valid() && next == |o.sent|
      invariant o.sent == old(o.sent) + s[..k]
      decreases |s| - k
    {
      o.Put(s[k], next);
      k, next := k + 1, next + 1;
    }
  }

  method PrintChar(o: Output, idx: nat, c: char, d: Directive) returns (next: nat)
    requires o.Valid() && idx == |o.sent|
    modifies o, o.buffer
    ensures o.sent == old(o.sent) + FieldText([c], d.width, 1, d.flags.left) && o.Valid() && next == |o.sent|
  {
    next := idx;
    if !d.flags.left {
      next := o.Fill(' ', next, d.width - 1);
    }
    o.Put(c, next);
    next := next + 1;
    if d.flags.left {
      next := o.Fill(' ', next, d.width - 1);
    }
  }

  /** One directive, by its conversion character. */
  method Convert(o: Output, idx: nat, c: char, d: Directive, arg: Arg, long: nat) returns (next: nat)
    requires o.Valid() && idx == |o.sent| && Coherent(d)
    requires (long == MOD32 || long == MOD64) && CString(arg.str, long)
    modifies o, o.buffer
    ensures o.sent == old(o.sent) + DirectiveText(c, d, arg, long) && o.Valid() && next == |o.sent|
  {
    if IsInteger(c) {
      var v := IntegerValue(c, d.flags, arg.num, long);
      next := NtoaLong(o, idx, if v < 0 then -v else v, v < 0, BaseOf(c), d.precision, d.width,
                       IntegerFlags(c, d.flags));
    } else if c == 'c' {
      next := PrintChar(o, idx, Unsigned(arg.num, MOD8) as char, d);
    } else if c == 's' {
      next := PrintString(o, idx, arg.str, d, long);
    } else if c == 'p' {
      next := NtoaLong(o, idx, Unsigned(arg.num, long), false, 16, d.precision, if long == MOD64 then 16 else 8,
                       d.flags.(zero := true, upper := true));
    } else {
      o.Put(c, idx);
      next := idx + 1;
    }
  }

  /** A round of the loop that meets a percent sign. */
  method SendDirective(o: Output, idx: nat, s: string, i: nat, args: seq<Arg>, a: nat, long: nat)
    returns (next: nat, j: nat, b: nat)
    requires o.Valid() && idx == |o.sent|
    requires long == MOD32 || long == MOD64
    requires forall k :: 0 <= k < |args| ==> CString(args[k].str, long)
    requires Complete(s, i, args, a, long) && i < |s| && s[i] == '%'
    modifies o, o.buffer
    ensures o.Valid() && next == |o.sent| && i < j <= |s| && Complete(s, j, args, b, long)
    ensures o.sent + Text(s, j, args, b, long) == old(o.sent) + Text(s, i, args, a, long)
  {
    hide *;
    var d := ReadDirective(s, i + 1, args, a, long);
    CompleteStep(s, i, args, a, long, d);
    TextStep(s, i, args, a, long, d);
    j, b := d.at + 1, d.arg + ArgsUsed(s[d.at]);
    ghost var rest := Text(s, j, args, b, long);
    next := ConvertAt(o, idx, s, d, args, long);
    assert old(o.sent) + (Piece(s, d, args, long) + rest) == o.sent + rest;
  }

  method ConvertAt(o: Output, idx: nat, s: string, d: Directive, args: seq<Arg>, long: nat) returns (next: nat)
    requires o.Valid() && idx == |o.sent| && Coherent(d) && d.at < |s|
    requires long == MOD32 || long == MOD64
    requires forall k :: 0 <= k < |args| ==> CString(args[k].str, long)
    modifies o, o.buffer
    ensures o.sent == old(o.sent) + Piece(s, d, args, long) && o.Valid() && next == |o.sent|
  {
    next := Convert(o, idx, s[d.at], d, ArgAt(args, d.arg), long);
  }

  /** The loop over the format. */
  method SendAll(o: Output, s: string, args: seq<Arg>, long: nat) returns (idx: nat)
    requires o.Valid() && o.sent == []
    requires (long == MOD32 || long == MOD64) && CString(s, long)
    requires forall k :: 0 <= k < |args| ==> CString(args[k].str, long)
    requires Complete(s, 0, args, 0, long)
    modifies o, o.buffer
    ensures o.sent == Text(s, 0, args, 0, long) && o.Valid() && idx == |o.sent|
  {
    hide Text, Complete, Overlay, Visible;
    TextEnd(s, args, long);
    idx := 0;
    var i: nat, a: nat := 0, 0;
    while At(s, i) != '\0'
      invariant i <= |s| && Complete(s, i, args, a, long) && o.Valid() && idx == |o.sent|
      invariant Text(s, 0, args, 0, long) == o.sent + Text(s, i, args, a, long)
      decreases |s| - i
    {
      if s[i] != '%' {
        TextPlain(s, i, args, a, long);
        o.Put(s[i], idx);
        i, idx := i + 1, idx + 1;
      } else {
        idx, i, a := SendDirective(o, idx, s, i, args, a, long);
      }
    }
  }

  /**
   The buffer after a call: the first characters of the text, as many as leave room for the
   terminator, then the terminator, and everything behind it as it was.
   */
  ghost predicate Terminated(before: string, maxlen: nat, text: string, after: string) {
    && |after| == |before| >= maxlen
    && if maxlen == 0 then after == before
       else
         var m := Min(|text|, maxlen - 1);
         after[..m] == text[..m] && after[m] == '\0' && after[m + 1..] == before[m + 1..]
  }

  /** The terminator goes behind the text or into the last byte; with no room at all it is dropped. */
  method Terminate(o: Output, idx: nat)
    requires o.Valid() && idx == |o.sent| && o.maxlen < MOD64
    modifies o.buffer
    ensures o.buffer != null && !o.console ==> Terminated(o.before, o.maxlen, o.sent, o.buffer[..])
  {
    if !o.console && o.buffer != null {
      var at := if idx < o.maxlen then idx else (o.maxlen - 1) % MOD64;
      if at < o.maxlen {
        o.buffer[at] := '\0';
      }
    }
  }

  /**
   The result is the length of the text, and the text does not depend on the buffer.  The length
   is returned as a 32-bit int.
   */
  method VsnprintfInner(o: Output, s: string, args: seq<Arg>, long: nat) returns (r: int)
    requires o.Valid() && o.sent == [] && o.maxlen < MOD64
    requires (long == MOD32 || long == MOD64) && CString(s, long)
    requires forall k :: 0 <= k < |args| ==> CString(args[k].str, long)
    requires Complete(s, 0, args, 0, long)
    modifies o, o.buffer
    ensures r == Signed(|Text(s, 0, args, 0, long)|, MOD32)
    ensures r == |Text(s, 0, args, 0, long)| <==> |Text(s, 0, args, 0, long)| < MOD32 / 2
    ensures o.console ==> o.shown == Visible(Text(s, 0, args, 0, long))
    ensures o.buffer != null && !o.console ==>
              Terminated(old(o.buffer[..]), o.maxlen, Text(s, 0, args, 0, long), o.buffer[..])
  {
    hide Text, Complete, Terminated, Overlay, Visible;
    if o.buffer != null && !o.console {
      NothingSent(o.before, o.maxlen);
    }
    var idx := SendAll(o, s, args, long);
    Terminate(o, idx);
    r := Signed(idx, MOD32);
  }

  lemma NothingSent(before: string, maxlen: nat)
    requires maxlen <= |before|
    ensures Overlay(before, maxlen, []) == before
  {
  }

  /** What a shorter buffer holds is a prefix of what a longer one holds. */
  lemma ShorterIsPrefix(b0: string, n0: nat, a0: string, b1: string, n1: nat, a1: string, text: string)
    requires 0 < n0 <= n1 && Terminated(b0, n0, text, a0) && Terminated(b1, n1, text, a1)
    ensures var m := Min(|text|, n0 - 1);
            a0[..m] <= a1 && (n1 > |text| ==> a1[..|text|] == text && a1[|text|] == '\0')
  {
    var m, n := Min(|text|, n0 - 1), Min(|text|, n1 - 1);
    assert text[..m] == text[..n][..m] == a1[..n][..m];
    assert n == |text| ==> text[..n] == text;
  }
}
