/**
 The streaming MD5 of the test suite: buffering, padding and encoding, over an arbitrary block
 transform.  The reference is the padding of sections 3.1 and 3.2 of RFC 1321 followed by a fold
 of the transform over 64-byte blocks.
 */
module Md5 {

  import opened Common

  type byte = x: int | 0 <= x < 256
  type u32 = x: int | 0 <= x < 0x1_0000_0000
  type u64 = x: int | 0 <= x < 0x1_0000_0000_0000_0000

  datatype Words = Words(a: u32, b: u32, c: u32, d: u32)
  type Transform = (Words, seq<byte>) -> Words

  const INIT := Words(0x67452301, 0xefcdab89, 0x98badcfe, 0x10325476)

  // ----- the reference ----------------------------------------------------------------------

  /** Run the transform over whole 64-byte blocks. */
  function Fold(f: Transform, st: Words, s: seq<byte>): Words
    requires |s| % 64 == 0
    decreases |s|
  {
    if s == [] then st else Fold(f, f(st, s[..64]), s[64..])
  }

  function Zeros(n: nat): (z: seq<byte>)
    ensures |z| == n && forall k :: 0 <= k < n ==> z[k] == 0
  {
    seq(n, _ => 0)
  }

  /** The bytes of a 32-bit word, low byte first. */
  function WordBytes(w: u32): (b: seq<byte>)
    ensures |b| == 4
  {
    [w % 256, w / 0x100 % 256, w / 0x1_0000 % 256, w / 0x100_0000]
  }

  function EncodeWords(ws: seq<u32>): (b: seq<byte>)
    ensures |b| == 4 * |ws|
  {
    if ws == [] then [] else WordBytes(ws[0]) + EncodeWords(ws[1..])
  }

  function Join(a: int, b: int, c: int, d: int): int {
    a + b * 0x100 + c * 0x1_0000 + d * 0x100_0000
  }

  function BytesWord(b: seq<byte>): (w: u32)
    requires |b| == 4
  {
    Join(b[0], b[1], b[2], b[3])
  }

  function DecodeBytes(b: seq<byte>): (ws: seq<u32>)
    requires |b| % 4 == 0
    ensures |ws| == |b| / 4
  {
    if b == [] then [] else [BytesWord(b[..4])] + DecodeBytes(b[4..])
  }

  function LengthBytes(bits: u64): (b: seq<byte>)
    ensures |b| == 8
  {
    EncodeWords([bits % 0x1_0000_0000, bits / 0x1_0000_0000])
  }

  /** A one bit, the fewest zero bits that leave room for the length, and the 64-bit length of `m`. */
  function Padding(m: nat): (p: seq<byte>)
    ensures |p| == 9 + ZeroBytes(m)
  {
    [0x80] + Zeros(ZeroBytes(m)) + LengthBytes(8 * m % 0x1_0000_0000_0000_0000)
  }

  /** The fewest zero bytes that end the padded message at a block boundary. */
  function ZeroBytes(m: nat): (n: nat)
    ensures n < 64 && (m + 9 + n) % 64 == 0
  {
    (119 - m % 64) % 64
  }

  function Digest(f: Transform, msg: seq<byte>): seq<byte> {
    var w := Fold(f, INIT, msg + Padding(|msg|));
    EncodeWords([w.a, w.b, w.c, w.d])
  }

  // ----- lemmas about the reference ---------------------------------------------------------

  lemma {:induction false} FoldAppend(f: Transform, st: Words, s: seq<byte>, t: seq<byte>)
    requires |s| % 64 == 0 && |t| % 64 == 0
    ensures Fold(f, st, s + t) == Fold(f, Fold(f, st, s), t)
    decreases |s|
  {
    if s == [] {
      assert s + t == t;
    } else {
      assert (s + t)[..64] == s[..64] && (s + t)[64..] == s[64..] + t;
      FoldAppend(f, f(st, s[..64]), s[64..], t);
    }
  }

  lemma FoldBlock(f: Transform, st: Words, s: seq<byte>, block: seq<byte>)
    requires |s| % 64 == 0 && |block| == 64
    ensures Fold(f, st, s + block) == f(Fold(f, st, s), block)
  {
    FoldAppend(f, st, s, block);
    assert block[..64] == block && block[64..] == [];
  }

  lemma LowByte(b: int, q: int)
    requires 0 <= b < 256
    ensures (b + 256 * q) / 256 == q && (b + 256 * q) % 256 == b
  {}

  lemma Shifts(w: int)
    requires 0 <= w
    ensures w / 0x1_0000 == w / 0x100 / 0x100 && w / 0x100_0000 == w / 0x100 / 0x100 / 0x100
  {}

  lemma Split(a: int, b: int, c: int, d: int, w: int)
    requires 0 <= a < 256 && 0 <= b < 256 && 0 <= c < 256 && 0 <= d < 256 && w == Join(a, b, c, d)
    ensures w % 256 == a && w / 0x100 % 256 == b && w / 0x1_0000 % 256 == c && w / 0x100_0000 == d
  {
    LowByte(a, b + 256 * (c + 256 * d));
    LowByte(b, c + 256 * d);
    LowByte(c, d);
    Shifts(w);
  }

  lemma BytesRoundTrip(b: seq<byte>)
    requires |b| == 4
    ensures WordBytes(BytesWord(b)) == b
  {
    Split(b[0], b[1], b[2], b[3], BytesWord(b));
  }

  lemma WordRoundTrip(w: u32)
    ensures BytesWord(WordBytes(w)) == w
  {
    Shifts(w);
  }

  /** Decoding undoes encoding. */
  lemma {:induction false} DecodeEncode(ws: seq<u32>)
    ensures DecodeBytes(EncodeWords(ws)) == ws
  {
    if ws != [] {
      var b := EncodeWords(ws);
      assert b[..4] == WordBytes(ws[0]) && b[4..] == EncodeWords(ws[1..]);
      WordRoundTrip(ws[0]);
      DecodeEncode(ws[1..]);
    }
  }

  lemma EncodeCons(w: u32, ws: seq<u32>)
    ensures EncodeWords([w] + ws) == WordBytes(w) + EncodeWords(ws)
  {
    assert ([w] + ws)[1..] == ws;
  }

  /** Encoding undoes decoding. */
  lemma {:induction false} EncodeDecode(b: seq<byte>)
    requires |b| % 4 == 0
    ensures EncodeWords(DecodeBytes(b)) == b
  {
    if b != [] {
      EncodeDecode(b[4..]);
      EncodeCons(BytesWord(b[..4]), DecodeBytes(b[4..]));
      assert WordBytes(BytesWord(b[..4])) == b[..4] by { BytesRoundTrip(b[..4]); }
      assert b == b[..4] + b[4..];
    }
  }

  // ----- the code ---------------------------------------------------------------------------

  /** Encode words into bytes, low byte first, four bytes a round. */
  method Encode(input: seq<u32>) returns (output: seq<byte>)
    ensures output == EncodeWords(input)
  {
    hide EncodeWords;
    output := [];
    var i := 0;
    assert input[0..] == input;
    while i < |input|
      invariant 0 <= i <= |input|
      invariant output + EncodeWords(input[i..]) == EncodeWords(input)
    {
      var w := input[i];
      assert input[i..] == [w] + input[i + 1..];
      EncodeCons(w, input[i + 1..]);
      output := output + [w % 256, w / 0x100 % 256, w / 0x1_0000 % 256, w / 0x100_0000 % 256];
      i := i + 1;
    }
  }

  /** Decode bytes into words, four bytes a round. */
  method Decode(input: seq<byte>) returns (output: seq<u32>)
    requires |input| % 4 == 0
    ensures output == DecodeBytes(input)
  {
    output := [];
    var j := 0;
    while j < |input|
      invariant 0 <= j <= |input| && j % 4 == 0
      invariant output + DecodeBytes(input[j..]) == DecodeBytes(input)
    {
      DecodeStep(input, j);
      output := output + [Join(input[j], input[j + 1], input[j + 2], input[j + 3])];
      j := j + 4;
    }
  }

  lemma DecodeStep(b: seq<byte>, j: nat)
    requires |b| % 4 == 0 && j % 4 == 0 && j + 4 <= |b|
    ensures DecodeBytes(b[j..]) == [Join(b[j], b[j + 1], b[j + 2], b[j + 3])] + DecodeBytes(b[j + 4..])
  {
    assert b[j..][4..] == b[j + 4..] && b[j..][..4] == [b[j], b[j + 1], b[j + 2], b[j + 3]];
  }

  /** The bits of one call's input, as `inputLen << 3` gives them in a 64-bit or 32-bit `size_t`. */
  function CallBits(len: nat, wide: bool): nat {
    if wide then 8 * len % MOD64 else 8 * len % 0x1_0000_0000
  }

  function AddBits(count: u64, len: nat, wide: bool): u64 {
    (count + CallBits(len, wide)) % MOD64
  }

  /** The running context: chaining state, bit count and the bytes of an unfinished block. */
  class Context {
    var state: Words
    var count: u64
    const buffer: array<byte>

    constructor (ghost f: Transform, ghost msg: seq<byte>)
      requires msg == []
      ensures fresh(buffer) && Holds(f, msg) && Counts(msg)
    {
      buffer := new byte[64];
      count := 0;
      state := INIT;
      new;
      EmptyMessage(f, msg);
      assert buffer[..|msg| % 64] == [];
    }

    /** The context stands for `msg`: whole blocks are folded into the state, the rest is buffered. */
    ghost predicate Holds(f: Transform, msg: seq<byte>)
      reads this, buffer
    {
      && buffer.Length == 64
      && state == Fold(f, INIT, msg[..Whole(|msg|)])
      && count / 8 % 64 == |msg| % 64
      && buffer[..|msg| % 64] == msg[Whole(|msg|)..]
    }

    ghost predicate Counts(msg: seq<byte>)
      reads this
    {
      count == 8 * |msg| % MOD64
    }

    /** Absorb `input`; `wide` says whether `size_t` has 64 or 32 bits. */
    method Update(f: Transform, input: seq<byte>, wide: bool, ghost msg: seq<byte>)
      requires Holds(f, msg)
      modifies this, buffer
      ensures Holds(f, msg + input)
      ensures count == AddBits(old(count), |input|, wide)
    {
      var index := count / 8 % 64;
      CountStep(count, |input|, wide, |msg|);
      count := AddBits(count, |input|, wide);
      var partLen := 64 - index;
      var i := 0;
      if |input| >= partLen {
        i := FillBlock(f, input, index, partLen, msg);
        index := 0;
      }
      TailAfter(msg, input, i);
      Copy(index, input[i..]);
    }

    /** Complete the buffered block, transform it and every whole block after it. */
    method FillBlock(f: Transform, input: seq<byte>, index: nat, partLen: nat, ghost msg: seq<byte>) returns (i: nat)
      requires buffer.Length == 64 && index == |msg| % 64 && partLen == 64 - index && partLen <= |input|
      requires state == Fold(f, INIT, msg[..Whole(|msg|)]) && buffer[..index] == msg[Whole(|msg|)..]
      modifies `state, buffer
      ensures 0 < i <= |input| < i + 64 && (|msg| + i) % 64 == 0
      ensures state == Fold(f, INIT, (msg + input)[..|msg| + i])
    {
      ghost var w, all := Whole(|msg|), msg + input;
      Copy(index, input[..partLen]);
      assert w + 64 == |msg| + partLen && all[..w] == msg[..w];
      assert buffer[..] == buffer[..64] == msg[w..] + input[..partLen] == all[w..w + 64];
      ExtendFold(f, all, w);
      state := f(state, buffer[..]);
      i := TransformBlocks(f, input, partLen, msg);
    }

    /** Copy bytes into the buffer at `index`. */
    method Copy(index: nat, bytes: seq<byte>)
      requires buffer.Length == 64 && index + |bytes| <= 64
      modifies buffer
      ensures buffer[..index + |bytes|] == old(buffer[..index]) + bytes
    {
      forall k | 0 <= k < |bytes| { buffer[index + k] := bytes[k]; }
    }

    /** Transform the whole blocks of `input` from `start` on, and return where the rest begins. */
    method TransformBlocks(f: Transform, input: seq<byte>, start: nat, ghost msg: seq<byte>) returns (i: nat)
      requires start <= |input| && (|msg| + start) % 64 == 0 && state == Fold(f, INIT, (msg + input)[..|msg| + start])
      modifies `state
      ensures start <= i <= |input| < i + 64 && (|msg| + i) % 64 == 0
      ensures state == Fold(f, INIT, (msg + input)[..|msg| + i])
    {
      i := start;
      ghost var all := msg + input;
      hide Fold;
      while i + 63 < |input|
        invariant start <= i <= |input| && (|msg| + i) % 64 == 0
        invariant state == Fold(f, INIT, all[..|msg| + i])
      {
        assert input[i..i + 64] == all[|msg| + i..|msg| + i + 64];
        ExtendFold(f, all, |msg| + i);
        state := f(state, input[i..i + 64]);
        i := i + 64;
      }
    }
  }

  /** The length of the whole blocks in a message of `n` bytes. */
  function Whole(n: nat): (w: nat)
    ensures w <= n && w % 64 == 0 && n - w == n % 64
  {
    n / 64 * 64
  }

  /** The bytes consumed end on the last block boundary. */
  lemma WholeAfter(m: nat, len: nat, i: nat)
    requires i <= len
    requires if i == 0 then m % 64 + len < 64 else (m + i) % 64 == 0 && len < i + 64
    ensures Whole(m + len) == if i == 0 then Whole(m) else m + i
    ensures (m + len) % 64 == if i == 0 then m % 64 + len else len - i
  {}

  lemma TailAfter(msg: seq<byte>, input: seq<byte>, i: nat)
    requires i <= |input|
    requires if i == 0 then |msg| % 64 + |input| < 64 else (|msg| + i) % 64 == 0 && |input| < i + 64
    ensures var all := msg + input; var w := Whole(|all|);
            && |all| % 64 == (if i == 0 then |msg| % 64 else 0) + |input[i..]|
            && all[w..] == (if i == 0 then msg[Whole(|msg|)..] else []) + input[i..]
            && all[..w] == if i == 0 then msg[..Whole(|msg|)] else all[..|msg| + i]
  {
    WholeAfter(|msg|, |input|, i);
  }

  lemma EmptyMessage(f: Transform, msg: seq<byte>)
    requires msg == []
    ensures Whole(|msg|) == 0 && msg[Whole(|msg|)..] == [] && Fold(f, INIT, msg[..Whole(|msg|)]) == INIT
    ensures |msg| % 64 == 0 && 8 * |msg| % MOD64 == 0
  {}

  /** The byte position in a block follows the message length, whatever the width of the count of one call. */
  lemma CountStep(count: u64, len: nat, wide: bool, m: nat)
    requires count / 8 % 64 == m % 64
    ensures AddBits(count, len, wide) / 8 % 64 == (m + len) % 64
  {
    if wide { Width64(len); } else { Width32(len); }
    var x := CallBits(len, wide);
    Blocks64(count + x);
    AddEighths(count, x);
    AddMod64(count / 8, x / 8, m, len);
  }

  lemma AddEighths(a: nat, x: nat)
    requires x % 8 == 0
    ensures (a + x) / 8 == a / 8 + x / 8
  {}

  lemma AddMod64(a: nat, b: nat, c: nat, d: nat)
    requires a % 64 == c % 64 && b % 64 == d % 64
    ensures (a + b) % 64 == (c + d) % 64
  {}

  lemma Width32(len: nat)
    ensures 8 * len % 0x1_0000_0000 % 8 == 0 && 8 * len % 0x1_0000_0000 / 8 % 64 == len % 64
  {}

  lemma Width64(len: nat)
    ensures 8 * len % MOD64 % 8 == 0 && 8 * len % MOD64 / 8 % 64 == len % 64
  {
    var q, r := 8 * len / MOD64, 8 * len % MOD64;
    assert r == 8 * (len - q * 0x2000_0000_0000_0000);
    Blocks(len - q * 0x2000_0000_0000_0000, q * 0x80_0000_0000_0000);
  }

  lemma Blocks(x: int, k: int)
    ensures (x + 64 * k) % 64 == x % 64
  {}

  lemma Blocks64(y: nat)
    ensures y % MOD64 / 8 % 64 == y / 8 % 64
  {
    var q, r := y / MOD64, y % MOD64;
    assert y == r + 8 * (q * 0x2000_0000_0000_0000);
    assert y / 8 == r / 8 + q * 0x2000_0000_0000_0000;
    Blocks(r / 8, q * 0x80_0000_0000_0000);
  }

  lemma ExtendFold(f: Transform, all: seq<byte>, from: nat)
    requires from % 64 == 0 && from + 64 <= |all|
    ensures Fold(f, INIT, all[..from + 64]) == f(Fold(f, INIT, all[..from]), all[from..from + 64])
  {
    FoldBlock(f, INIT, all[..from], all[from..from + 64]);
    assert all[..from] + all[from..from + 64] == all[..from + 64];
  }

  // ----- finishing --------------------------------------------------------------------------

  /** The first byte of the padding and 63 zeros. */
  const PADDING: seq<byte> := [0x80] + Zeros(63)

  /** Pad, append the length, and read the digest out of the state; the context is wiped. */
  method Final(ctx: Context, f: Transform, wide: bool, ghost msg: seq<byte>) returns (digest: seq<byte>)
    requires ctx.Holds(f, msg) && ctx.Counts(msg)
    modifies ctx, ctx.buffer
    ensures digest == Digest(f, msg)
    ensures ctx.state == Words(0, 0, 0, 0) && ctx.count == 0 && ctx.buffer[..] == Zeros(ctx.buffer.Length)
  {
    var bits := Encode([ctx.count % 0x1_0000_0000, ctx.count / 0x1_0000_0000]);
    var index := ctx.count / 8 % 64;
    var padLen := if index < 56 then 56 - index else 120 - index;
    ctx.Update(f, PADDING[..padLen], wide, msg);
    ctx.Update(f, bits, wide, msg + PADDING[..padLen]);
    PaddedMessage(msg, padLen);
    digest := Encode([ctx.state.a, ctx.state.b, ctx.state.c, ctx.state.d]);
    ctx.state, ctx.count := Words(0, 0, 0, 0), 0;
    forall k | 0 <= k < ctx.buffer.Length { ctx.buffer[k] := 0; }
    assert ctx.buffer[..] == Zeros(ctx.buffer.Length);
  }

  /** What the two final updates add is the padding of the reference. */
  lemma PaddedMessage(msg: seq<byte>, padLen: nat)
    requires padLen == if |msg| % 64 < 56 then 56 - |msg| % 64 else 120 - |msg| % 64
    ensures padLen <= |PADDING|
    ensures var all := msg + PADDING[..padLen] + LengthBytes(8 * |msg| % MOD64);
            all == msg + Padding(|msg|) && |all| % 64 == 0 && all[..Whole(|all|)] == all
  {
    assert padLen == 1 + (119 - |msg| % 64) % 64;
    assert PADDING[..padLen] == [0x80] + Zeros((119 - |msg| % 64) % 64);
    var all := msg + PADDING[..padLen] + LengthBytes(8 * |msg| % MOD64);
    assert all == msg + Padding(|msg|);
  }

  /** All the bytes of a list of chunks. */
  ghost function Concat(chunks: seq<seq<byte>>): seq<byte> {
    if chunks == [] then [] else chunks[0] + Concat(chunks[1..])
  }

  lemma {:induction false} ConcatAppend(chunks: seq<seq<byte>>, c: seq<byte>)
    ensures Concat(chunks + [c]) == Concat(chunks) + c
  {
    if chunks == [] {
      assert chunks + [c] == [c] && Concat([c]) == c + Concat([]);
    } else {
      assert (chunks + [c])[1..] == chunks[1..] + [c];
      ConcatAppend(chunks[1..], c);
    }
  }

  /** An update within the limit keeps the context exact, bit count included. */
  method Feed(ctx: Context, f: Transform, chunk: seq<byte>, wide: bool, ghost msg: seq<byte>)
    requires ctx.Holds(f, msg) && ctx.Counts(msg) && (wide || |chunk| < 0x2000_0000)
    modifies ctx, ctx.buffer
    ensures ctx.Holds(f, msg + chunk) && ctx.Counts(msg + chunk)
  {
    CountExact(|msg|, |chunk|, wide);
    ctx.Update(f, chunk, wide, msg);
  }

  /**
   Streaming does not depend on how a message is cut: any sequence of updates gives the digest of
   the concatenation.  With a 32-bit `size_t` each chunk must stay below 2^29 bytes.
   */
  method Hash(f: Transform, chunks: seq<seq<byte>>, wide: bool) returns (digest: seq<byte>)
    requires !wide ==> forall k :: 0 <= k < |chunks| ==> |chunks[k]| < 0x2000_0000
    ensures digest == Digest(f, Concat(chunks))
  {
    var i := 0;
    ghost var msg := Concat(chunks[..i]);
    var ctx := new Context(f, msg);
    while i < |chunks|
      invariant 0 <= i <= |chunks| && msg == Concat(chunks[..i])
      invariant ctx.Holds(f, msg) && ctx.Counts(msg) && fresh(ctx) && fresh(ctx.buffer)
    {
      Feed(ctx, f, chunks[i], wide, msg);
      ConcatAppend(chunks[..i], chunks[i]);
      assert chunks[..i] + [chunks[i]] == chunks[..i + 1];
      msg := msg + chunks[i];
      i := i + 1;
    }
    assert chunks[..i] == chunks;
    digest := Final(ctx, f, wide, msg);
  }

  /** With 32 bits an update of 2^29 bytes leaves the bit count of an empty message at 0. */
  lemma CountLost()
    ensures AddBits(0, 0x2000_0000, false) == 0 && 8 * 0x2000_0000 % MOD64 == 0x1_0000_0000
  {
  }

  /** The bit count stays exact over a call if and only if the call's own count did not lose high bits. */
  lemma CountExact(m: nat, len: nat, wide: bool)
    requires !wide ==> len < 0x1_0000_0000
    ensures AddBits(8 * m % MOD64, len, wide) == 8 * (m + len) % MOD64 <==> wide || len < 0x2000_0000
  {
    ModShift(8 * m, CallBits(len, wide));
    if wide {
      ModShift(8 * len, 8 * m);
    } else {
      SameMod(8 * m, CallBits(len, wide), 8 * len);
    }
  }

  lemma ModShift(a: nat, x: nat)
    ensures (a % MOD64 + x) % MOD64 == (a + x) % MOD64
  {}

  lemma SameMod(a: nat, x: nat, y: nat)
    requires x <= y < MOD64
    ensures (a + x) % MOD64 == (a + y) % MOD64 <==> x == y
  {}
}
