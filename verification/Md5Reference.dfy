/**
 The reference that streaming MD5 is proved against is the one of RFC 1321: what the padding is byte by
 byte, how words become bytes, and the initial state.
 */
module Md5Reference {

  import opened Common
  import opened Md5

  /** The number that bytes make up with the low byte first. */
  function LittleEndian(b: seq<byte>): nat {
    if b == [] then 0 else b[0] + 256 * LittleEndian(b[1..])
  }

  lemma Unfold4(b: seq<byte>)
    requires |b| >= 4
    ensures LittleEndian(b)
         == b[0] + 0x100 * b[1] + 0x1_0000 * b[2] + 0x100_0000 * b[3] + 0x1_0000_0000 * LittleEndian(b[4..])
  {
    var b1, b2, b3 := b[1..], b[2..], b[3..];
    assert b1[1..] == b2 && b2[1..] == b3 && b3[1..] == b[4..];
    assert LittleEndian(b3) == b[3] + 256 * LittleEndian(b[4..]);
    assert LittleEndian(b2) == b[2] + 256 * LittleEndian(b3);
    assert LittleEndian(b1) == b[1] + 256 * LittleEndian(b2);
  }

  lemma WordValue(w: u32)
    ensures LittleEndian(WordBytes(w)) == w
  {
    var b := WordBytes(w);
    Unfold4(b);
    assert b[4..] == [];
    Shifts(w);
    WordRoundTrip(w);
  }

  /** Word `i` of an encoding, read with its low byte first. */
  lemma {:induction false} EncodedWord(ws: seq<u32>, i: nat)
    requires i < |ws|
    ensures LittleEndian(EncodeWords(ws)[4 * i..4 * i + 4]) == ws[i]
  {
    var b := EncodeWords(ws);
    if i == 0 {
      assert b[0..4] == WordBytes(ws[0]);
      WordValue(ws[0]);
    } else {
      EncodedWord(ws[1..], i - 1);
      assert b == WordBytes(ws[0]) + EncodeWords(ws[1..]);
      assert b[4 * i..4 * i + 4] == EncodeWords(ws[1..])[4 * (i - 1)..4 * (i - 1) + 4];
    }
  }

  /** The length is appended as 64 bits, low byte first. */
  lemma LengthValue(bits: u64)
    ensures LittleEndian(LengthBytes(bits)) == bits
  {
    var low: u32, high: u32 := bits % 0x1_0000_0000, bits / 0x1_0000_0000;
    var b := LengthBytes(bits);
    assert b == EncodeWords([low, high]);
    EncodedWord([low, high], 0);
    EncodedWord([low, high], 1);
    assert b[4 * 0..4 * 0 + 4] == b[..4] && b[4 * 1..4 * 1 + 4] == b[4..];
    Unfold4(b);
    Unfold4(b[..4]);
    assert b[..4][4..] == [];
  }

  /**
   The padded message: a byte 0x80 behind the message, zeros, and in the last eight bytes the number of
   bits of the message modulo 2^64; it fills whole blocks with as few zeros as possible.
   */
  lemma PaddingShape(msg: seq<byte>)
    ensures var all := msg + Padding(|msg|);
            && |all| % 64 == 0 && |msg| + 9 <= |all| < |msg| + 9 + 64
            && all[..|msg|] == msg && all[|msg|] == 0x80
            && (forall k :: |msg| < k < |all| - 8 ==> all[k] == 0)
            && LittleEndian(all[|all| - 8..]) == 8 * |msg| % 0x1_0000_0000_0000_0000
  {
    hide LengthBytes, LittleEndian;
    var m := |msg|;
    var n := ZeroBytes(m);
    var bits: u64 := 8 * m % 0x1_0000_0000_0000_0000;
    var all := msg + Padding(m);
    assert Padding(m) == [0x80] + Zeros(n) + LengthBytes(bits);
    assert all[|all| - 8..] == LengthBytes(bits);
    LengthValue(bits);
  }

  /** The initial state of section 3.3, low byte first. */
  lemma InitialBytes()
    ensures EncodeWords([INIT.a, INIT.b, INIT.c, INIT.d])
         == [0x01, 0x23, 0x45, 0x67, 0x89, 0xab, 0xcd, 0xef, 0xfe, 0xdc, 0xba, 0x98, 0x76, 0x54, 0x32, 0x10]
  {
    EncodeCons(INIT.d, []);
    EncodeCons(INIT.c, [INIT.d]);
    EncodeCons(INIT.b, [INIT.c, INIT.d]);
    EncodeCons(INIT.a, [INIT.b, INIT.c, INIT.d]);
    assert EncodeWords([]) == [];
    assert [INIT.a] + [INIT.b, INIT.c, INIT.d] == [INIT.a, INIT.b, INIT.c, INIT.d];
    assert [INIT.b] + [INIT.c, INIT.d] == [INIT.b, INIT.c, INIT.d];
    assert [INIT.c] + [INIT.d] == [INIT.c, INIT.d];
    assert [INIT.d] + [] == [INIT.d];
  }

  /** A message of one block is transformed once, and blocks are transformed in order. */
  lemma FoldBlocks(f: Transform, st: Words, x: seq<byte>, y: seq<byte>)
    requires |x| == 64 && |y| == 64
    ensures Fold(f, st, []) == st && Fold(f, st, x) == f(st, x) && Fold(f, st, x + y) == f(f(st, x), y)
  {
    assert x[..64] == x && x[64..] == [];
    FoldBlock(f, st, x, y);
  }

  /** The digest is the final state, word by word, each low byte first. */
  lemma DigestWords(f: Transform, msg: seq<byte>)
    ensures |Digest(f, msg)| == 16 && |msg + Padding(|msg|)| % 64 == 0
    ensures var w := Fold(f, INIT, msg + Padding(|msg|));
            var d := Digest(f, msg);
            && LittleEndian(d[0..4]) == w.a && LittleEndian(d[4..8]) == w.b
            && LittleEndian(d[8..12]) == w.c && LittleEndian(d[12..16]) == w.d
  {
    hide LittleEndian, Fold, Padding, EncodeWords;
    var w := Fold(f, INIT, msg + Padding(|msg|));
    var ws := [w.a, w.b, w.c, w.d];
    EncodedWord(ws, 0);
    EncodedWord(ws, 1);
    EncodedWord(ws, 2);
    EncodedWord(ws, 3);
  }
}
