/**
 Word-wise memset and memcpy over byte memory refine the byte loops, for every alignment, length and
 word size; every word access is aligned.
 */
module MemOps {

  type byte = bv8

  predicate IsWordSize(w: nat) {
    w == 4 || w == 8
  }

  predicate Aligned(address: nat, w: nat)
    requires IsWordSize(w)
  {
    if w == 4 then address % 4 == 0 else address % 8 == 0
  }

  // ----- words ------------------------------------------------------------------------------

  /** Byte `j` of a little-endian word. */
  function ByteOf(v: bv64, j: nat): byte
    requires j < 8
  {
    var u := if j == 0 then v else if j == 1 then v >> 8 else if j == 2 then v >> 16 else if j == 3 then v >> 24
             else if j == 4 then v >> 32 else if j == 5 then v >> 40 else if j == 6 then v >> 48 else v >> 56;
    (u & 0xff) as byte
  }

  /** The word that holds the bytes from index `i` on; a 32-bit word fills the lower half. */
  function WordAt(m: seq<byte>, i: nat, w: nat): bv64
    requires IsWordSize(w) && i + w <= |m|
  {
    if w == 4 then Join(m[i], m[i + 1], m[i + 2], m[i + 3], 0, 0, 0, 0)
    else Join(m[i], m[i + 1], m[i + 2], m[i + 3], m[i + 4], m[i + 5], m[i + 6], m[i + 7])
  }

  function Join(b0: byte, b1: byte, b2: byte, b3: byte, b4: byte, b5: byte, b6: byte, b7: byte): bv64 {
    (b0 as bv64) | (b1 as bv64 << 8) | (b2 as bv64 << 16) | (b3 as bv64 << 24)
    | (b4 as bv64 << 32) | (b5 as bv64 << 40) | (b6 as bv64 << 48) | (b7 as bv64 << 56)
  }

  /** The byte of a fill in every byte of a word, by shifts as the code makes it. */
  function Replicate(c: byte, w: nat): bv64
    requires IsWordSize(w)
  {
    var a := c as bv64;
    var b := a | (a << 8);
    var d := b | (b << 16);
    if w > 4 then d | ((d << 16) << 16) else d
  }

  lemma ReplicateBytes(c: byte, w: nat, j: nat)
    requires IsWordSize(w) && j < w
    ensures ByteOf(Replicate(c, w), j) == c
  {
  }

  lemma JoinBytes(b0: byte, b1: byte, b2: byte, b3: byte, b4: byte, b5: byte, b6: byte, b7: byte)
    ensures var v := Join(b0, b1, b2, b3, b4, b5, b6, b7);
            && ByteOf(v, 0) == b0 && ByteOf(v, 1) == b1 && ByteOf(v, 2) == b2 && ByteOf(v, 3) == b3
            && ByteOf(v, 4) == b4 && ByteOf(v, 5) == b5 && ByteOf(v, 6) == b6 && ByteOf(v, 7) == b7
  {
  }

  lemma WordBytes(m: seq<byte>, i: nat, w: nat)
    requires IsWordSize(w) && i + w <= |m|
    ensures forall j :: 0 <= j < w ==> ByteOf(WordAt(m, i, w), j) == m[i + j]
  {
    hide ByteOf, Join;
    if w == 4 {
      JoinBytes(m[i], m[i + 1], m[i + 2], m[i + 3], 0, 0, 0, 0);
    } else {
      JoinBytes(m[i], m[i + 1], m[i + 2], m[i + 3], m[i + 4], m[i + 5], m[i + 6], m[i + 7]);
    }
  }

  // ----- byte-wise meaning ------------------------------------------------------------------

  /** `n` bytes from index `p` on hold `c`, and all others are as they were. */
  ghost function Filled(m: seq<byte>, p: nat, n: nat, c: byte): (t: seq<byte>)
    requires p + n <= |m|
    ensures |t| == |m| && (forall k :: p <= k < p + n ==> t[k] == c)
    ensures forall k :: 0 <= k < |m| && !(p <= k < p + n) ==> t[k] == m[k]
  {
    m[..p] + seq(n, _ => c) + m[p + n..]
  }

  /** `n` bytes from index `d` on hold what was at index `s`, and all others are as they were. */
  ghost function Copied(m: seq<byte>, d: nat, s: nat, n: nat): (t: seq<byte>)
    requires d + n <= |m| && s + n <= |m|
    ensures |t| == |m| && forall k :: 0 <= k < |m| ==> t[k] == if d <= k < d + n then m[k - d + s] else m[k]
  {
    m[..d] + m[s..s + n] + m[d + n..]
  }

  // ----- the code ---------------------------------------------------------------------------

  /** A word store, which must be aligned; `origin` is the address of `mem[0]`. */
  method StoreWord(mem: array<byte>, origin: nat, i: nat, v: bv64, w: nat)
    requires IsWordSize(w) && i + w <= mem.Length && Aligned(origin + i, w)
    modifies mem
    ensures forall k :: 0 <= k < mem.Length ==>
              mem[k] == if i <= k < i + w then ByteOf(v, k - i) else old(mem[k])
  {
    var j := 0;
    while j < w
      invariant 0 <= j <= w
      invariant forall k :: 0 <= k < mem.Length ==>
                  mem[k] == if i <= k < i + j then ByteOf(v, k - i) else old(mem[k])
    {
      mem[i + j] := ByteOf(v, j);
      j := j + 1;
    }
  }

  method LoadWord(mem: array<byte>, origin: nat, i: nat, w: nat) returns (v: bv64)
    requires IsWordSize(w) && i + w <= mem.Length && Aligned(origin + i, w)
    ensures v == WordAt(mem[..], i, w)
  {
    v := WordAt(mem[..], i, w);
  }

  method FillWord(mem: array<byte>, origin: nat, i: nat, c: byte, v: bv64, w: nat)
    requires IsWordSize(w) && i + w <= mem.Length && Aligned(origin + i, w) && v == Replicate(c, w)
    modifies mem
    ensures mem[..] == Filled(old(mem[..]), i, w, c)
  {
    hide Replicate, ByteOf;
    forall j | 0 <= j < w
      ensures ByteOf(v, j) == c
    {
      ReplicateBytes(c, w, j);
    }
    StoreWord(mem, origin, i, v, w);
  }

  method CopyWord(mem: array<byte>, origin: nat, d: nat, s: nat, w: nat)
    requires IsWordSize(w) && d + w <= mem.Length && s + w <= mem.Length
    requires Aligned(origin + d, w) && Aligned(origin + s, w)
    modifies mem
    ensures mem[..] == Copied(old(mem[..]), d, s, w)
  {
    hide WordAt, ByteOf;
    WordBytes(mem[..], s, w);
    var v := LoadWord(mem, origin, s, w);
    StoreWord(mem, origin, d, v, w);
  }

  lemma FilledOn(m: seq<byte>, p: nat, k: nat, n: nat, c: byte)
    requires p + k + n <= |m|
    ensures Filled(Filled(m, p, k, c), p + k, n, c) == Filled(m, p, k + n, c)
  {
  }

  /** A copy that goes on is a longer copy, as long as what is still to read was not overwritten. */
  lemma CopiedOn(m: seq<byte>, d: nat, s: nat, k: nat, n: nat)
    requires d + k + n <= |m| && s + k + n <= |m|
    requires d <= s || s + k + n <= d
    ensures Copied(Copied(m, d, s, k), d + k, s + k, n) == Copied(m, d, s, k + n)
  {
    ReadKept(m, d, s, k, n);
    assert m[s..s + k] + m[s + k..s + k + n] == m[s..s + k + n];
  }

  lemma ReadKept(m: seq<byte>, d: nat, s: nat, k: nat, n: nat)
    requires d + k + n <= |m| && s + k + n <= |m|
    requires d <= s || s + k + n <= d
    ensures Copied(m, d, s, k)[s + k..s + k + n] == m[s + k..s + k + n]
  {
    var t := Copied(m, d, s, k);
    forall x | s + k <= x < s + k + n
      ensures t[x] == m[x]
    {
      assert x < d || d + k <= x;
    }
  }

  lemma Untouched(m: seq<byte>, p: nat, d: nat, s: nat, c: byte)
    requires p <= |m| && d <= |m| && s <= |m|
    ensures Filled(m, p, 0, c) == m && Copied(m, d, s, 0) == m
  {
  }

  lemma AlignedNext(address: nat, w: nat)
    requires IsWordSize(w) && Aligned(address, w)
    ensures Aligned(address + w, w)
  {
  }

  lemma AlignedOn(address: nat, w: nat)
    requires IsWordSize(w) && Aligned(address, w)
    ensures Aligned(address + w, w) && Aligned(address + 2 * w, w)
    ensures Aligned(address + 3 * w, w) && Aligned(address + 4 * w, w)
  {
    hide Aligned;
    AlignedNext(address, w);
    AlignedNext(address + w, w);
    AlignedNext(address + 2 * w, w);
    AlignedNext(address + 3 * w, w);
  }

  lemma ByteFilled(m: seq<byte>, p: nat, k: nat, c: byte)
    requires p + k < |m|
    ensures Filled(m, p, k, c)[p + k := c] == Filled(m, p, k + 1, c)
  {
  }

  lemma ByteCopied(m: seq<byte>, d: nat, s: nat, k: nat)
    requires d + k < |m| && s + k < |m| && (d <= s || s + k < d)
    ensures var t := Copied(m, d, s, k);
            t[d + k := t[s + k]] == Copied(m, d, s, k + 1)
  {
    var t := Copied(m, d, s, k);
    assert t[s + k] == m[s + k];
    assert m[s..s + k] + [m[s + k]] == m[s..s + k + 1];
  }

  method StoreByte(mem: array<byte>, i: nat, c: byte)
    requires i < mem.Length
    modifies mem
    ensures mem[..] == old(mem[..])[i := c]
  {
    mem[i] := c;
  }

  method FillBytes(mem: array<byte>, p: nat, n: nat, c: byte)
    requires p + n <= mem.Length
    modifies mem
    ensures mem[..] == Filled(old(mem[..]), p, n, c)
  {
    hide Filled;
    Untouched(mem[..], p, p, p, c);
    var k := 0;
    while k < n
      invariant 0 <= k <= n && mem[..] == Filled(old(mem[..]), p, k, c)
    {
      ByteFilled(old(mem[..]), p, k, c);
      StoreByte(mem, p + k, c);
      k := k + 1;
    }
  }

  /** The four stores of an unrolled round. */
  method FillFour(mem: array<byte>, origin: nat, i: nat, c: byte, v: bv64, w: nat)
    requires IsWordSize(w) && i + 4 * w <= mem.Length && Aligned(origin + i, w) && v == Replicate(c, w)
    modifies mem
    ensures mem[..] == Filled(old(mem[..]), i, 4 * w, c)
  {
    hide Replicate, Aligned, Filled;
    AlignedOn(origin + i, w);
    FillWord(mem, origin, i, c, v, w);
    FillWord(mem, origin, i + w, c, v, w);
    FilledOn(old(mem[..]), i, w, w, c);
    FillWord(mem, origin, i + 2 * w, c, v, w);
    FilledOn(old(mem[..]), i, 2 * w, w, c);
    FillWord(mem, origin, i + 3 * w, c, v, w);
    FilledOn(old(mem[..]), i, 3 * w, w, c);
  }

  /** Rounds of four words. */
  method FillRounds(mem: array<byte>, origin: nat, p: nat, n: nat, c: byte, v: bv64, w: nat) returns (k: nat)
    requires IsWordSize(w) && p + n <= mem.Length && Aligned(origin + p, w) && v == Replicate(c, w)
    modifies mem
    ensures k <= n && mem[..] == Filled(old(mem[..]), p, k, c) && Aligned(origin + p + k, w)
  {
    hide Replicate, Aligned, Filled;
    k := 0;
    Untouched(mem[..], p, p, p, c);
    while n - k >= w * 4
      invariant k <= n && Aligned(origin + p + k, w) && mem[..] == Filled(old(mem[..]), p, k, c)
      decreases n - k
    {
      AlignedOn(origin + p + k, w);
      FillFour(mem, origin, p + k, c, v, w);
      FilledOn(old(mem[..]), p, k, 4 * w, c);
      k := k + w * 4;
    }
  }

  /** Single words. */
  method FillWords(mem: array<byte>, origin: nat, p: nat, n: nat, c: byte, v: bv64, w: nat) returns (k: nat)
    requires IsWordSize(w) && p + n <= mem.Length && Aligned(origin + p, w) && v == Replicate(c, w)
    modifies mem
    ensures k <= n && mem[..] == Filled(old(mem[..]), p, k, c)
  {
    hide Replicate, Aligned, Filled;
    k := 0;
    Untouched(mem[..], p, p, p, c);
    while n - k >= w
      invariant k <= n && Aligned(origin + p + k, w) && mem[..] == Filled(old(mem[..]), p, k, c)
      decreases n - k
    {
      AlignedOn(origin + p + k, w);
      FillWord(mem, origin, p + k, c, v, w);
      FilledOn(old(mem[..]), p, k, w, c);
      k := k + w;
    }
  }

  /** The aligned part. */
  method FillAligned(mem: array<byte>, origin: nat, p: nat, n: nat, c: byte, w: nat) returns (k: nat)
    requires IsWordSize(w) && p + n <= mem.Length && Aligned(origin + p, w)
    modifies mem
    ensures k <= n && mem[..] == Filled(old(mem[..]), p, k, c)
  {
    hide Replicate, Aligned, Filled;
    var v := Replicate(c, w);
    var rounds := FillRounds(mem, origin, p, n, c, v, w);
    var words := FillWords(mem, origin, p + rounds, n - rounds, c, v, w);
    FilledOn(old(mem[..]), p, rounds, words, c);
    k := rounds + words;
  }

  /** The bytes up to the first aligned one. */
  method FillLead(mem: array<byte>, origin: nat, p: nat, n: nat, c: byte, w: nat) returns (k: nat)
    requires IsWordSize(w) && p + n <= mem.Length
    modifies mem
    ensures k <= n && mem[..] == Filled(old(mem[..]), p, k, c)
  {
    hide Aligned, Filled;
    k := 0;
    Untouched(mem[..], p, p, p, c);
    while !Aligned(origin + p + k, w) && k < n
      invariant k <= n && mem[..] == Filled(old(mem[..]), p, k, c)
    {
      ByteFilled(old(mem[..]), p, k, c);
      StoreByte(mem, p + k, c);
      k := k + 1;
    }
  }

  method Memset(mem: array<byte>, origin: nat, p: nat, c: byte, n: nat, w: nat) returns (r: nat)
    requires IsWordSize(w) && p + n <= mem.Length
    modifies mem
    ensures r == p && mem[..] == Filled(old(mem[..]), p, n, c)
  {
    hide Aligned, Filled;
    r := p;
    var k := FillLead(mem, origin, p, n, c, w);
    if Aligned(origin + p + k, w) {
      var more := FillAligned(mem, origin, p + k, n - k, c, w);
      FilledOn(old(mem[..]), p, k, more, c);
      k := k + more;
    }
    FillBytes(mem, p + k, n - k, c);
    FilledOn(old(mem[..]), p, k, n - k, c);
  }

  method CopyBytes(mem: array<byte>, d: nat, s: nat, n: nat)
    requires d + n <= mem.Length && s + n <= mem.Length
    requires d <= s || s + n <= d
    modifies mem
    ensures mem[..] == Copied(old(mem[..]), d, s, n)
  {
    hide Copied;
    Untouched(mem[..], d, d, s, 0);
    var k := 0;
    while k < n
      invariant 0 <= k <= n && mem[..] == Copied(old(mem[..]), d, s, k)
    {
      ByteCopied(old(mem[..]), d, s, k);
      StoreByte(mem, d + k, mem[s + k]);
      k := k + 1;
    }
  }

  method CopyTwo(mem: array<byte>, origin: nat, d: nat, s: nat, w: nat)
    requires IsWordSize(w) && d + 2 * w <= mem.Length && s + 2 * w <= mem.Length
    requires Aligned(origin + d, w) && Aligned(origin + s, w)
    requires d <= s || s + 2 * w <= d
    modifies mem
    ensures mem[..] == Copied(old(mem[..]), d, s, 2 * w)
  {
    hide Aligned, Copied;
    AlignedOn(origin + d, w);
    AlignedOn(origin + s, w);
    CopyWord(mem, origin, d, s, w);
    CopyWord(mem, origin, d + w, s + w, w);
    CopiedOn(old(mem[..]), d, s, w, w);
  }

  /** The four moves of an unrolled round. */
  method CopyFour(mem: array<byte>, origin: nat, d: nat, s: nat, w: nat)
    requires IsWordSize(w) && d + 4 * w <= mem.Length && s + 4 * w <= mem.Length
    requires Aligned(origin + d, w) && Aligned(origin + s, w)
    requires d <= s || s + 4 * w <= d
    modifies mem
    ensures mem[..] == Copied(old(mem[..]), d, s, 4 * w)
  {
    hide Aligned, Copied;
    AlignedOn(origin + d, w);
    AlignedOn(origin + s, w);
    CopyTwo(mem, origin, d, s, w);
    CopyTwo(mem, origin, d + 2 * w, s + 2 * w, w);
    CopiedOn(old(mem[..]), d, s, 2 * w, 2 * w);
  }

  /** Rounds of four words. */
  method CopyRounds(mem: array<byte>, origin: nat, d: nat, s: nat, n: nat, w: nat) returns (k: nat)
    requires IsWordSize(w) && d + n <= mem.Length && s + n <= mem.Length
    requires Aligned(origin + d, w) && Aligned(origin + s, w)
    requires d <= s || s + n <= d
    modifies mem
    ensures k <= n && mem[..] == Copied(old(mem[..]), d, s, k)
    ensures Aligned(origin + d + k, w) && Aligned(origin + s + k, w)
  {
    hide Aligned, Copied;
    k := 0;
    Untouched(mem[..], d, d, s, 0);
    while n - k >= w * 4
      invariant k <= n && mem[..] == Copied(old(mem[..]), d, s, k)
      invariant Aligned(origin + d + k, w) && Aligned(origin + s + k, w)
      decreases n - k
    {
      AlignedOn(origin + d + k, w);
      AlignedOn(origin + s + k, w);
      CopyFour(mem, origin, d + k, s + k, w);
      CopiedOn(old(mem[..]), d, s, k, 4 * w);
      k := k + w * 4;
    }
  }

  /** Single words. */
  method CopyWords(mem: array<byte>, origin: nat, d: nat, s: nat, n: nat, w: nat) returns (k: nat)
    requires IsWordSize(w) && d + n <= mem.Length && s + n <= mem.Length
    requires Aligned(origin + d, w) && Aligned(origin + s, w)
    requires d <= s || s + n <= d
    modifies mem
    ensures k <= n && mem[..] == Copied(old(mem[..]), d, s, k)
  {
    hide Aligned, Copied;
    k := 0;
    Untouched(mem[..], d, d, s, 0);
    while n - k >= w
      invariant k <= n && mem[..] == Copied(old(mem[..]), d, s, k)
      invariant Aligned(origin + d + k, w) && Aligned(origin + s + k, w)
      decreases n - k
    {
      AlignedOn(origin + d + k, w);
      AlignedOn(origin + s + k, w);
      CopyWord(mem, origin, d + k, s + k, w);
      CopiedOn(old(mem[..]), d, s, k, w);
      k := k + w;
    }
  }

  /** The part that is copied by words, when both ends are aligned. */
  method CopyAligned(mem: array<byte>, origin: nat, d: nat, s: nat, n: nat, w: nat) returns (k: nat)
    requires IsWordSize(w) && d + n <= mem.Length && s + n <= mem.Length
    requires d <= s || s + n <= d
    modifies mem
    ensures k <= n && mem[..] == Copied(old(mem[..]), d, s, k)
  {
    hide Aligned, Copied;
    k := 0;
    Untouched(mem[..], d, d, s, 0);
    if Aligned(origin + d, w) && Aligned(origin + s, w) {
      var rounds := CopyRounds(mem, origin, d, s, n, w);
      var words := CopyWords(mem, origin, d + rounds, s + rounds, n - rounds, w);
      CopiedOn(old(mem[..]), d, s, rounds, words);
      k := rounds + words;
    }
  }

  /** The ranges may even overlap, if the destination starts below the source. */
  method Memcpy(mem: array<byte>, origin: nat, d: nat, s: nat, n: nat, w: nat) returns (r: nat)
    requires IsWordSize(w) && d + n <= mem.Length && s + n <= mem.Length
    requires d <= s || s + n <= d
    modifies mem
    ensures r == d && mem[..] == Copied(old(mem[..]), d, s, n)
  {
    hide *;
    r := d;
    var k := CopyAligned(mem, origin, d, s, n, w);
    CopyBytes(mem, d + k, s + k, n - k);
    CopiedOn(old(mem[..]), d, s, k, n - k);
  }
}
