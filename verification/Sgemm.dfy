/**
 The blocked matrix product against the naive one.  Nothing is assumed about addition and
 multiplication, so the equality is exact for floating point as well.
 */
module Sgemm {

  import opened Common

  const BLK := 64

  datatype Field<!F> = Field(zero: F, add: (F, F) -> F, mul: (F, F) -> F)

  /** The sizes: `a` is mm by kk, `b` is kk by nn, `c` is mm by nn, all row by row. */
  datatype Dims = Dims(mm: nat, nn: nat, kk: nat)

  /** The place of row `i`, column `j` in a matrix of `w` columns. */
  function Ix(i: nat, j: nat, w: nat): nat {
    i * w + j
  }

  lemma IxBound(i: nat, j: nat, h: nat, w: nat)
    requires i < h && j < w
    ensures Ix(i, j, w) < h * w
  {
    assert (i + 1) * w <= h * w;
  }

  lemma RowsApart(i: nat, x: nat, w: nat)
    requires i < x
    ensures i * w + w <= x * w
  {
    assert (i + 1) * w <= x * w;
  }

  lemma IxDistinct(i: nat, j: nat, x: nat, y: nat, w: nat)
    requires j < w && y < w && Ix(i, j, w) == Ix(x, y, w)
    ensures i == x && j == y
  {
    if i != x { RowsApart(if i < x then i else x, if i < x then x else i, w); }
  }

  ghost predicate Sized<F>(a: seq<F>, b: seq<F>, d: Dims) {
    |a| >= d.mm * d.kk && |b| >= d.kk * d.nn
  }

  /** The product term for row `i`, column `j` and inner index `k`. */
  function Term<F>(f: Field<F>, a: seq<F>, b: seq<F>, d: Dims, i: nat, j: nat, k: nat): F
    requires Sized(a, b, d) && i < d.mm && j < d.nn && k < d.kk
  {
    IxBound(i, k, d.mm, d.kk);
    IxBound(k, j, d.kk, d.nn);
    f.mul(a[Ix(i, k, d.kk)], b[Ix(k, j, d.nn)])
  }

  /** The sum of the first `n` terms of a cell, added in ascending order from zero. */
  function Dot<F>(f: Field<F>, a: seq<F>, b: seq<F>, d: Dims, i: nat, j: nat, n: nat): F
    requires Sized(a, b, d) && i < d.mm && j < d.nn && n <= d.kk
  {
    if n == 0 then f.zero else f.add(Dot(f, a, b, d, i, j, n - 1), Term(f, a, b, d, i, j, n - 1))
  }

  /** Cell (i, j) of `c` holds the sum of the first `n` terms. */
  ghost predicate CellAt<F>(f: Field<F>, a: seq<F>, b: seq<F>, c: seq<F>, d: Dims, i: nat, j: nat, n: nat)
    requires Sized(a, b, d) && |c| >= d.mm * d.nn && i < d.mm && j < d.nn && n <= d.kk
  {
    IxBound(i, j, d.mm, d.nn);
    c[Ix(i, j, d.nn)] == Dot(f, a, b, d, i, j, n)
  }

  /** How many terms each cell holds. */
  type Level = (nat, nat) -> nat

  ghost predicate At<F>(f: Field<F>, a: seq<F>, b: seq<F>, c: seq<F>, d: Dims, level: Level) {
    && Sized(a, b, d) && |c| >= d.mm * d.nn
    && (forall i: nat, j: nat :: i < d.mm && j < d.nn ==>
        level(i, j) <= d.kk && CellAt(f, a, b, c, d, i, j, level(i, j)))
  }

  /** Rows i0..i1 and columns j0..j1 are raised to `n` terms. */
  ghost function Raise(level: Level, i0: nat, i1: nat, j0: nat, j1: nat, n: nat): Level {
    (i: nat, j: nat) => if i0 <= i < i1 && j0 <= j < j1 then n else level(i, j)
  }

  /** The block of cells that a loop works on holds `n` terms throughout. */
  ghost predicate Flat(level: Level, d: Dims, i0: nat, i1: nat, j0: nat, j1: nat, n: nat) {
    && i0 <= i1 <= d.mm && j0 <= j1 <= d.nn && n <= d.kk
    && (forall i: nat, j: nat :: i0 <= i < i1 && j0 <= j < j1 ==> level(i, j) == n)
  }

  lemma AtSame<F>(f: Field<F>, a: seq<F>, b: seq<F>, c: seq<F>, d: Dims, level: Level, other: Level)
    requires At(f, a, b, c, d, level) && forall i: nat, j: nat :: i < d.mm && j < d.nn ==> level(i, j) == other(i, j)
    ensures At(f, a, b, c, d, other)
  {}

  // ----- the blocked product ----------------------------------------------------------------

  /** The innermost statement: add the term for `k` to cell (i, j). */
  method Accumulate<F>(f: Field<F>, a: array<F>, b: array<F>, c: array<F>, d: Dims, i: nat, j: nat, k: nat,
                       ghost level: Level)
    requires a != c && b != c && At(f, a[..], b[..], c[..], d, level) && Flat(level, d, i, i + 1, j, j + 1, k)
             && k < d.kk
    modifies c
    ensures At(f, a[..], b[..], c[..], d, Raise(level, i, i + 1, j, j + 1, k + 1))
    ensures c[d.mm * d.nn..] == old(c[d.mm * d.nn..])
  {
    IxBound(i, j, d.mm, d.nn);
    IxBound(i, k, d.mm, d.kk);
    IxBound(k, j, d.kk, d.nn);
    var p := Ix(i, j, d.nn);
    assert CellAt(f, a[..], b[..], c[..], d, i, j, level(i, j));
    ghost var was := c[..];
    c[p] := f.add(c[p], f.mul(a[Ix(i, k, d.kk)], b[Ix(k, j, d.nn)]));
    ghost var next := Raise(level, i, i + 1, j, j + 1, k + 1);
    forall x: nat, y: nat | x < d.mm && y < d.nn
      ensures next(x, y) <= d.kk && CellAt(f, a[..], b[..], c[..], d, x, y, next(x, y))
    {
      IxBound(x, y, d.mm, d.nn);
      assert CellAt(f, a[..], b[..], was, d, x, y, level(x, y));
      if Ix(x, y, d.nn) == p { IxDistinct(x, y, i, j, d.nn); }
    }
  }

  method ColumnLoop<F>(f: Field<F>, a: array<F>, b: array<F>, c: array<F>, d: Dims, i: nat, k: nat, jb: nat, je: nat,
                       ghost level: Level)
    requires a != c && b != c && At(f, a[..], b[..], c[..], d, level) && Flat(level, d, i, i + 1, jb, je, k) && k < d.kk
    modifies c
    ensures At(f, a[..], b[..], c[..], d, Raise(level, i, i + 1, jb, je, k + 1))
    ensures c[d.mm * d.nn..] == old(c[d.mm * d.nn..])
  {
    var j := jb;
    AtSame(f, a[..], b[..], c[..], d, level, Raise(level, i, i + 1, jb, j, k + 1));
    while j < je
      invariant jb <= j <= je
      invariant At(f, a[..], b[..], c[..], d, Raise(level, i, i + 1, jb, j, k + 1))
      invariant c[d.mm * d.nn..] == old(c[d.mm * d.nn..])
    {
      ghost var now := Raise(level, i, i + 1, jb, j, k + 1);
      Accumulate(f, a, b, c, d, i, j, k, now);
      AtSame(f, a[..], b[..], c[..], d, Raise(now, i, i + 1, j, j + 1, k + 1),
        Raise(level, i, i + 1, jb, j + 1, k + 1));
      j := j + 1;
    }
  }

  method TermLoop<F>(f: Field<F>, a: array<F>, b: array<F>, c: array<F>, d: Dims, i: nat, kb: nat, ke: nat, jb: nat,
                     je: nat, ghost level: Level)
    requires a != c && b != c && At(f, a[..], b[..], c[..], d, level) && Flat(level, d, i, i + 1, jb, je, kb)
             && kb <= ke <= d.kk
    modifies c
    ensures At(f, a[..], b[..], c[..], d, Raise(level, i, i + 1, jb, je, ke))
    ensures c[d.mm * d.nn..] == old(c[d.mm * d.nn..])
  {
    var k := kb;
    AtSame(f, a[..], b[..], c[..], d, level, Raise(level, i, i + 1, jb, je, k));
    while k < ke
      invariant kb <= k <= ke
      invariant At(f, a[..], b[..], c[..], d, Raise(level, i, i + 1, jb, je, k))
      invariant c[d.mm * d.nn..] == old(c[d.mm * d.nn..])
    {
      ghost var now := Raise(level, i, i + 1, jb, je, k);
      ColumnLoop(f, a, b, c, d, i, k, jb, je, now);
      AtSame(f, a[..], b[..], c[..], d, Raise(now, i, i + 1, jb, je, k + 1), Raise(level, i, i + 1, jb, je, k + 1));
      k := k + 1;
    }
  }

  method RowLoop<F>(f: Field<F>, a: array<F>, b: array<F>, c: array<F>, d: Dims, ib: nat, ie: nat, kb: nat, ke: nat,
                    jb: nat, je: nat, ghost level: Level)
    requires a != c && b != c && At(f, a[..], b[..], c[..], d, level) && Flat(level, d, ib, ie, jb, je, kb)
             && kb <= ke <= d.kk
    modifies c
    ensures At(f, a[..], b[..], c[..], d, Raise(level, ib, ie, jb, je, ke))
    ensures c[d.mm * d.nn..] == old(c[d.mm * d.nn..])
  {
    var i := ib;
    AtSame(f, a[..], b[..], c[..], d, level, Raise(level, ib, i, jb, je, ke));
    while i < ie
      invariant ib <= i <= ie
      invariant At(f, a[..], b[..], c[..], d, Raise(level, ib, i, jb, je, ke))
      invariant c[d.mm * d.nn..] == old(c[d.mm * d.nn..])
    {
      ghost var now := Raise(level, ib, i, jb, je, ke);
      TermLoop(f, a, b, c, d, i, kb, ke, jb, je, now);
      AtSame(f, a[..], b[..], c[..], d, Raise(now, i, i + 1, jb, je, ke), Raise(level, ib, i + 1, jb, je, ke));
      i := i + 1;
    }
  }

  method ColumnBlocks<F>(f: Field<F>, a: array<F>, b: array<F>, c: array<F>, d: Dims, ib: nat, ie: nat, kb: nat,
                         ke: nat, ghost level: Level)
    requires a != c && b != c && At(f, a[..], b[..], c[..], d, level) && Flat(level, d, ib, ie, 0, d.nn, kb)
             && kb <= ke <= d.kk
    modifies c
    ensures At(f, a[..], b[..], c[..], d, Raise(level, ib, ie, 0, d.nn, ke))
    ensures c[d.mm * d.nn..] == old(c[d.mm * d.nn..])
  {
    var jb := 0;
    AtSame(f, a[..], b[..], c[..], d, level, Raise(level, ib, ie, 0, Min(jb, d.nn), ke));
    while jb < d.nn
      invariant 0 <= jb
      invariant At(f, a[..], b[..], c[..], d, Raise(level, ib, ie, 0, Min(jb, d.nn), ke))
      invariant c[d.mm * d.nn..] == old(c[d.mm * d.nn..])
    {
      var je := Min(jb + BLK, d.nn);
      ghost var now := Raise(level, ib, ie, 0, jb, ke);
      RowLoop(f, a, b, c, d, ib, ie, kb, ke, jb, je, now);
      AtSame(f, a[..], b[..], c[..], d, Raise(now, ib, ie, jb, je, ke), Raise(level, ib, ie, 0, je, ke));
      jb := jb + BLK;
    }
  }

  method TermBlocks<F>(f: Field<F>, a: array<F>, b: array<F>, c: array<F>, d: Dims, ib: nat, ie: nat,
                       ghost level: Level)
    requires a != c && b != c && At(f, a[..], b[..], c[..], d, level) && Flat(level, d, ib, ie, 0, d.nn, 0)
    modifies c
    ensures At(f, a[..], b[..], c[..], d, Raise(level, ib, ie, 0, d.nn, d.kk))
    ensures c[d.mm * d.nn..] == old(c[d.mm * d.nn..])
  {
    var kb := 0;
    AtSame(f, a[..], b[..], c[..], d, level, Raise(level, ib, ie, 0, d.nn, Min(kb, d.kk)));
    while kb < d.kk
      invariant 0 <= kb
      invariant At(f, a[..], b[..], c[..], d, Raise(level, ib, ie, 0, d.nn, Min(kb, d.kk)))
      invariant c[d.mm * d.nn..] == old(c[d.mm * d.nn..])
    {
      var ke := Min(kb + BLK, d.kk);
      ghost var now := Raise(level, ib, ie, 0, d.nn, kb);
      ColumnBlocks(f, a, b, c, d, ib, ie, kb, ke, now);
      AtSame(f, a[..], b[..], c[..], d, Raise(now, ib, ie, 0, d.nn, ke), Raise(level, ib, ie, 0, d.nn, ke));
      kb := kb + BLK;
    }
  }

  /** Every cell holds the whole sum. */
  ghost predicate Product<F>(f: Field<F>, a: seq<F>, b: seq<F>, c: seq<F>, d: Dims) {
    && Sized(a, b, d) && |c| >= d.mm * d.nn
    && (forall i: nat, j: nat :: i < d.mm && j < d.nn ==> CellAt(f, a, b, c, d, i, j, d.kk))
  }

  method ClearRow<F>(zero: F, c: array<F>, base: nat, nn: nat)
    requires base + nn <= c.Length
    modifies c
    ensures forall p :: 0 <= p < c.Length ==> c[p] == if base <= p < base + nn then zero else old(c[p])
  {
    var j := 0;
    while j < nn
      invariant 0 <= j <= nn
      invariant forall p :: 0 <= p < c.Length ==> c[p] == if base <= p < base + j then zero else old(c[p])
    {
      c[base + j] := zero;
      j := j + 1;
    }
  }

  method Clear<F>(f: Field<F>, a: array<F>, b: array<F>, c: array<F>, d: Dims)
    requires a != c && b != c && Sized(a[..], b[..], d) && c.Length >= d.mm * d.nn
    modifies c
    ensures At(f, a[..], b[..], c[..], d, (i: nat, j: nat) => 0)
    ensures c[d.mm * d.nn..] == old(c[d.mm * d.nn..])
  {
    var i := 0;
    ghost var base, size := 0, d.mm * d.nn;
    while i < d.mm
      invariant 0 <= i <= d.mm && base == i * d.nn && base <= size
      invariant forall p :: 0 <= p < base ==> c[p] == f.zero
      invariant c[size..] == old(c[size..])
    {
      NextRow(i, d.mm, d.nn);
      ClearRow(f.zero, c, i * d.nn, d.nn);
      i, base := i + 1, base + d.nn;
    }
    forall x: nat, y: nat | x < d.mm && y < d.nn
      ensures CellAt(f, a[..], b[..], c[..], d, x, y, 0)
    {
      IxBound(x, y, d.mm, d.nn);
    }
  }

  lemma NextRow(i: nat, h: nat, w: nat)
    requires i < h
    ensures (i + 1) * w == i * w + w <= h * w
  {
    assert (i + 1) * w <= h * w;
  }

  /** The blocked product: every cell sees every term once, in ascending order. */
  method Blocked<F>(f: Field<F>, a: array<F>, b: array<F>, c: array<F>, d: Dims)
    requires a != c && b != c && Sized(a[..], b[..], d) && c.Length >= d.mm * d.nn
    modifies c
    ensures Product(f, a[..], b[..], c[..], d)
    ensures c[d.mm * d.nn..] == old(c[d.mm * d.nn..])
  {
    Clear(f, a, b, c, d);
    ghost var level: Level := (i: nat, j: nat) => 0;
    var ib := 0;
    AtSame(f, a[..], b[..], c[..], d, level, Raise(level, 0, Min(ib, d.mm), 0, d.nn, d.kk));
    while ib < d.mm
      invariant 0 <= ib
      invariant At(f, a[..], b[..], c[..], d, Raise(level, 0, Min(ib, d.mm), 0, d.nn, d.kk))
      invariant c[d.mm * d.nn..] == old(c[d.mm * d.nn..])
    {
      var ie := Min(ib + BLK, d.mm);
      ghost var now := Raise(level, 0, ib, 0, d.nn, d.kk);
      TermBlocks(f, a, b, c, d, ib, ie, now);
      AtSame(f, a[..], b[..], c[..], d, Raise(now, ib, ie, 0, d.nn, d.kk), Raise(level, 0, ie, 0, d.nn, d.kk));
      ib := ib + BLK;
    }
    ghost var full := Raise(level, 0, d.mm, 0, d.nn, d.kk);
    forall i: nat, j: nat | i < d.mm && j < d.nn ensures CellAt(f, a[..], b[..], c[..], d, i, j, d.kk) {
      assert CellAt(f, a[..], b[..], c[..], d, i, j, full(i, j));
    }
  }

  // ----- the naive product ------------------------------------------------------------------

  /** One cell of the naive product. */
  method NaiveCell<F>(f: Field<F>, a: array<F>, b: array<F>, c: array<F>, d: Dims, i: nat, j: nat)
    requires a != c && b != c && Sized(a[..], b[..], d) && c.Length >= d.mm * d.nn && i < d.mm && j < d.nn
    modifies c
    ensures CellAt(f, a[..], b[..], c[..], d, i, j, d.kk)
    ensures Ix(i, j, d.nn) < c.Length && c[..] == old(c[..])[Ix(i, j, d.nn) := c[Ix(i, j, d.nn)]]
  {
    IxBound(i, j, d.mm, d.nn);
    var p := Ix(i, j, d.nn);
    c[p] := f.zero;
    var k := 0;
    while k < d.kk
      invariant 0 <= k <= d.kk && c[..] == old(c[..])[p := c[p]]
      invariant CellAt(f, a[..], b[..], c[..], d, i, j, k)
    {
      IxBound(i, k, d.mm, d.kk);
      IxBound(k, j, d.kk, d.nn);
      c[p] := f.add(c[p], f.mul(a[Ix(i, k, d.kk)], b[Ix(k, j, d.nn)]));
      k := k + 1;
    }
  }

  /** The cells before (i, j), row by row, hold their whole sums. */
  ghost predicate Through<F>(f: Field<F>, a: seq<F>, b: seq<F>, c: seq<F>, d: Dims, i: nat, j: nat) {
    && Sized(a, b, d) && |c| >= d.mm * d.nn
    && (forall x: nat, y: nat :: x < d.mm && y < d.nn && (x < i || (x == i && y < j)) ==>
        CellAt(f, a, b, c, d, x, y, d.kk))
  }

  method Naive<F>(f: Field<F>, a: array<F>, b: array<F>, c: array<F>, d: Dims)
    requires a != c && b != c && Sized(a[..], b[..], d) && c.Length >= d.mm * d.nn
    modifies c
    ensures Product(f, a[..], b[..], c[..], d)
    ensures c[d.mm * d.nn..] == old(c[d.mm * d.nn..])
  {
    var i := 0;
    while i < d.mm
      invariant 0 <= i <= d.mm && Through(f, a[..], b[..], c[..], d, i, 0)
      invariant c[d.mm * d.nn..] == old(c[d.mm * d.nn..])
    {
      var j := 0;
      while j < d.nn
        invariant 0 <= j <= d.nn && Through(f, a[..], b[..], c[..], d, i, j)
        invariant c[d.mm * d.nn..] == old(c[d.mm * d.nn..])
      {
        ghost var was := c[..];
        NaiveCell(f, a, b, c, d, i, j);
        ThroughNext(f, a[..], b[..], was, c[..], d, i, j);
        j := j + 1;
      }
      i := i + 1;
    }
  }

  lemma ThroughNext<F>(f: Field<F>, a: seq<F>, b: seq<F>, s: seq<F>, t: seq<F>, d: Dims, i: nat, j: nat)
    requires Through(f, a, b, s, d, i, j) && i < d.mm && j < d.nn && |t| == |s|
    requires Ix(i, j, d.nn) < |t| && t == s[Ix(i, j, d.nn) := t[Ix(i, j, d.nn)]] && CellAt(f, a, b, t, d, i, j, d.kk)
    ensures Through(f, a, b, t, d, i, j + 1) && t[d.mm * d.nn..] == s[d.mm * d.nn..]
  {
    IxBound(i, j, d.mm, d.nn);
    forall x: nat, y: nat | x < d.mm && y < d.nn && (x < i || (x == i && y < j))
      ensures CellAt(f, a, b, t, d, x, y, d.kk)
    {
      IxBound(x, y, d.mm, d.nn);
      assert CellAt(f, a, b, s, d, x, y, d.kk);
      if Ix(x, y, d.nn) == Ix(i, j, d.nn) { IxDistinct(x, y, i, j, d.nn); }
    }
  }

  // ----- they agree -------------------------------------------------------------------------

  /** Two arrays that both hold the product hold the same numbers. */
  lemma ProductUnique<F>(f: Field<F>, a: seq<F>, b: seq<F>, c: seq<F>, e: seq<F>, d: Dims)
    requires Product(f, a, b, c, d) && Product(f, a, b, e, d)
    ensures c[..d.mm * d.nn] == e[..d.mm * d.nn]
  {
    forall p | 0 <= p < d.mm * d.nn ensures c[p] == e[p] {
      assert d.nn > 0;
      var i, j := p / d.nn, p % d.nn;
      RowOf(p, d.mm, d.nn);
      assert CellAt(f, a, b, c, d, i, j, d.kk) && CellAt(f, a, b, e, d, i, j, d.kk);
    }
  }

  lemma RowOf(p: nat, h: nat, w: nat)
    requires w > 0 && p < h * w
    ensures p / w < h && Ix(p / w, p % w, w) == p
  {
    MulMono(h, p / w, w);
  }

  lemma MulMono(a: nat, b: nat, w: nat)
    ensures a <= b ==> a * w <= b * w
  {}

  /** Blocked and naive leave exactly the same array, for all sizes and any addition and multiplication. */
  method BlockedEqualsNaive<F>(f: Field<F>, a: array<F>, b: array<F>, c: array<F>, e: array<F>, d: Dims)
    requires a != c && b != c && a != e && b != e && c != e && Sized(a[..], b[..], d)
             && c.Length == e.Length >= d.mm * d.nn
    requires c[d.mm * d.nn..] == e[d.mm * d.nn..]
    modifies c, e
    ensures c[..] == e[..]
  {
    Blocked(f, a, b, c, d);
    Naive(f, a, b, e, d);
    ProductUnique(f, a[..], b[..], c[..], e[..], d);
    ghost var n := d.mm * d.nn;
    assert c[..] == c[..n] + c[n..] && e[..] == e[..n] + e[n..];
  }

  // ----- over the integers ------------------------------------------------------------------

  const INTEGERS := Field(0, (x: int, y: int) => x + y, (x: int, y: int) => x * y)

  /** A matrix of `w` columns that is one at row `p`, column `q`, and zero elsewhere. */
  ghost predicate UnitAt(m: seq<int>, h: nat, w: nat, p: nat, q: nat) {
    forall i: nat, j: nat :: i < h && j < w && Ix(i, j, w) < |m| ==>
      m[Ix(i, j, w)] == if i == p && j == q then 1 else 0
  }

  /** A unit at (p, q) on the left moves row q of `b` to row p. */
  lemma {:induction false} UnitLeft(a: seq<int>, b: seq<int>, d: Dims, p: nat, q: nat, i: nat, j: nat, n: nat)
    requires Sized(a, b, d) && UnitAt(a, d.mm, d.kk, p, q) && q < d.kk && i < d.mm && j < d.nn && n <= d.kk
    ensures q * d.nn + j < |b|
    ensures Dot(INTEGERS, a, b, d, i, j, n) == if i == p && q < n then b[q * d.nn + j] else 0
  {
    IxBound(q, j, d.kk, d.nn);
    if n > 0 {
      IxBound(i, n - 1, d.mm, d.kk);
      UnitLeft(a, b, d, p, q, i, j, n - 1);
    }
  }

  /** A unit at (q, r) on the right moves column q of `a` to column r. */
  lemma {:induction false} UnitRight(a: seq<int>, b: seq<int>, d: Dims, q: nat, r: nat, i: nat, j: nat, n: nat)
    requires Sized(a, b, d) && UnitAt(b, d.kk, d.nn, q, r) && q < d.kk && i < d.mm && j < d.nn && n <= d.kk
    ensures i * d.kk + q < |a|
    ensures Dot(INTEGERS, a, b, d, i, j, n) == if j == r && q < n then a[i * d.kk + q] else 0
  {
    IxBound(i, q, d.mm, d.kk);
    if n > 0 {
      IxBound(n - 1, j, d.kk, d.nn);
      UnitRight(a, b, d, q, r, i, j, n - 1);
    }
  }

  ghost predicate Identity(m: seq<int>, n: nat) {
    forall i: nat, j: nat :: i < n && j < n && Ix(i, j, n) < |m| ==> m[Ix(i, j, n)] == if i == j then 1 else 0
  }

  lemma {:induction false} IdentityDot(a: seq<int>, b: seq<int>, d: Dims, i: nat, j: nat, n: nat)
    requires Sized(a, b, d) && d.mm == d.kk && Identity(a, d.kk) && i < d.mm && j < d.nn && n <= d.kk
    ensures Ix(i, j, d.nn) < |b|
    ensures Dot(INTEGERS, a, b, d, i, j, n) == if i < n then b[Ix(i, j, d.nn)] else 0
  {
    IxBound(i, j, d.kk, d.nn);
    if n > 0 {
      IxBound(i, n - 1, d.mm, d.kk);
      IdentityDot(a, b, d, i, j, n - 1);
    }
  }

  /** The product of the identity matrix and a matrix is that matrix. */
  lemma IdentityProduct(a: seq<int>, b: seq<int>, c: seq<int>, d: Dims)
    requires Sized(a, b, d) && |c| >= d.mm * d.nn && d.mm == d.kk && Identity(a, d.kk)
    requires Product(INTEGERS, a, b, c, d)
    ensures c[..d.mm * d.nn] == b[..d.mm * d.nn]
  {
    forall p | 0 <= p < d.mm * d.nn ensures c[p] == b[p] {
      RowOf(p, d.mm, d.nn);
      IdentityDot(a, b, d, p / d.nn, p % d.nn, d.kk);
      assert CellAt(INTEGERS, a, b, c, d, p / d.nn, p % d.nn, d.kk);
    }
  }
}
