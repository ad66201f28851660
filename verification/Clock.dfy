/** Conversion between timer counts and times, with its 64-bit arithmetic. */
module Clock {

  import opened Common

  const BILLION := 1_000_000_000

  datatype Timespec = Timespec(sec: int, nsec: int)

  /** An unsigned 64-bit value stored in a signed one. */
  function Signed64(v: int): int {
    var u := v % MOD64;
    if u < MOD64 / 2 then u else u - MOD64
  }

  predicate Normal(t: Timespec) {
    0 <= t.nsec < BILLION
  }

  function Nanos(t: Timespec): int {
    t.sec * BILLION + t.nsec
  }

  predicate Before(t: Timespec, u: Timespec) {
    t.sec < u.sec || (t.sec == u.sec && t.nsec < u.nsec)
  }

  // ----- counts and times -------------------------------------------------------------------

  /** The time of a count, with the 64-bit arithmetic written out. */
  function RawToTimespec(count: nat, freq: nat): (t: Timespec)
    requires count < MOD64 && 0 < freq < MOD64
  {
    var sec := Signed64(count / freq);
    var rest := (count - sec * freq) % MOD64;
    Timespec(sec, rest * BILLION % MOD64 / freq)
  }

  function TimespecToRaw(t: Timespec, freq: nat): (count: nat)
    requires freq < MOD64
  {
    (t.sec * freq + t.nsec * freq % MOD64 / BILLION) % MOD64
  }

  /** Different multiples of `b` are at least `b` apart. */
  lemma Spaced(p: int, q: int, b: nat)
    requires b > 0
    ensures p < q ==> p * b + b <= q * b
  {
    if p < q {
      var k := q - p;
      assert q * b == p * b + k * b && (k - 1) * b >= 0 && k * b == (k - 1) * b + b;
    }
  }

  lemma Division(a: nat, b: nat)
    requires b > 0
    ensures a == a / b * b + a % b && 0 <= a % b < b && 0 <= a / b <= a
  {
    Bounds(a, b, a / b, a % b);
  }

  lemma Bounds(a: nat, b: nat, q: int, r: int)
    requires b > 0 && a == q * b + r && 0 <= r < b
    ensures 0 <= q <= a
  {
    Spaced(q, 0, b);
    if q > 0 {
      assert q * b >= q * 1;
    }
  }

  /** Quotient and remainder grow together with the number. */
  lemma Ordered(b: nat, q: int, r: int, p: int, s: int)
    requires b > 0 && q * b + r <= p * b + s && 0 <= r < b && 0 <= s < b
    ensures q < p || (q == p && r <= s)
  {
    Spaced(p, q, b);
  }

  /** The remainder that is left of a count is that of the division, also when the seconds wrap. */
  lemma RestIsRemainder(count: nat, freq: nat)
    requires count < MOD64 && 0 < freq < MOD64
    ensures (count - Signed64(count / freq) * freq) % MOD64 == count % freq
  {
    Division(count, freq);
    var q := count / freq;
    if q >= MOD64 / 2 {
      assert count - (q - MOD64) * freq == count % freq + MOD64 * freq;
      Multiple(count % freq, freq);
    } else {
      assert count - q * freq == count % freq;
    }
  }

  lemma Small(a: int)
    requires 0 <= a < MOD64
    ensures a % MOD64 == a
  {
  }

  lemma Multiple(a: nat, k: int)
    requires a < MOD64
    ensures (a + MOD64 * k) % MOD64 == a
  {
  }

  /** The nanoseconds of a remainder: in range, and they grow with it. */
  lemma NanosOfRest(rest: nat, freq: nat)
    requires rest < freq <= BILLION
    ensures rest * BILLION < MOD64
    ensures 0 <= rest * BILLION / freq < BILLION
  {
    Division(rest * BILLION, freq);
    var q, r := rest * BILLION / freq, rest * BILLION % freq;
    assert q * freq + r < freq * BILLION;
    Ordered(freq, q, r, BILLION, 0);
  }

  lemma NanosGrow(r0: nat, r1: nat, freq: nat)
    requires r0 < r1 < freq <= BILLION
    ensures r0 * BILLION / freq < r1 * BILLION / freq
  {
    Division(r0 * BILLION, freq);
    Division(r1 * BILLION, freq);
    Spaced(r1 * BILLION / freq, r0 * BILLION / freq + 1, freq);
  }

  /** Up to a frequency of 10^9 the fields are those of exact arithmetic, and the nanoseconds are in range. */
  lemma RawFields(count: nat, freq: nat)
    requires count < MOD64 && 0 < freq <= BILLION
    ensures RawToTimespec(count, freq)
         == Timespec(Signed64(count / freq), count % freq * BILLION / freq)
    ensures Normal(RawToTimespec(count, freq))
  {
    Division(count, freq);
    RestIsRemainder(count, freq);
    NanosOfRest(count % freq, freq);
  }

  lemma QuotientsGrow(c0: nat, c1: nat, freq: nat)
    requires c0 < c1 && freq > 0
    ensures c0 / freq < c1 / freq || (c0 / freq == c1 / freq && c0 % freq < c1 % freq)
  {
    Division(c0, freq);
    Division(c1, freq);
    Ordered(freq, c0 / freq, c0 % freq, c1 / freq, c1 % freq);
  }

  /**
   A larger count gives a later time, if and only if the seconds do not pass the largest signed
   value between the two; that takes a frequency of 1.
   */
  lemma LaterIff(c0: nat, c1: nat, freq: nat)
    requires c0 < c1 < MOD64 && 0 < freq <= BILLION
    ensures Before(RawToTimespec(c0, freq), RawToTimespec(c1, freq))
            <==> !(c0 / freq < MOD64 / 2 <= c1 / freq)
    ensures freq > 1 ==> Before(RawToTimespec(c0, freq), RawToTimespec(c1, freq))
  {
    RawFields(c0, freq);
    RawFields(c1, freq);
    QuotientsGrow(c0, c1, freq);
    QuotientRange(c0, freq);
    QuotientRange(c1, freq);
    if c0 / freq == c1 / freq {
      NanosGrow(c0 % freq, c1 % freq, freq);
    }
    LaterFields(c0 / freq, c0 % freq * BILLION / freq, c1 / freq, c1 % freq * BILLION / freq);
  }

  /** At 1 Hz the time goes back when the count reaches 2^63. */
  lemma EarlierAtOneHertz()
    ensures var c := MOD64 / 2;
            !Before(RawToTimespec(c - 1, 1), RawToTimespec(c, 1)) && RawToTimespec(c, 1).sec == -c
  {
    RawFields(MOD64 / 2, 1);
    LaterIff(MOD64 / 2 - 1, MOD64 / 2, 1);
  }

  lemma LaterFields(q0: nat, n0: int, q1: nat, n1: int)
    requires q0 < MOD64 && q1 < MOD64 && (q0 < q1 || (q0 == q1 && n0 < n1))
    ensures Before(Timespec(Signed64(q0), n0), Timespec(Signed64(q1), n1)) <==> !(q0 < MOD64 / 2 <= q1)
  {
  }

  lemma QuotientRange(count: nat, freq: nat)
    requires count < MOD64 && freq > 0
    ensures 0 <= count / freq < MOD64 && 0 <= count % freq < freq && (freq > 1 ==> count / freq < MOD64 / 2)
  {
    Division(count, freq);
    if freq > 1 {
      Twice(count / freq, freq);
    }
  }

  lemma Twice(q: nat, f: nat)
    requires f >= 2
    ensures q * f >= 2 * q
  {
    assert q * f == 2 * q + q * (f - 2);
  }

  // ----- there and back ---------------------------------------------------------------------

  /** The remainder that comes back: one less exactly when the nanoseconds were rounded. */
  lemma RestBack(rest: nat, freq: nat)
    requires rest < freq <= BILLION
    ensures var n := rest * BILLION / freq;
            && 0 <= n * freq < MOD64
            && n * freq / BILLION == if rest * BILLION % freq == 0 then rest else rest - 1
  {
    Division(rest * BILLION, freq);
    NanosOfRest(rest, freq);
  }

  /**
   A count that goes to a time and back loses nothing if and only if its remainder is a whole
   number of nanoseconds, and otherwise one; with a frequency that divides 10^9 it never loses.
   */
  lemma RoundTripIff(count: nat, freq: nat)
    requires count < MOD64 && 0 < freq <= BILLION
    ensures TimespecToRaw(RawToTimespec(count, freq), freq)
         == if count % freq * BILLION % freq == 0 then count else count - 1
    ensures BILLION % freq == 0 ==> TimespecToRaw(RawToTimespec(count, freq), freq) == count
  {
    var r := count % freq;
    Division(count, freq);
    RawFields(count, freq);
    RestBack(r, freq);
    FieldsBack(count / freq, r * BILLION / freq, freq, if r * BILLION % freq == 0 then r else r - 1);
    if BILLION % freq == 0 {
      DividesProduct(r, freq);
    }
  }

  lemma FieldsBack(q: nat, n: int, freq: nat, back: int)
    requires q < MOD64 && freq < MOD64 && 0 <= n * freq < MOD64 && n * freq / BILLION == back
    requires 0 <= q * freq + back < MOD64
    ensures TimespecToRaw(Timespec(Signed64(q), n), freq) == q * freq + back
  {
    hide Signed64;
    Small(n * freq);
    SecondsBack(q, freq, back);
  }

  lemma SecondsBack(q: nat, freq: nat, n: int)
    requires q < MOD64 && 0 <= q * freq + n < MOD64
    ensures (Signed64(q) * freq + n) % MOD64 == q * freq + n
  {
    if q >= MOD64 / 2 {
      var k: int := freq;
      assert (q - MOD64) * k + n == q * k + n + MOD64 * (0 - k);
      Multiple(q * freq + n, 0 - k);
    }
  }

  lemma DividesProduct(r: nat, freq: nat)
    requires 0 < freq && BILLION % freq == 0
    ensures r * BILLION % freq == 0
  {
    Division(BILLION, freq);
    var k := BILLION / freq;
    Division(r * BILLION, freq);
    assert r * BILLION == r * (k * freq) == r * k * freq;
    Ordered(freq, r * BILLION / freq, r * BILLION % freq, r * k, 0);
    Ordered(freq, r * k, 0, r * BILLION / freq, r * BILLION % freq);
  }
}
