/**
 The divider search of the SiFive PRCI phase-locked loops: a reference divider, a feedback
 divider and an output divider are tried in three nested loops, keeping the closest output.
 */
module Pll {

  import opened Common

  const MHZ := 1_000_000
  const DIVR_MAX := 64
  const DIVF_MAX := 512
  const DIVQ_MAX := 7
  const REF_MIN := 7 * MHZ
  const REF_MAX := 200 * MHZ
  const VCO_MIN := 2400 * MHZ
  const VCO_MAX := 4800 * MHZ

  type u64 = x: int | 0 <= x < MOD64

  function Pow2(q: nat): (r: nat)
    ensures r > 0
  {
    if q == 0 then 1 else 2 * Pow2(q - 1)
  }

  /** The reference, oscillator and output frequency for given divider settings. */
  function Ref(freq: u64, r: nat): nat {
    freq / (r + 1)
  }

  function Vco(p: nat, f: nat): nat {
    p * 2 * (f + 1)
  }

  /** `v >> q` */
  function Out(v: nat, q: nat): nat {
    Halve(v, Pow2(q))
  }

  function Halve(v: nat, p: nat): (r: nat)
    requires p > 0
    ensures r <= v
  {
    DivLe(v, p);
    v / p
  }

  lemma DivLe(v: nat, p: nat)
    requires p > 0
    ensures 0 <= v / p <= v
  {
    MulGe(v / p, p);
  }

  lemma MulGe(x: nat, p: nat)
    requires p > 0
    ensures x <= x * p
  {
    assert x * p == x + x * (p - 1);
  }

  predicate RefOk(p: nat) {
    REF_MIN <= p < REF_MAX
  }

  predicate VcoOk(v: nat) {
    VCO_MIN <= v < VCO_MAX
  }

  const TWO63 := 0x8000_0000_0000_0000

  /**
   `NABS((int64_t)(target - x))` in two's complement: a difference of -2^63 has no positive
   counterpart and stays negative.
   */
  function Dist(target: u64, x: u64): int {
    var d := (target - x) % MOD64;
    if d < TWO63 then d else if d == TWO63 then -TWO63 else MOD64 - d
  }

  function Abs(x: int): nat {
    if x < 0 then -x else x
  }

  /** The computed distance is the true one exactly as long as the true one is below 2^63. */
  lemma DistExact(target: u64, x: u64)
    ensures Dist(target, x) == Abs(target - x) <==> Abs(target - x) < TWO63
  {
    if x <= target {
      assert (target - x) % MOD64 == target - x;
    } else {
      assert (target - x) % MOD64 == target - x + MOD64;
    }
  }

  /** A setting the hardware allows. */
  predicate Admissible(freq: u64, r: nat, f: nat, q: nat) {
    r < DIVR_MAX && f < DIVF_MAX && q < DIVQ_MAX && RefOk(Ref(freq, r)) && VcoOk(Vco(Ref(freq, r), f))
  }

  function Output(freq: u64, r: nat, f: nat, q: nat): nat {
    Out(Vco(Ref(freq, r), f), q)
  }

  lemma OutBound(v: nat, q: nat)
    ensures Out(v, q) <= v
  {
  }

  /** No output divider below `upTo` takes oscillator frequency `v` closer to the target than `x` is. */
  ghost predicate BeatsOut(target: u64, x: u64, v: nat, upTo: nat)
    requires VcoOk(v)
  {
    forall q :: 0 <= q < upTo ==> Out(v, q) < MOD64 && Dist(target, x) <= Dist(target, Out(v, q))
  }

  ghost predicate BeatsVco(target: u64, x: u64, p: nat, upTo: nat) {
    forall f :: 0 <= f < upTo && VcoOk(Vco(p, f)) ==> BeatsOut(target, x, Vco(p, f), DIVQ_MAX)
  }

  ghost predicate BeatsRef(target: u64, x: u64, freq: u64, upTo: nat) {
    forall r :: 0 <= r < upTo && RefOk(Ref(freq, r)) ==> BeatsVco(target, x, Ref(freq, r), DIVF_MAX)
  }

  lemma StillBeatsOut(target: u64, x: u64, y: u64, v: nat, upTo: nat)
    requires VcoOk(v) && BeatsOut(target, x, v, upTo) && Dist(target, y) <= Dist(target, x)
    ensures BeatsOut(target, y, v, upTo)
  {}

  lemma StillBeatsVco(target: u64, x: u64, y: u64, p: nat, upTo: nat)
    requires BeatsVco(target, x, p, upTo) && Dist(target, y) <= Dist(target, x)
    ensures BeatsVco(target, y, p, upTo)
  {
    forall f | 0 <= f < upTo && VcoOk(Vco(p, f)) ensures BeatsOut(target, y, Vco(p, f), DIVQ_MAX) {
      StillBeatsOut(target, x, y, Vco(p, f), DIVQ_MAX);
    }
  }

  lemma StillBeatsRef(target: u64, x: u64, y: u64, freq: u64, upTo: nat)
    requires BeatsRef(target, x, freq, upTo) && Dist(target, y) <= Dist(target, x)
    ensures BeatsRef(target, y, freq, upTo)
  {
    forall r | 0 <= r < upTo && RefOk(Ref(freq, r)) ensures BeatsVco(target, y, Ref(freq, r), DIVF_MAX) {
      StillBeatsVco(target, x, y, Ref(freq, r), DIVF_MAX);
    }
  }

  /** The working record of the search. */
  class Conf {
    var target: u64
    var divr: nat
    var postDivr: nat
    var divf: nat
    var postDivf: nat
    var result: u64
    var divrFound: nat
    var postDivrFound: nat
    var divfFound: nat
    var divqFound: nat
    var range: nat
    var found: bool

    constructor (target: u64)
      ensures this.target == target
    {
      this.target := target;
      divr, postDivr, divf, postDivf, result := 0, 0, 0, 0, 0;
      divrFound, postDivrFound, divfFound, divqFound, range, found := 0, 0, 0, 0, 0, false;
    }

    /** A found setting is admissible, gives `result`, and is closer to the target than 0 is. */
    ghost predicate Valid(freq: u64)
      reads this
    {
      if found then
        && Admissible(freq, divrFound, divfFound, divqFound) && postDivrFound == Ref(freq, divrFound)
        && result == Output(freq, divrFound, divfFound, divqFound) && Dist(target, result) < Dist(target, 0)
      else result == 0
    }

    method FindDivq(ghost freq: u64)
      requires Valid(freq) && VcoOk(postDivf) && divr < DIVR_MAX && divf < DIVF_MAX
      requires postDivr == Ref(freq, divr) && RefOk(postDivr) && postDivf == Vco(postDivr, divf)
      modifies `result, `divrFound, `postDivrFound, `divfFound, `divqFound, `found
      ensures Valid(freq) && Dist(target, result) <= old(Dist(target, result))
              && BeatsOut(target, result, postDivf, DIVQ_MAX)
    {
      hide Dist, Out, Vco, Ref;
      var i := 0;
      while i < DIVQ_MAX
        invariant 0 <= i <= DIVQ_MAX && Valid(freq) && Dist(target, result) <= old(Dist(target, result))
                  && BeatsOut(target, result, postDivf, i)
      {
        OutBound(postDivf, i);
        var postDivq: u64 := Out(postDivf, i);
        if Dist(target, postDivq) < Dist(target, result) {
          result := postDivq;
          divrFound := divr;
          postDivrFound := postDivr;
          divfFound := divf;
          divqFound := i;
          found := true;
        }
        i := i + 1;
      }
    }

    method FindDivf(ghost freq: u64)
      requires Valid(freq) && divr < DIVR_MAX && postDivr == Ref(freq, divr) && RefOk(postDivr)
      modifies `divf, `postDivf, `result, `divrFound, `postDivrFound, `divfFound, `divqFound, `found
      ensures Valid(freq) && Dist(target, result) <= old(Dist(target, result))
              && BeatsVco(target, result, postDivr, DIVF_MAX)
    {
      var i := 0;
      while i < DIVF_MAX
        invariant 0 <= i <= DIVF_MAX && Valid(freq) && Dist(target, result) <= old(Dist(target, result))
                  && BeatsVco(target, result, postDivr, i)
      {
        var v := postDivr * 2 * (i + 1);
        assert v == Vco(postDivr, i);
        if VCO_MIN <= v && v < VCO_MAX {
          divf := i;
          postDivf := v;
          ghost var was := result;
          FindDivq(freq);
          StillBeatsVco(target, was, result, postDivr, i);
        }
        i := i + 1;
      }
    }

    /** The whole search for an input frequency. */
    method FindDivr(freq: u64) returns (res: int)
      modifies this
      ensures target == old(target) && Valid(freq) && BeatsRef(target, result, freq, DIVR_MAX)
      ensures res == if found then 0 else -EINVAL
      ensures found ==> FilterRange(postDivrFound) == Some(range)
    {
      result := 0;
      found := false;
      var i := 0;
      while i < DIVR_MAX
        invariant 0 <= i <= DIVR_MAX && target == old(target) && Valid(freq) && BeatsRef(target, result, freq, i)
      {
        var p := freq / (i + 1);
        assert p == Ref(freq, i);
        if REF_MIN <= p && p < REF_MAX {
          divr := i;
          postDivr := p;
          ghost var was := result;
          FindDivf(freq);
          StillBeatsRef(target, was, result, freq, i);
        }
        i := i + 1;
      }
      if found {
        var r := FilterRange(postDivrFound);
        if r.None? {
          return -EINVAL;
        }
        range := r.value;
        return 0;
      }
      res := -EINVAL;
    }
  }

  /** The limits between the filter ranges, in MHz. */
  const RANGE_LIMITS: seq<nat> := [11, 18, 30, 50, 80, 130]

  /** How many of the limits a frequency reaches. */
  function Reached(limits: seq<nat>, p: nat): (n: nat)
    ensures n <= |limits|
  {
    if limits == [] then 0 else (if p >= limits[0] * MHZ then 1 else 0) + Reached(limits[1..], p)
  }

  lemma ReachedAll(p: nat)
    ensures var b := (l: nat) => if p >= l * MHZ then 1 else 0;
            Reached(RANGE_LIMITS, p) == b(11) + b(18) + b(30) + b(50) + b(80) + b(130)
  {
    var l := RANGE_LIMITS;
    assert l[1..] == [18, 30, 50, 80, 130] && l[2..] == [30, 50, 80, 130] && l[3..] == [50, 80, 130];
    assert l[4..] == [80, 130] && l[5..] == [130] && l[6..] == [];
    assert l[1..][1..] == l[2..] && l[2..][1..] == l[3..] && l[3..][1..] == l[4..] && l[4..][1..] == l[5..];
    assert l[5..][1..] == l[6..];
    assert Reached(l[5..], p) == (if p >= 130 * MHZ then 1 else 0);
    assert Reached(l[4..], p) == (if p >= 80 * MHZ then 1 else 0) + Reached(l[5..], p);
    assert Reached(l[3..], p) == (if p >= 50 * MHZ then 1 else 0) + Reached(l[4..], p);
    assert Reached(l[2..], p) == (if p >= 30 * MHZ then 1 else 0) + Reached(l[3..], p);
    assert Reached(l[1..], p) == (if p >= 18 * MHZ then 1 else 0) + Reached(l[2..], p);
  }

  /**
   The filter range of a reference frequency: it exists exactly for the frequencies the search admits,
   and is one more than the number of limits the frequency reaches.
   */
  function FilterRange(p: nat): (r: Option<nat>)
    ensures r.Some? <==> RefOk(p)
    ensures r.Some? <==> 7_000_000 <= p < 200_000_000
    ensures r.Some? ==> 1 <= r.value <= 7 && r.value == 1 + Reached(RANGE_LIMITS, p)
  {
    ReachedAll(p);
    if 7 * MHZ <= p < 11 * MHZ then Some(1)
    else if 11 * MHZ <= p < 18 * MHZ then Some(2)
    else if 18 * MHZ <= p < 30 * MHZ then Some(3)
    else if 30 * MHZ <= p < 50 * MHZ then Some(4)
    else if 50 * MHZ <= p < 80 * MHZ then Some(5)
    else if 80 * MHZ <= p < 130 * MHZ then Some(6)
    else if 130 * MHZ <= p < 200 * MHZ then Some(7)
    else None
  }

  // ----- the result is optimal --------------------------------------------------------------

  /** What the search reports. */
  datatype Setting = Setting(r: nat, f: nat, q: nat, range: nat, result: nat)

  /**
   By the computed distance the search succeeds if and only if some admissible setting is closer to
   the target than 0 is, and then returns an admissible setting at least as close as every other.
   For targets below 2^63 the same holds by the true distance; above, exactly under `HighTargetOk`.
   */
  method Search(freq: u64, target: u64) returns (res: Option<Setting>)
    ensures res.Some? <==> exists r, f, q :: Admissible(freq, r, f, q) && Closer(freq, target, r, f, q)
    ensures res.Some? ==> var s := res.value;
              && Admissible(freq, s.r, s.f, s.q) && s.result == Output(freq, s.r, s.f, s.q) < MOD64
              && FilterRange(Ref(freq, s.r)) == Some(s.range)
              && forall r, f, q :: Admissible(freq, r, f, q) ==> AtLeastAsClose(freq, target, s.result, r, f, q)
    ensures target < TWO63 ==> Right(freq, target, Frequency(res))
    ensures target >= TWO63 ==> (Right(freq, target, Frequency(res)) <==> HighTargetOk(freq, target - TWO63))
    ensures forall r, q :: Reachable(freq, target, r, q) ==>
              res.Some? && Abs(target - res.value.result) <= Halve(2 * Ref(freq, r), Pow2(q)) + 1
  {
    var conf := new Conf(target);
    var rc := conf.FindDivr(freq);
    forall r, f, q | Admissible(freq, r, f, q) ensures AtLeastAsClose(freq, target, conf.result, r, f, q) {
      assert BeatsVco(target, conf.result, Ref(freq, r), DIVF_MAX);
      assert BeatsOut(target, conf.result, Vco(Ref(freq, r), f), DIVQ_MAX);
    }
    forall r, q | Reachable(freq, target, r, q)
      ensures conf.found && Abs(target - conf.result) <= Halve(2 * Ref(freq, r), Pow2(q)) + 1
    {
      assert conf.result < VCO_MAX;
      ErrorBound(freq, target, r, q, conf.result);
      var f := NearSetting(freq, target, r, q);
      assert AtLeastAsClose(freq, target, conf.result, r, f, q);
    }
    res := None;
    if rc == 0 {
      assert Closer(freq, target, conf.divrFound, conf.divfFound, conf.divqFound);
      res := Some(Setting(conf.divrFound, conf.divfFound, conf.divqFound, conf.range, conf.result));
    }
    ByOutputs(freq, target, Frequency(res), rc == 0);
    SearchRight(freq, target, Frequency(res));
  }

  /** From settings to the frequencies they give. */
  lemma ByOutputs(freq: u64, target: u64, res: Option<nat>, found: bool)
    requires found == res.Some?
             && (found <==> exists r: nat, f: nat, q: nat :: Admissible(freq, r, f, q) && Closer(freq, target, r, f, q))
    requires found ==> IsOutput(freq, res.value) && res.value < MOD64
    requires found ==> forall r: nat, f: nat, q: nat :: Admissible(freq, r, f, q) ==>
             AtLeastAsClose(freq, target, res.value, r, f, q)
    ensures Computed(freq, target, res)
  {
    hide Dist, Output;
    if x: nat :| IsOutput(freq, x) && x < MOD64 && Dist(target, x) < Dist(target, 0) {
      var r: nat, f: nat, q: nat :| Admissible(freq, r, f, q) && Output(freq, r, f, q) == x;
      assert Closer(freq, target, r, f, q);
    }
    if r: nat, f: nat, q: nat :| Admissible(freq, r, f, q) && Closer(freq, target, r, f, q) {
      assert IsOutput(freq, Output(freq, r, f, q));
    }
    if found {
      forall x: nat | IsOutput(freq, x)
        ensures x < MOD64 && Dist(target, res.value) <= Dist(target, x)
      {
        var r: nat, f: nat, q: nat :| Admissible(freq, r, f, q) && Output(freq, r, f, q) == x;
        assert AtLeastAsClose(freq, target, res.value, r, f, q);
      }
    }
  }

  function Frequency(res: Option<Setting>): Option<nat> {
    if res.Some? then Some(res.value.result) else None
  }

  predicate Closer(freq: u64, target: u64, r: nat, f: nat, q: nat) {
    Output(freq, r, f, q) < MOD64 && Dist(target, Output(freq, r, f, q)) < Dist(target, 0)
  }

  predicate AtLeastAsClose(freq: u64, target: u64, x: nat, r: nat, f: nat, q: nat) {
    x < MOD64 && Output(freq, r, f, q) < MOD64 && Dist(target, x) <= Dist(target, Output(freq, r, f, q))
  }

  // ----- by the true distance ---------------------------------------------------------------

  /** Some admissible setting gives the frequency `x`. */
  ghost predicate IsOutput(freq: u64, x: nat) {
    exists r: nat, f: nat, q: nat :: Admissible(freq, r, f, q) && Output(freq, r, f, q) == x
  }

  /** What the search is for: the closest output, or none when no output is closer than 0. */
  ghost predicate Right(freq: u64, target: u64, res: Option<nat>) {
    && (res.Some? <==> exists x: nat :: IsOutput(freq, x) && Abs(target - x) < target)
    && (res.Some? ==> IsOutput(freq, res.value))
    && (res.Some? ==> forall x: nat :: IsOutput(freq, x) ==> Abs(target - res.value) <= Abs(target - x))
  }

  /** What the loops give: the same by the computed distance. */
  ghost predicate Computed(freq: u64, target: u64, res: Option<nat>) {
    && (res.Some? <==> exists x: nat :: IsOutput(freq, x) && x < MOD64 && Dist(target, x) < Dist(target, 0))
    && (res.Some? ==> IsOutput(freq, res.value) && res.value < MOD64)
    && (res.Some? ==> forall x: nat :: IsOutput(freq, x) ==> x < MOD64 && Dist(target, res.value) <= Dist(target, x))
  }

  ghost predicate Largest(freq: u64, m: nat) {
    IsOutput(freq, m) && forall x: nat :: IsOutput(freq, x) ==> x <= m
  }

  /**
   A target of 2^63 + t comes out right only when there is no output at all, or when the largest
   output is t itself, or is above 2t with t not an output.
   */
  ghost predicate HighTargetOk(freq: u64, t: nat) {
    || (forall x: nat :: !IsOutput(freq, x))
    || (t > 0 && exists m: nat :: Largest(freq, m) && (m == t || (m > 2 * t && !IsOutput(freq, t))))
  }

  lemma ShiftPositive(v: nat, w: nat)
    requires IsShift(w) && VcoOk(v)
    ensures 0 < v / w < VCO_MAX
  {
    if w == 1 {} else if w == 2 {} else if w == 4 {} else if w == 8 {} else if w == 16 {} else if w == 32 {} else {}
  }

  lemma OutputRange(freq: u64, x: nat)
    requires IsOutput(freq, x)
    ensures 0 < x < VCO_MAX
  {
    var r: nat, f: nat, q: nat :| Admissible(freq, r, f, q) && Output(freq, r, f, q) == x;
    ShiftOf(q);
    ShiftPositive(Vco(Ref(freq, r), f), Pow2(q));
  }

  lemma LowDist(target: u64, x: nat)
    requires target < TWO63 && x < VCO_MAX
    ensures Dist(target, x) == Abs(target - x)
  {
    DistExact(target, x);
  }

  lemma LowRight(freq: u64, target: u64, res: Option<nat>)
    requires target < TWO63 && Computed(freq, target, res)
    ensures Right(freq, target, res)
  {
    hide Dist, IsOutput, Abs;
    forall x: nat | IsOutput(freq, x)
      ensures x < VCO_MAX && Dist(target, x) == Abs(target - x)
    {
      OutputRange(freq, x);
      LowDist(target, x);
    }
    LowDist(target, 0);
    TargetItself(target);
  }

  lemma TargetItself(target: u64)
    ensures Abs(target - 0) == target
  {
  }

  /** The computed distances from a target of 2^63 + t. */
  lemma HighDist(t: nat, x: nat)
    requires t < TWO63 && x < VCO_MAX
    ensures Dist(TWO63 + t, x)
         == if x < t then TWO63 - (t - x) else if x == t then -TWO63 else TWO63 - (x - t)
    ensures Abs(TWO63 + t - x) == TWO63 + t - x
  {
    if x < t {
      assert (TWO63 + t - x) % MOD64 == TWO63 + t - x;
    } else {
      assert (TWO63 + t - x) % MOD64 == TWO63 + t - x;
    }
  }

  /** Seen from above 2^63 the right answer is the largest output. */
  lemma RightIsLargest(freq: u64, t: nat, res: Option<nat>, x: nat)
    requires t < TWO63 && IsOutput(freq, x) && (res.Some? ==> IsOutput(freq, res.value))
    ensures Right(freq, TWO63 + t, res) <==> res.Some? && Largest(freq, res.value)
  {
    hide IsOutput, Dist;
    forall y: nat | IsOutput(freq, y)
      ensures 0 < y < VCO_MAX && Abs(TWO63 + t - y) == TWO63 + t - y
    {
      OutputRange(freq, y);
      HighDist(t, y);
    }
    assert Abs(TWO63 + t - x) < TWO63 + t;
  }

  lemma HighComputed(freq: u64, t: nat, res: Option<nat>, x: nat)
    requires t < TWO63 && Computed(freq, TWO63 + t, res) && IsOutput(freq, x)
    ensures res.Some? && Largest(freq, res.value) <==> HighTargetOk(freq, t)
  {
    hide IsOutput, Dist;
    forall y: nat | IsOutput(freq, y)
      ensures 0 < y < VCO_MAX
      ensures Dist(TWO63 + t, y) == if y < t then TWO63 - (t - y) else if y == t then -TWO63 else TWO63 - (y - t)
    {
      OutputRange(freq, y);
      HighDist(t, y);
    }
    HighDist(t, 0);
    if t > 0 {
      if m: nat :| Largest(freq, m) && (m == t || (m > 2 * t && !IsOutput(freq, t))) {
        assert Dist(TWO63 + t, m) < Dist(TWO63 + t, 0);
      }
    }
  }

  lemma SearchRight(freq: u64, target: u64, res: Option<nat>)
    requires Computed(freq, target, res)
    ensures target < TWO63 ==> Right(freq, target, res)
    ensures target >= TWO63 ==> (Right(freq, target, res) <==> HighTargetOk(freq, target - TWO63))
  {
    hide IsOutput, Dist;
    if target < TWO63 {
      LowRight(freq, target, res);
    } else if x: nat :| IsOutput(freq, x) {
      RightIsLargest(freq, target - TWO63, res, x);
      HighComputed(freq, target - TWO63, res, x);
    }
  }

  /** At a target of exactly 2^63 the search fails although a setting exists: every output seems further than 0. */
  lemma NoSettingAtTwo63()
    ensures Admissible(33_333_333, 0, 36, 0)
    ensures forall r, f, q :: Admissible(33_333_333, r, f, q) ==> !Closer(33_333_333, TWO63, r, f, q)
    ensures !HighTargetOk(33_333_333, 0)
  {
    assert Dist(TWO63, 0) == -TWO63;
    assert IsOutput(33_333_333, Output(33_333_333, 0, 36, 0));
  }

  /** Above 2^63 the search locks onto an output that equals the excess, however far a larger one is. */
  lemma LocksOntoExcess(freq: u64, t: nat, m: nat)
    requires IsOutput(freq, t) && IsOutput(freq, m) && t < m
    ensures t < TWO63 && Dist(TWO63 + t, t) < Dist(TWO63 + t, m) && !HighTargetOk(freq, t)
  {
    hide IsOutput, Dist;
    OutputRange(freq, t);
    OutputRange(freq, m);
    HighDist(t, t);
    HighDist(t, m);
  }

  // ----- how close the result is ------------------------------------------------------------

  /** The target, scaled up by the output divider, lies in the oscillator's range. */
  predicate Reachable(freq: u64, target: u64, r: nat, q: nat) {
    r < DIVR_MAX && q < DIVQ_MAX && RefOk(Ref(freq, r)) && VcoOk(target * Pow2(q))
  }

  /** The factors by which the output divider scales down. */
  predicate IsShift(w: int) {
    w == 1 || w == 2 || w == 4 || w == 8 || w == 16 || w == 32 || w == 64
  }

  lemma ShiftOf(q: nat)
    requires q < DIVQ_MAX
    ensures IsShift(Pow2(q))
  {
    assert Pow2(0) == 1 && Pow2(1) == 2 && Pow2(2) == 4 && Pow2(3) == 8 && Pow2(4) == 16 && Pow2(5) == 32
           && Pow2(6) == 64;
  }

  lemma ShiftAddMul(a: int, t: int, w: int)
    requires IsShift(w)
    ensures (a + t * w) / w == a / w + t
  {
    if w == 1 {} else if w == 2 {} else if w == 4 {} else if w == 8 {} else if w == 16 {} else if w == 32 {} else {}
  }

  lemma ShiftBounds(a: int, b: nat, w: int)
    requires IsShift(w) && -(b as int) <= a <= b
    ensures -(b / w) - 1 <= a / w <= b / w
  {
    if w == 1 {} else if w == 2 {} else if w == 4 {} else if w == 8 {} else if w == 16 {} else if w == 32 {} else {}
  }

  /** One feedback step is smaller than any target that can be reached. */
  lemma StepSmall(p: nat, target: nat, w: nat)
    requires RefOk(p) && IsShift(w) && VcoOk(target * w)
    ensures 2 * p / w + 1 < target < VCO_MAX
  {
    if w == 1 {} else if w == 2 {} else if w == 4 {} else if w == 8 {} else if w == 16 {} else if w == 32 {} else {}
  }

  /** A multiple of `d` near `t` that lies in the oscillator's range. */
  lemma NearMultiple(d: nat, t: nat) returns (f: nat)
    requires 2 * REF_MIN <= d < 2 * REF_MAX && VcoOk(t)
    ensures f < DIVF_MAX && VcoOk(d * (f + 1)) && t - d <= d * (f + 1) <= t + d
  {
    var k := t / d;
    var x := d * k;
    assert t == x + t % d && d * (k + 1) == x + d;
    Multiples(d, k);
    if x >= VCO_MIN {
      assert k > 0;
      f := k - 1;
    } else {
      f := k;
    }
  }

  lemma Multiples(d: nat, k: nat)
    requires 2 * REF_MIN <= d
    ensures 2 * REF_MIN * k <= d * k
  {
    assert d * k == 2 * REF_MIN * k + (d - 2 * REF_MIN) * k;
  }

  /** For every reachable output divider there is a setting whose error is at most one feedback step. */
  lemma NearSetting(freq: u64, target: u64, r: nat, q: nat) returns (f: nat)
    requires Reachable(freq, target, r, q)
    ensures Admissible(freq, r, f, q) && Output(freq, r, f, q) < VCO_MAX && Closer(freq, target, r, f, q)
    ensures Abs(target - Output(freq, r, f, q)) <= Halve(2 * Ref(freq, r), Pow2(q)) + 1
  {
    var p, w := Ref(freq, r), Pow2(q);
    ShiftOf(q);
    f := NearMultiple(2 * p, target * w);
    var v := Vco(p, f);
    assert v == 2 * p * (f + 1);
    ShiftAddMul(v - target * w, target, w);
    ShiftBounds(v - target * w, 2 * p, w);
    OutBound(v, q);
    StepSmall(p, target, w);
    DistExact(target, Output(freq, r, f, q));
    DistExact(target, 0);
  }

  lemma ErrorBound(freq: u64, target: u64, r: nat, q: nat, x: u64)
    requires Reachable(freq, target, r, q)
    requires forall r, f, q :: Admissible(freq, r, f, q) ==> AtLeastAsClose(freq, target, x, r, f, q)
    requires x < VCO_MAX
    ensures Abs(target - x) <= Halve(2 * Ref(freq, r), Pow2(q)) + 1
  {
    var f := NearSetting(freq, target, r, q);
    var y := Output(freq, r, f, q);
    assert AtLeastAsClose(freq, target, x, r, f, q);
    ShiftOf(q);
    StepSmall(Ref(freq, r), target, Pow2(q));
    DistExact(target, x);
    DistExact(target, y);
  }

  // ----- the configuration register ---------------------------------------------------------

  /** The fields of the configuration word and the feedback-select bit, packed. */
  function Pack(r: bv32, f: bv32, q: bv32, range: bv32): bv32 {
    (r << 0) | (f << 6) | (q << 15) | (range << 18) | (1 << 25)
  }

  /** Every setting the search can find survives packing: each field reads back unchanged. */
  lemma PackFields(r: bv32, f: bv32, q: bv32, range: bv32)
    requires r < 64 && f < 512 && q < 8 && range < 8
    ensures var v := Pack(r, f, q, range);
            v & 0x3f == r && (v >> 6) & 0x1ff == f && (v >> 15) & 7 == q && (v >> 18) & 7 == range && v >> 21 == 0x10
  {}

  function Register(r: nat, f: nat, q: nat, range: nat): bv32
    requires r < DIVR_MAX && f < DIVF_MAX && q < DIVQ_MAX && range <= 7
  {
    Pack(r as bv32, f as bv32, q as bv32, range as bv32)
  }

  lemma SmallBits(n: nat)
    requires n < 512
    ensures (n as bv32) < 512
    ensures n < 64 ==> (n as bv32) < 64
    ensures n < 8 ==> (n as bv32) < 8
  {}

  lemma RegisterFields(r: nat, f: nat, q: nat, range: nat)
    requires r < DIVR_MAX && f < DIVF_MAX && q < DIVQ_MAX && range <= 7
    ensures var word := Register(r, f, q, range);
            && word & 0x3f == r as bv32 && (word >> 6) & 0x1ff == f as bv32
            && (word >> 15) & 7 == q as bv32 && (word >> 18) & 7 == range as bv32
  {
    SmallBits(r);
    SmallBits(f);
    SmallBits(q);
    SmallBits(range);
    PackFields(r as bv32, f as bv32, q as bv32, range as bv32);
  }

  /**
   Program the loop: the word written holds exactly the dividers of an optimal setting, and
   `found` is the frequency it gives; by the true distance as for `Search`.
   */
  method UpdateConfig(freq: u64, target: u64) returns (rc: int, word: bv32, found: nat, s: Option<Setting>)
    ensures rc == if s.Some? then 0 else -EINVAL
    ensures s.Some? <==> exists r, f, q :: Admissible(freq, r, f, q) && Closer(freq, target, r, f, q)
    ensures s.Some? ==> forall r, f, q :: Admissible(freq, r, f, q) ==> AtLeastAsClose(freq, target, found, r, f, q)
    ensures target < TWO63 ==> Right(freq, target, if rc == 0 then Some(found) else None)
    ensures target >= TWO63 ==>
              (Right(freq, target, if rc == 0 then Some(found) else None) <==> HighTargetOk(freq, target - TWO63))
    ensures s.Some? ==>
              && Admissible(freq, s.value.r, s.value.f, s.value.q)
              && found == Output(freq, s.value.r, s.value.f, s.value.q)
              && FilterRange(Ref(freq, s.value.r)) == Some(s.value.range)
              && s.value.range == 1 + Reached(RANGE_LIMITS, Ref(freq, s.value.r))
              && word & 0x3f == s.value.r as bv32 && (word >> 6) & 0x1ff == s.value.f as bv32
              && (word >> 15) & 7 == s.value.q as bv32 && (word >> 18) & 7 == s.value.range as bv32
  {
    s := Search(freq, target);
    if s.None? {
      return -EINVAL, 0, 0, s;
    }
    rc, word, found := 0, Register(s.value.r, s.value.f, s.value.q, s.value.range), s.value.result;
    RegisterFields(s.value.r, s.value.f, s.value.q, s.value.range);
  }

  /** The word for 1999.99998 MHz from 33.333333 MHz: dividers 1, 60 and 2, filter range 4. */
  lemma KnownSetting()
    ensures Ref(33_333_333, 0) == 33_333_333 && Vco(33_333_333, 59) == 3_999_999_960
    ensures Admissible(33_333_333, 0, 59, 1) && Output(33_333_333, 0, 59, 1) == 1_999_999_980
    ensures FilterRange(33_333_333) == Some(4) && Pack(0, 59, 1, 4) == 0x0210_8ec0
  {
    assert Pow2(1) == 2;
  }
}
