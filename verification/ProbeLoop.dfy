/**
 The probe retry loop: every pass makes progress when the dependencies can be ordered, the loop
 then ends with every device probed, and it never ends when they cannot be ordered.
 */
module ProbeLoop {

  import opened Common
  import opened Probe

  function Ids(dev: Device): set<nat>
    decreases dev, 1
  {
    {dev.id} + (if dev.child.Some? then IdsOf(dev.child.value.devs) else {})
  }

  function IdsOf(devs: seq<Device>): set<nat>
    decreases devs, 0
  {
    if devs == [] then {} else Ids(devs[0]) + IdsOf(devs[1..])
  }

  // ----- facts about any drivers ------------------------------------------------------------

  ghost predicate LogMatches(st: Flags) {
    && (forall x, y :: 0 <= x < y < |st.log| ==> st.log[x] != st.log[y])
    && (forall d :: d in st.log <==> d in st.probed)
  }

  ghost predicate Advances(st: Flags, t: Flags) {
    st.probed <= t.probed && st.log <= t.log && (LogMatches(st) ==> LogMatches(t))
  }

  lemma AddAdvances(env: Drivers, d: nat, st: Flags)
    ensures d !in st.probed ==> Advances(st, AddDevice(env, d, st).0)
  {}

  /** Whatever the drivers do, a walk forgets no device, and no add ever succeeds twice. */
  lemma {:induction false} WalkAdvances(env: Drivers, dev: Device, st: Flags)
    ensures Advances(st, WalkDevice(env, dev, st).0)
    decreases dev, 1
  {
    var st1 := Attach(env, dev.id, st);
    if dev.id in st1.drv {
      AddAdvances(env, dev.id, st1);
      var (st2, r) := TryDevice(env, dev.id, st1);
      assert Advances(st, st2);
      if r == 0 && dev.child.Some? {
        var (st3, q) := AddBus(env, dev.child.value.id, st2);
        if q == 0 { WalkListAdvances(env, dev.child.value.devs, st3, 0); }
      }
    }
  }

  lemma {:induction false} WalkListAdvances(env: Drivers, devs: seq<Device>, st: Flags, r: int)
    ensures Advances(st, WalkDevices(env, devs, st, r).0)
    decreases devs, 0
  {
    if devs != [] {
      WalkAdvances(env, devs[0], st);
      var (st1, s) := WalkDevice(env, devs[0], st);
      if !IsError(s) {
        WalkListAdvances(env, devs[1..], st1, if s == -EAGAIN then -EAGAIN else r);
      }
    }
  }

  // ----- drivers that only wait for other devices -------------------------------------------

  /** A driver's add succeeds exactly when the device's dependencies are probed; buses always succeed. */
  ghost predicate Patient(env: Drivers, ids: set<nat>, waits: nat -> set<nat>) {
    && (forall b, p :: env.busAdd(b, p) == 0)
    && (forall d, p :: d in ids ==> env.add(d, p) == if waits(d) <= p then 0 else -EAGAIN)
  }

  /** Every device has such a driver. */
  ghost predicate OnlyWaits(env: Drivers, dev: Device, waits: nat -> set<nat>) {
    Ids(dev) <= env.devices && Patient(env, Ids(dev), waits)
  }

  ghost predicate OnlyWaitsOf(env: Drivers, devs: seq<Device>, waits: nat -> set<nat>) {
    IdsOf(devs) <= env.devices && Patient(env, IdsOf(devs), waits)
  }

  lemma {:induction false} WalkResult(env: Drivers, dev: Device, waits: nat -> set<nat>, st: Flags)
    requires OnlyWaits(env, dev, waits)
    ensures var (t, r) := WalkDevice(env, dev, st); (r == 0 || r == -EAGAIN) && (r == 0 ==> Ids(dev) <= t.probed)
    ensures Ids(dev) <= st.probed ==> WalkDevice(env, dev, st).1 == 0
    decreases dev, 1
  {
    var st1 := Attach(env, dev.id, st);
    assert dev.id in Ids(dev) && dev.id in st1.drv;
    var (st2, r) := TryDevice(env, dev.id, st1);
    if r == 0 && dev.child.Some? {
      var (st3, q) := AddBus(env, dev.child.value.id, st2);
      assert q == 0 && st3.probed == st2.probed && dev.id in st3.probed;
      WalkListResult(env, dev.child.value.devs, waits, st3, 0);
      WalkListAdvances(env, dev.child.value.devs, st3, 0);
    }
  }

  lemma {:induction false} WalkListResult(env: Drivers, devs: seq<Device>, waits: nat -> set<nat>, st: Flags, r: int)
    requires OnlyWaitsOf(env, devs, waits) && (r == 0 || r == -EAGAIN)
    ensures var (t, q) := WalkDevices(env, devs, st, r); (q == 0 || q == -EAGAIN) && (r == -EAGAIN ==> q == -EAGAIN)
    ensures var (t, q) := WalkDevices(env, devs, st, r); q == 0 ==> IdsOf(devs) <= t.probed
    ensures r == 0 && IdsOf(devs) <= st.probed ==> WalkDevices(env, devs, st, r).1 == 0
    decreases devs, 0
  {
    if devs != [] {
      assert OnlyWaits(env, devs[0], waits) && OnlyWaitsOf(env, devs[1..], waits);
      WalkResult(env, devs[0], waits, st);
      WalkAdvances(env, devs[0], st);
      var (st1, s) := WalkDevice(env, devs[0], st);
      var r1 := if s == -EAGAIN then -EAGAIN else r;
      WalkListResult(env, devs[1..], waits, st1, r1);
      WalkListAdvances(env, devs[1..], st1, r1);
    }
  }

  // ----- progress ---------------------------------------------------------------------------

  /** Device `d` lies below `dev` and every device on the way down to it is in `p`. */
  predicate Exposed(dev: Device, d: nat, p: set<nat>)
    decreases dev, 1
  {
    dev.id == d || (dev.id in p && dev.child.Some? && ExposedIn(dev.child.value.devs, d, p))
  }

  predicate ExposedIn(devs: seq<Device>, d: nat, p: set<nat>)
    decreases devs, 0
  {
    devs != [] && (Exposed(devs[0], d, p) || ExposedIn(devs[1..], d, p))
  }

  lemma {:induction false} ExposedMoreIn(devs: seq<Device>, d: nat, p: set<nat>, q: set<nat>)
    requires ExposedIn(devs, d, p) && p <= q
    ensures ExposedIn(devs, d, q)
    decreases devs, 0
  {
    if Exposed(devs[0], d, p) { ExposedMore(devs[0], d, p, q); } else { ExposedMoreIn(devs[1..], d, p, q); }
  }

  lemma {:induction false} ExposedMore(dev: Device, d: nat, p: set<nat>, q: set<nat>)
    requires Exposed(dev, d, p) && p <= q
    ensures Exposed(dev, d, q)
    decreases dev, 1
  {
    if dev.id != d { ExposedMoreIn(dev.child.value.devs, d, p, q); }
  }

  /** One pass probes every exposed device whose dependencies are already probed. */
  lemma {:induction false} WalkProbes(env: Drivers, dev: Device, waits: nat -> set<nat>, st: Flags, d: nat)
    requires OnlyWaits(env, dev, waits) && d in Ids(dev) && Exposed(dev, d, st.probed) && waits(d) <= st.probed
    ensures d in WalkDevice(env, dev, st).0.probed
    decreases dev, 1
  {
    WalkAdvances(env, dev, st);
    var st1 := Attach(env, dev.id, st);
    assert dev.id in Ids(dev) && dev.id in st1.drv;
    if dev.id == d {
      var (st2, r) := TryDevice(env, dev.id, st1);
      assert r == 0 && d in st2.probed;
      if dev.child.Some? {
        WalkListAdvances(env, dev.child.value.devs, AddBus(env, dev.child.value.id, st2).0, 0);
      }
    } else {
      WalkListProbes(env, dev.child.value.devs, waits, AddBus(env, dev.child.value.id, st1).0, 0, d);
    }
  }

  lemma {:induction false} WalkListProbes(env: Drivers, devs: seq<Device>, waits: nat -> set<nat>, st: Flags, r: int,
                                          d: nat)
    requires OnlyWaitsOf(env, devs, waits) && ExposedIn(devs, d, st.probed) && waits(d) <= st.probed
    ensures d in WalkDevices(env, devs, st, r).0.probed
    decreases devs, 0
  {
    assert OnlyWaits(env, devs[0], waits) && OnlyWaitsOf(env, devs[1..], waits);
    WalkResult(env, devs[0], waits, st);
    WalkAdvances(env, devs[0], st);
    var (st1, s) := WalkDevice(env, devs[0], st);
    var r1 := if s == -EAGAIN then -EAGAIN else r;
    WalkListAdvances(env, devs[1..], st1, r1);
    if Exposed(devs[0], d, st.probed) {
      ExposedInside(devs[0], d, st.probed);
      WalkProbes(env, devs[0], waits, st, d);
    } else {
      ExposedMoreIn(devs[1..], d, st.probed, st1.probed);
      WalkListProbes(env, devs[1..], waits, st1, r1, d);
    }
  }

  lemma {:induction false} ExposedInside(dev: Device, d: nat, p: set<nat>)
    requires Exposed(dev, d, p)
    ensures d in Ids(dev)
    decreases dev, 1
  {
    if dev.id != d { ExposedInsideList(dev.child.value.devs, d, p); }
  }

  lemma {:induction false} ExposedInsideList(devs: seq<Device>, d: nat, p: set<nat>)
    requires ExposedIn(devs, d, p)
    ensures d in IdsOf(devs)
    decreases devs, 0
  {
    if Exposed(devs[0], d, p) { ExposedInside(devs[0], d, p); } else { ExposedInsideList(devs[1..], d, p); }
  }

  // ----- orderable dependencies -------------------------------------------------------------

  /** What a device needs is what its driver waits for and, except at the root, its parent device. */
  ghost predicate Needs(dev: Device, waits: nat -> set<nat>, needs: nat -> set<nat>, above: set<nat>)
    decreases dev, 1
  {
    && needs(dev.id) == waits(dev.id) + above
    && (dev.child.Some? ==> NeedsIn(dev.child.value.devs, waits, needs, {dev.id}))
  }

  ghost predicate NeedsIn(devs: seq<Device>, waits: nat -> set<nat>, needs: nat -> set<nat>, above: set<nat>)
    decreases devs, 0
  {
    devs == [] || (Needs(devs[0], waits, needs, above) && NeedsIn(devs[1..], waits, needs, above))
  }

  /** The needs can be ordered, and none lies outside the tree. */
  ghost predicate Orders(ids: set<nat>, needs: nat -> set<nat>, rank: map<nat, nat>) {
    && ids <= rank.Keys
    && (forall d, x :: d in ids && x in needs(d) ==> x in ids && rank[x] < rank[d])
  }

  lemma {:induction false} LeastIsExposed(ids: set<nat>, dev: Device, waits: nat -> set<nat>, needs: nat -> set<nat>,
                                          above: set<nat>, rank: map<nat, nat>, p: set<nat>, d: nat)
    requires Orders(ids, needs, rank) && Needs(dev, waits, needs, above) && d in Ids(dev) && Ids(dev) <= ids
    requires forall x :: x in ids && rank[x] < rank[d] ==> x in p
    ensures Exposed(dev, d, p) && (forall x :: x in above ==> x in p)
    decreases dev, 1
  {
    if dev.id != d { LeastIsExposedIn(ids, dev.child.value.devs, waits, needs, {dev.id}, rank, p, d); }
    assert dev.id == d || dev.id in p;
    forall x | x in above ensures x in p {
      assert x in needs(dev.id) && dev.id in Ids(dev);
      if dev.id != d { RankOfAncestor(ids, dev, waits, needs, above, rank, d); }
    }
  }

  lemma {:induction false} LeastIsExposedIn(ids: set<nat>, devs: seq<Device>, waits: nat -> set<nat>,
                                            needs: nat -> set<nat>, above: set<nat>, rank: map<nat, nat>,
                                            p: set<nat>, d: nat)
    requires Orders(ids, needs, rank) && NeedsIn(devs, waits, needs, above) && d in IdsOf(devs) && IdsOf(devs) <= ids
    requires forall x :: x in ids && rank[x] < rank[d] ==> x in p
    ensures ExposedIn(devs, d, p) && (forall x :: x in above ==> x in p)
    decreases devs, 0
  {
    if d in Ids(devs[0]) {
      LeastIsExposed(ids, devs[0], waits, needs, above, rank, p, d);
    } else {
      LeastIsExposedIn(ids, devs[1..], waits, needs, above, rank, p, d);
    }
  }

  lemma {:induction false} RankOfAncestor(ids: set<nat>, dev: Device, waits: nat -> set<nat>, needs: nat -> set<nat>,
                                          above: set<nat>, rank: map<nat, nat>, d: nat)
    requires Orders(ids, needs, rank) && Needs(dev, waits, needs, above) && d in Ids(dev) && Ids(dev) <= ids
    ensures rank[dev.id] <= rank[d]
    decreases dev, 1
  {
    assert dev.id in Ids(dev);
    if dev.id != d { RankOfAncestorIn(ids, dev.child.value.devs, waits, needs, dev.id, rank, d); }
  }

  lemma {:induction false} RankOfAncestorIn(ids: set<nat>, devs: seq<Device>, waits: nat -> set<nat>,
                                            needs: nat -> set<nat>, parent: nat, rank: map<nat, nat>, d: nat)
    requires Orders(ids, needs, rank) && NeedsIn(devs, waits, needs, {parent}) && d in IdsOf(devs)
             && IdsOf(devs) <= ids && parent in ids
    ensures rank[parent] < rank[d]
    decreases devs, 0
  {
    if d in Ids(devs[0]) {
      RankOfAncestor(ids, devs[0], waits, needs, {parent}, rank, d);
      assert parent in needs(devs[0].id) && devs[0].id in Ids(devs[0]);
    } else {
      RankOfAncestorIn(ids, devs[1..], waits, needs, parent, rank, d);
    }
  }

  lemma {:induction false} LeastRank(s: set<nat>, rank: map<nat, nat>) returns (d: nat)
    requires s != {} && forall x :: x in s ==> x in rank
    ensures d in s && forall x :: x in s ==> rank[d] <= rank[x]
  {
    d :| d in s;
    if s != {d} {
      var e := LeastRank(s - {d}, rank);
      if rank[e] < rank[d] { d := e; }
    }
  }

  lemma {:induction false} NeedsCover(dev: Device, waits: nat -> set<nat>, needs: nat -> set<nat>, above: set<nat>,
                                      d: nat)
    requires Needs(dev, waits, needs, above) && d in Ids(dev)
    ensures waits(d) <= needs(d)
    decreases dev, 1
  {
    if dev.id != d { NeedsCoverIn(dev.child.value.devs, waits, needs, {dev.id}, d); }
  }

  lemma {:induction false} NeedsCoverIn(devs: seq<Device>, waits: nat -> set<nat>, needs: nat -> set<nat>,
                                        above: set<nat>, d: nat)
    requires NeedsIn(devs, waits, needs, above) && d in IdsOf(devs)
    ensures waits(d) <= needs(d)
    decreases devs, 0
  {
    if d in Ids(devs[0]) {
      NeedsCover(devs[0], waits, needs, above, d);
    } else {
      NeedsCoverIn(devs[1..], waits, needs, above, d);
    }
  }

  /** A pass that starts with some device unprobed probes at least one more. */
  lemma PassProgress(env: Drivers, dev: Device, waits: nat -> set<nat>, needs: nat -> set<nat>, rank: map<nat, nat>,
                     st: Flags)
    requires OnlyWaits(env, dev, waits) && Needs(dev, waits, needs, {}) && Orders(Ids(dev), needs, rank)
    requires !(Ids(dev) <= st.probed)
    ensures var t := WalkDevice(env, dev, st).0; st.probed <= t.probed && Ids(dev) - t.probed < Ids(dev) - st.probed
  {
    var left := Ids(dev) - st.probed;
    assert left != {};
    var d := LeastRank(left, rank);
    LeastIsExposed(Ids(dev), dev, waits, needs, {}, rank, st.probed, d);
    NeedsCover(dev, waits, needs, {}, d);
    WalkProbes(env, dev, waits, st, d);
    WalkAdvances(env, dev, st);
    var t := WalkDevice(env, dev, st).0;
    assert d in left && d !in Ids(dev) - t.probed;
  }

  // ----- the loop ---------------------------------------------------------------------------

  /** The flags after `k` passes from boot, and the result of the pass that follows. */
  function Passes(env: Drivers, dev: Device, k: nat): Flags {
    if k == 0 then NOTHING else WalkDevice(env, dev, Passes(env, dev, k - 1)).0
  }

  function PassResult(env: Drivers, dev: Device, k: nat): int {
    WalkDevice(env, dev, Passes(env, dev, k)).1
  }

  /** One more pass: it either finds everything probed and says so, or shrinks what is left. */
  lemma OnePass(env: Drivers, dev: Device, waits: nat -> set<nat>, needs: nat -> set<nat>, rank: map<nat, nat>,
                st: Flags)
    requires OnlyWaits(env, dev, waits) && Needs(dev, waits, needs, {}) && Orders(Ids(dev), needs, rank)
             && LogMatches(st)
    ensures var (t, r) := WalkDevice(env, dev, st);
            && LogMatches(t) && (r == 0 || r == -EAGAIN) && (r == 0 ==> Ids(dev) <= t.probed)
            && (r == -EAGAIN ==> |Ids(dev) - t.probed| < |Ids(dev) - st.probed|)
  {
    WalkAdvances(env, dev, st);
    WalkResult(env, dev, waits, st);
    if !(Ids(dev) <= st.probed) {
      PassProgress(env, dev, waits, needs, rank, st);
      Shrinks(Ids(dev) - WalkDevice(env, dev, st).0.probed, Ids(dev) - st.probed);
    }
  }

  lemma Shrinks(a: set<nat>, b: set<nat>)
    requires a < b
    ensures |a| < |b|
  {
    assert b == a + (b - a) && b - a != {};
  }

  /** What the loop knows after `k` passes, the last of which returned `r`. */
  ghost predicate LoopState(env: Drivers, dev: Device, st: Flags, k: nat, r: int) {
    && st == Passes(env, dev, k) && LogMatches(st)
    && (r == -EAGAIN ==> k + |Ids(dev) - st.probed| <= |Ids(dev)|)
    && (r == 0 ==> 1 <= k <= |Ids(dev)| + 1 && PassResult(env, dev, k - 1) == 0 && Ids(dev) <= st.probed)
    && (r == 0 || r == -EAGAIN)
  }

  lemma LoopStep(env: Drivers, dev: Device, waits: nat -> set<nat>, needs: nat -> set<nat>, rank: map<nat, nat>,
                 st: Flags, k: nat)
    requires OnlyWaits(env, dev, waits) && Needs(dev, waits, needs, {}) && Orders(Ids(dev), needs, rank)
             && LoopState(env, dev, st, k, -EAGAIN)
    ensures var (t, r) := WalkDevice(env, dev, st);
            LoopState(env, dev, t, k + 1, r) && (r == -EAGAIN ==> |Ids(dev) - t.probed| < |Ids(dev) - st.probed|)
  {
    OnePass(env, dev, waits, needs, rank, st);
    assert Passes(env, dev, k + 1) == WalkDevice(env, dev, Passes(env, dev, k)).0;
  }

  lemma LoopStart(env: Drivers, dev: Device)
    ensures LoopState(env, dev, NOTHING, 0, -EAGAIN)
  {
    assert Ids(dev) - NOTHING.probed == Ids(dev);
  }

  /** The retry loop, for drivers that only wait on an orderable set of devices. */
  method ProbeAll(table: DeviceTable, env: Drivers, dev: Device,
                  ghost waits: nat -> set<nat>, ghost needs: nat -> set<nat>, ghost rank: map<nat, nat>)
    returns (res: int, passes: nat)
    requires table.st == NOTHING
    requires OnlyWaits(env, dev, waits) && Needs(dev, waits, needs, {}) && Orders(Ids(dev), needs, rank)
    modifies table
    ensures res == 0 && LoopState(env, dev, table.st, passes, 0)
  {
    res, passes := 0, 0;
    var r := -EAGAIN;
    LoopStart(env, dev);
    while r == -EAGAIN
      invariant LoopState(env, dev, table.st, passes, r)
      decreases r == -EAGAIN, |Ids(dev) - table.st.probed|
    {
      LoopStep(env, dev, waits, needs, rank, table.st, passes);
      r := table.DeviceProbe(env, dev);
      passes := passes + 1;
      if IsError(r) {
        res := r;
        break;
      }
    }
  }

  // ----- the loop ends exactly when the needs can be ordered --------------------------------

  /** Every logged device comes after everything it needs. */
  ghost predicate LogOrdered(st: Flags, needs: nat -> set<nat>) {
    LogMatches(st) && forall k, x :: 0 <= k < |st.log| && x in needs(st.log[k]) ==> x in st.log[..k]
  }

  lemma {:induction false} WalkOrdered(env: Drivers, dev: Device, waits: nat -> set<nat>, needs: nat -> set<nat>,
                                       above: set<nat>, st: Flags)
    requires OnlyWaits(env, dev, waits) && Needs(dev, waits, needs, above) && above <= st.probed
             && LogOrdered(st, needs)
    ensures LogOrdered(WalkDevice(env, dev, st).0, needs)
    decreases dev, 1
  {
    hide LogOrdered, WalkDevices, TryDevice;
    var st1 := Attach(env, dev.id, st);
    assert dev.id in Ids(dev);
    var (st2, r) := TryDevice(env, dev.id, st1);
    SameLog(st, st1, needs);
    AddOrdered(env, dev.id, waits, needs, above, st1);
    if r == 0 && dev.child.Some? {
      var (st3, q) := AddBus(env, dev.child.value.id, st2);
      TryProbes(env, dev.id, st1);
      SameLog(st2, st3, needs);
      WalkListOrdered(env, dev.child.value.devs, waits, needs, {dev.id}, st3, 0);
    }
  }

  lemma TryProbes(env: Drivers, d: nat, st: Flags)
    ensures TryDevice(env, d, st).1 == 0 ==> d in TryDevice(env, d, st).0.probed
  {}

  lemma SameLog(st: Flags, t: Flags, needs: nat -> set<nat>)
    requires LogOrdered(st, needs) && t.log == st.log && t.probed == st.probed
    ensures LogOrdered(t, needs)
  {}

  lemma AddOrdered(env: Drivers, d: nat, waits: nat -> set<nat>, needs: nat -> set<nat>, above: set<nat>, st: Flags)
    requires env.add(d, st.probed) == if waits(d) <= st.probed then 0 else -EAGAIN
    requires needs(d) == waits(d) + above && above <= st.probed && LogOrdered(st, needs)
    ensures LogOrdered(TryDevice(env, d, st).0, needs)
  {
    var t := TryDevice(env, d, st).0;
    if t != st {
      AddAdvances(env, d, st);
      assert t.log == st.log + [d];
      forall k, x | 0 <= k < |t.log| && x in needs(t.log[k]) ensures x in t.log[..k] {
        assert t.log[..k] == st.log[..k];
        if k == |st.log| { assert x in st.probed && st.log[..k] == st.log; }
      }
    }
  }

  lemma {:induction false} WalkListOrdered(env: Drivers, devs: seq<Device>, waits: nat -> set<nat>,
                                           needs: nat -> set<nat>, above: set<nat>, st: Flags, r: int)
    requires OnlyWaitsOf(env, devs, waits) && NeedsIn(devs, waits, needs, above) && above <= st.probed
             && LogOrdered(st, needs)
    ensures LogOrdered(WalkDevices(env, devs, st, r).0, needs)
    decreases devs, 0
  {
    if devs != [] {
      assert OnlyWaits(env, devs[0], waits) && OnlyWaitsOf(env, devs[1..], waits);
      WalkOrdered(env, devs[0], waits, needs, above, st);
      WalkAdvances(env, devs[0], st);
      var (st1, s) := WalkDevice(env, devs[0], st);
      if !IsError(s) {
        WalkListOrdered(env, devs[1..], waits, needs, above, st1, if s == -EAGAIN then -EAGAIN else r);
      }
    }
  }

  lemma {:induction false} PassesOrdered(env: Drivers, dev: Device, waits: nat -> set<nat>, needs: nat -> set<nat>,
                                         k: nat)
    requires OnlyWaits(env, dev, waits) && Needs(dev, waits, needs, {})
    ensures LogOrdered(Passes(env, dev, k), needs)
  {
    if k > 0 {
      PassesOrdered(env, dev, waits, needs, k - 1);
      WalkOrdered(env, dev, waits, needs, {}, Passes(env, dev, k - 1));
    }
  }

  function IndexOf(log: seq<nat>, d: nat): (k: nat)
    requires d in log
    ensures k < |log| && log[k] == d && d !in log[..k]
  {
    if log[0] == d then 0 else 1 + IndexOf(log[1..], d)
  }

  /** When a pass returns 0, the order of the successful adds orders the needs. */
  lemma LogRanks(env: Drivers, dev: Device, waits: nat -> set<nat>, needs: nat -> set<nat>, k: nat)
    returns (rank: map<nat, nat>)
    requires OnlyWaits(env, dev, waits) && Needs(dev, waits, needs, {}) && PassResult(env, dev, k) == 0
    requires Passes(env, dev, k + 1).probed <= Ids(dev)
    ensures Orders(Ids(dev), needs, rank)
  {
    hide WalkDevice, OnlyWaits, Needs, LogOrdered, Orders;
    var st := Passes(env, dev, k + 1);
    PassesOrdered(env, dev, waits, needs, k + 1);
    WalkResult(env, dev, waits, Passes(env, dev, k));
    rank := RanksOf(st, Ids(dev), needs);
  }

  /** The places in the log order the devices. */
  lemma RanksOf(st: Flags, ids: set<nat>, needs: nat -> set<nat>) returns (rank: map<nat, nat>)
    requires LogOrdered(st, needs) && st.probed == ids
    ensures Orders(ids, needs, rank)
  {
    rank := map d | d in ids :: IndexOf(st.log, d);
    forall d, x | d in ids && x in needs(d) ensures x in ids && rank[x] < rank[d] {
      assert st.log[rank[d]] == d && x in st.log[..rank[d]];
      assert x in st.log;
      var j :| 0 <= j < rank[d] && st.log[j] == x;
      assert IndexOf(st.log, x) == j;
    }
  }

  lemma {:induction false} WalkStaysInside(env: Drivers, dev: Device, st: Flags)
    ensures WalkDevice(env, dev, st).0.probed <= st.probed + Ids(dev)
    decreases dev, 1
  {
    var st1 := Attach(env, dev.id, st);
    if dev.id in st1.drv {
      var (st2, r) := TryDevice(env, dev.id, st1);
      if r == 0 && dev.child.Some? {
        var (st3, q) := AddBus(env, dev.child.value.id, st2);
        if q == 0 { WalkListStaysInside(env, dev.child.value.devs, st3, 0); }
      }
    }
  }

  lemma {:induction false} WalkListStaysInside(env: Drivers, devs: seq<Device>, st: Flags, r: int)
    ensures WalkDevices(env, devs, st, r).0.probed <= st.probed + IdsOf(devs)
    decreases devs, 0
  {
    if devs != [] {
      WalkStaysInside(env, devs[0], st);
      var (st1, s) := WalkDevice(env, devs[0], st);
      if !IsError(s) { WalkListStaysInside(env, devs[1..], st1, if s == -EAGAIN then -EAGAIN else r); }
    }
  }

  lemma {:induction false} PassesInside(env: Drivers, dev: Device, k: nat)
    ensures Passes(env, dev, k).probed <= Ids(dev)
  {
    if k > 0 {
      PassesInside(env, dev, k - 1);
      WalkStaysInside(env, dev, Passes(env, dev, k - 1));
    }
  }

  lemma {:induction false} EndsWithin(env: Drivers, dev: Device, waits: nat -> set<nat>, needs: nat -> set<nat>,
                                      rank: map<nat, nat>, st: Flags, k: nat)
    returns (n: nat)
    requires OnlyWaits(env, dev, waits) && Needs(dev, waits, needs, {}) && Orders(Ids(dev), needs, rank)
    requires LoopState(env, dev, st, k, -EAGAIN)
    ensures n <= |Ids(dev)| && PassResult(env, dev, n) == 0
    decreases |Ids(dev) - st.probed|
  {
    hide OnlyWaits, Needs, Orders, WalkDevice, LogMatches, Passes;
    LoopStep(env, dev, waits, needs, rank, st, k);
    var (t, r) := WalkDevice(env, dev, st);
    if r == 0 {
      n := k;
    } else {
      n := EndsWithin(env, dev, waits, needs, rank, t, k + 1);
    }
  }

  /** A walk returns 0 or -EAGAIN, and 0 only if every device has a driver. */
  lemma {:induction false} WalkDriven(env: Drivers, dev: Device, waits: nat -> set<nat>, st: Flags)
    requires Patient(env, Ids(dev), waits) && st.drv <= env.devices
    ensures var (t, r) := WalkDevice(env, dev, st);
            t.drv <= env.devices && (r == 0 || r == -EAGAIN) && (r == 0 ==> Ids(dev) <= env.devices)
    decreases dev, 1
  {
    var st1 := Attach(env, dev.id, st);
    assert dev.id in Ids(dev);
    if dev.id in st1.drv {
      var (st2, r) := TryDevice(env, dev.id, st1);
      if r == 0 && dev.child.Some? {
        var (st3, q) := AddBus(env, dev.child.value.id, st2);
        assert q == 0 && st3.drv == st2.drv;
        WalkListDriven(env, dev.child.value.devs, waits, st3, 0);
      }
    }
  }

  lemma {:induction false} WalkListDriven(env: Drivers, devs: seq<Device>, waits: nat -> set<nat>, st: Flags, r: int)
    requires Patient(env, IdsOf(devs), waits) && st.drv <= env.devices && (r == 0 || r == -EAGAIN)
    ensures var (t, q) := WalkDevices(env, devs, st, r);
            && t.drv <= env.devices && (q == 0 || q == -EAGAIN) && (q == 0 ==> IdsOf(devs) <= env.devices)
            && (r == -EAGAIN ==> q == -EAGAIN)
    decreases devs, 0
  {
    if devs != [] {
      WalkDriven(env, devs[0], waits, st);
      var (st1, s) := WalkDevice(env, devs[0], st);
      WalkListDriven(env, devs[1..], waits, st1, if s == -EAGAIN then -EAGAIN else r);
    }
  }

  lemma {:induction false} PassesDriven(env: Drivers, dev: Device, waits: nat -> set<nat>, k: nat)
    requires Patient(env, Ids(dev), waits)
    ensures Passes(env, dev, k).drv <= env.devices
    ensures PassResult(env, dev, k) == 0 || PassResult(env, dev, k) == -EAGAIN
    ensures PassResult(env, dev, k) == 0 ==> Ids(dev) <= env.devices
  {
    hide WalkDevice;
    if k > 0 {
      PassesDriven(env, dev, waits, k - 1);
      WalkDriven(env, dev, waits, Passes(env, dev, k - 1));
    }
    WalkDriven(env, dev, waits, Passes(env, dev, k));
  }

  /**
   The retry loop ends if and only if every device has a driver and the needs can be ordered;
   otherwise it retries for ever.
   */
  lemma LoopEndsIff(env: Drivers, dev: Device, waits: nat -> set<nat>, needs: nat -> set<nat>)
    requires Patient(env, Ids(dev), waits) && Needs(dev, waits, needs, {})
    ensures (exists k: nat :: PassResult(env, dev, k) != -EAGAIN)
            <==> Ids(dev) <= env.devices && exists rank :: Orders(Ids(dev), needs, rank)
  {
    hide PassResult, Passes, Needs, Patient, Orders, Ids;
    if k: nat :| PassResult(env, dev, k) != -EAGAIN {
      PassesDriven(env, dev, waits, k);
      PassesInside(env, dev, k + 1);
      var rank := LogRanks(env, dev, waits, needs, k);
      assert Orders(Ids(dev), needs, rank);
    }
    if Ids(dev) <= env.devices {
      if rank :| Orders(Ids(dev), needs, rank) {
        LoopStart(env, dev);
        var n := EndsWithin(env, dev, waits, needs, rank, NOTHING, 0);
        assert PassResult(env, dev, n) == 0;
      }
    }
  }

  // ----- the two ways to retry for ever -------------------------------------------------------

  /** A root with two devices on its bus. */
  const PAIR := Device(0, Some(Bus(0, [Device(1, None), Device(2, None)])))

  function Mutual(d: nat): set<nat> {
    if d == 1 then {2} else if d == 2 then {1} else {}
  }

  function MutualNeeds(d: nat): set<nat> {
    if d == 1 || d == 2 then Mutual(d) + {0} else {}
  }

  function MutualAdd(d: nat, probed: set<nat>): int {
    if Mutual(d) <= probed then 0 else -EAGAIN
  }

  lemma PairIds()
    ensures Ids(PAIR) == {0, 1, 2}
  {
    var devs, last := [Device(1, None), Device(2, None)], [Device(2, None)];
    assert devs[1..] == last && last[1..] == [];
    assert IdsOf(last) == Ids(last[0]) + IdsOf(last[1..]) == {2};
    assert IdsOf(devs) == Ids(devs[0]) + IdsOf(devs[1..]) == {1, 2};
  }

  lemma PairNeeds()
    ensures Needs(PAIR, Mutual, MutualNeeds, {})
  {
    var devs, last := [Device(1, None), Device(2, None)], [Device(2, None)];
    assert devs[1..] == last && last[1..] == [];
    assert Needs(last[0], Mutual, MutualNeeds, {0}) && NeedsIn(last, Mutual, MutualNeeds, {0});
    assert Needs(devs[0], Mutual, MutualNeeds, {0}) && NeedsIn(devs, Mutual, MutualNeeds, {0});
  }

  /** Two devices that wait for each other: both have drivers, and the loop never ends. */
  lemma MutualWait()
    ensures var env := Drivers({0, 1, 2}, {}, MutualAdd, (b, p) => 0);
            OnlyWaits(env, PAIR, Mutual) && forall k: nat :: PassResult(env, PAIR, k) == -EAGAIN
  {
    var env := Drivers({0, 1, 2}, {}, MutualAdd, (b, p) => 0);
    PairIds();
    PairNeeds();
    LoopEndsIff(env, PAIR, Mutual, MutualNeeds);
    assert 2 in MutualNeeds(1) && 1 in MutualNeeds(2);
  }

  /** A single device without a driver: the loop never ends. */
  lemma NoDriver()
    ensures var env := Drivers({}, {}, (d, p) => 0, (b, p) => 0);
            forall k: nat :: PassResult(env, Device(0, None), k) == -EAGAIN
  {
    var env := Drivers({}, {}, (d, p) => 0, (b, p) => 0);
    var nothing := (d: nat) => {};
    LoopEndsIff(env, Device(0, None), nothing, nothing);
  }
}
