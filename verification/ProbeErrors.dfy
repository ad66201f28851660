/**
 Drivers that fail: the walk stops at the first device whose add returns an error, marks it, returns that
 error and tries nothing behind it.
 */
module ProbeErrors {

  import opened Common
  import opened Probe
  import opened ProbeLoop

  /** The state in which a bus's device list is walked at place `i`. */
  function At(env: Drivers, devs: seq<Device>, st: Flags, r: int, i: nat): Flags
    requires i <= |devs|
  {
    WalkDevices(env, devs[..i], st, r).0
  }

  /** Place `i` is the first of the list whose walk returns an error. */
  predicate FirstError(env: Drivers, devs: seq<Device>, st: Flags, r: int, i: nat) {
    && i < |devs| && !IsError(WalkDevices(env, devs[..i], st, r).1)
    && IsError(WalkDevice(env, devs[i], At(env, devs, st, r, i)).1)
  }

  /** The walk of the list is then the walk up to that place: what stands behind it is not tried. */
  lemma {:induction false} ErrorStops(env: Drivers, devs: seq<Device>, st: Flags, r: int, i: nat)
    requires !IsError(r) && FirstError(env, devs, st, r, i)
    ensures WalkDevices(env, devs, st, r) == WalkDevice(env, devs[i], At(env, devs, st, r, i))
    decreases |devs|
  {
    hide WalkDevice;
    if i == 0 {
      assert devs[..0] == [];
    } else {
      var (st1, s) := WalkDevice(env, devs[0], st);
      var r1 := if s == -EAGAIN then -EAGAIN else r;
      assert devs[..i][0] == devs[0] && devs[..i][1..] == devs[1..][..i - 1];
      ErrorStops(env, devs[1..], st1, r1, i - 1);
    }
  }

  /** An error of the walk comes from such a place. */
  lemma {:induction false} ErrorHasPlace(env: Drivers, devs: seq<Device>, st: Flags, r: int) returns (i: nat)
    requires !IsError(r) && IsError(WalkDevices(env, devs, st, r).1)
    ensures FirstError(env, devs, st, r, i)
    decreases |devs|
  {
    hide WalkDevice;
    var (st1, s) := WalkDevice(env, devs[0], st);
    if IsError(s) {
      i := 0;
      assert devs[..0] == [];
    } else {
      var r1 := if s == -EAGAIN then -EAGAIN else r;
      var k := ErrorHasPlace(env, devs[1..], st1, r1);
      i := k + 1;
      assert devs[..i][0] == devs[0] && devs[..i][1..] == devs[1..][..k];
    }
  }

  /** A device whose driver fails is marked, its error returned, and its child bus not touched. */
  lemma DeviceFails(env: Drivers, dev: Device, st: Flags)
    requires (dev.id in st.drv || dev.id in env.devices) && dev.id !in st.probed
    requires IsError(env.add(dev.id, st.probed))
    ensures var (t, r) := WalkDevice(env, dev, st);
            && r == env.add(dev.id, st.probed)
            && t == st.(drv := st.drv + {dev.id}, failed := st.failed + {dev.id})
  {
    assert dev.id in st.drv ==> st.drv + {dev.id} == st.drv;
  }

  /**
   A bus whose own driver does not answer 0 returns that answer and tries none of its devices, and is marked
   for an error; a bus without a driver, or whose driver has answered 0, has all of its list walked.
   */
  lemma BusAnswers(env: Drivers, bus: Bus, st: Flags)
    ensures var b := bus.id;
            var driven := b in st.busDrv || b in env.buses;
            var st1 := if driven then st.(busDrv := st.busDrv + {b}) else st;
            var r := env.busAdd(b, st.probed);
            WalkBus(env, bus, st)
            == if !driven || b in st.busProbed then WalkDevices(env, bus.devs, st1, 0)
               else if r == 0 then WalkDevices(env, bus.devs, st1.(busProbed := st1.busProbed + {b}), 0)
               else if r == -11 then (st1, -11)
               else (st1.(busFailed := st1.busFailed + {b}), r)
  {
    hide WalkDevices;
    assert bus.id in st.busDrv ==> st.busDrv + {bus.id} == st.busDrv;
  }

  /** The error of a walk is what some driver of the tree answered, and its device or bus is marked failed. */
  ghost predicate Blamed(env: Drivers, ids: set<nat>, t: Flags, r: int) {
    || (exists d, p :: d in ids && d in t.failed && env.add(d, p) == r)
    || (exists b, p :: b in t.busFailed && env.busAdd(b, p) == r)
  }

  lemma {:induction false} ErrorIsBlamed(env: Drivers, dev: Device, st: Flags)
    requires IsError(WalkDevice(env, dev, st).1)
    ensures Blamed(env, Ids(dev), WalkDevice(env, dev, st).0, WalkDevice(env, dev, st).1)
    decreases dev, 1
  {
    var st1 := Attach(env, dev.id, st);
    var (st2, r) := TryDevice(env, dev.id, st1);
    assert dev.id in Ids(dev);
    if r != 0 {
      assert env.add(dev.id, st1.probed) == r && dev.id in st2.failed;
    } else {
      var bus := dev.child.value;
      var (st3, q) := AddBus(env, bus.id, st2);
      assert WalkDevice(env, dev, st) == WalkBus(env, bus, st2);
      assert WalkBus(env, bus, st2) == if q != 0 then (st3, q) else WalkDevices(env, bus.devs, st3, 0);
      if q != 0 {
        assert env.busAdd(bus.id, st2.probed) == q && bus.id in st3.busFailed;
      } else {
        ListErrorIsBlamed(env, bus.devs, st3, 0);
      }
    }
  }

  lemma {:induction false} ListErrorIsBlamed(env: Drivers, devs: seq<Device>, st: Flags, r: int)
    requires !IsError(r) && IsError(WalkDevices(env, devs, st, r).1)
    ensures Blamed(env, IdsOf(devs), WalkDevices(env, devs, st, r).0, WalkDevices(env, devs, st, r).1)
    decreases devs, 0
  {
    var (st1, s) := WalkDevice(env, devs[0], st);
    if IsError(s) {
      ErrorIsBlamed(env, devs[0], st);
    } else {
      ListErrorIsBlamed(env, devs[1..], st1, if s == -EAGAIN then -EAGAIN else r);
    }
  }

  /** A list without an error is walked to its end, and asks for another pass exactly if one of its devices does. */
  lemma {:induction false} NoErrorResult(env: Drivers, devs: seq<Device>, st: Flags, r: int)
    requires (r == 0 || r == -EAGAIN) && !IsError(WalkDevices(env, devs, st, r).1)
    ensures WalkDevices(env, devs, st, r).1 == -EAGAIN
            <==> r == -EAGAIN || exists i :: 0 <= i < |devs| && Waits(env, devs, st, r, i)
    decreases |devs|
  {
    hide WalkDevice;
    if devs != [] {
      var (st1, s) := WalkDevice(env, devs[0], st);
      var r1 := if s == -EAGAIN then -EAGAIN else r;
      NoErrorResult(env, devs[1..], st1, r1);
      assert devs[..0] == [];
      forall i | 1 <= i < |devs|
        ensures Waits(env, devs, st, r, i) == Waits(env, devs[1..], st1, r1, i - 1)
      {
        assert devs[..i][0] == devs[0] && devs[..i][1..] == devs[1..][..i - 1];
      }
      assert Waits(env, devs, st, r, 0) == (s == -EAGAIN);
      if i :| 0 <= i < |devs[1..]| && Waits(env, devs[1..], st1, r1, i) {
        assert Waits(env, devs, st, r, i + 1);
      }
    }
  }

  predicate Waits(env: Drivers, devs: seq<Device>, st: Flags, r: int, i: int) {
    0 <= i < |devs| && WalkDevice(env, devs[i], At(env, devs, st, r, i)).1 == -EAGAIN
  }
}
