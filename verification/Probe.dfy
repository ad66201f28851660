/** Deferred device probing: the mutually recursive walk over devices and buses. */
module Probe {

  import opened Common

  /** The device tree; a device has at most one child bus, and a bus lists its devices in order. */
  datatype Device = Device(id: nat, child: Option<Bus>)
  datatype Bus = Bus(id: nat, devs: seq<Device>)

  /**
   What the drivers do.  `add(d, probed)` is the result of the driver's add operation for device
   `d` when exactly the devices in `probed` can be looked up; a driver without an add operation
   is one whose result is always 0.
   */
  datatype Drivers = Drivers(devices: set<nat>, buses: set<nat>, add: (nat, set<nat>) -> int,
                             busAdd: (nat, set<nat>) -> int)

  /** The flags kept in the device and bus structures; `log` lists the successful adds in order. */
  datatype Flags = Flags(
    drv: set<nat>, probed: set<nat>, failed: set<nat>,
    busDrv: set<nat>, busProbed: set<nat>, busFailed: set<nat>, log: seq<nat>)

  const NOTHING := Flags({}, {}, {}, {}, {}, {}, [])

  predicate IsError(r: int) {
    r != 0 && r != -EAGAIN
  }

  // ----- the walk as a function of the flags ------------------------------------------------

  /** Try one device that has a driver and is not probed yet. */
  function AddDevice(env: Drivers, d: nat, st: Flags): (Flags, int) {
    var r := env.add(d, st.probed);
    if r == 0 then (st.(probed := st.probed + {d}, log := st.log + [d]), 0)
    else if r == -EAGAIN then (st, r)
    else (st.(failed := st.failed + {d}), r)
  }

  /** A device without a driver is given the matching one, if there is one. */
  function Attach(env: Drivers, d: nat, st: Flags): Flags {
    if d in st.drv || d !in env.devices then st else st.(drv := st.drv + {d})
  }

  function TryDevice(env: Drivers, d: nat, st: Flags): (Flags, int) {
    if d in st.probed then (st, 0) else AddDevice(env, d, st)
  }

  function WalkDevice(env: Drivers, dev: Device, st: Flags): (Flags, int)
    decreases dev, 1
  {
    var st1 := Attach(env, dev.id, st);
    if dev.id !in st1.drv then (st1, -EAGAIN)
    else
      var (st2, r) := TryDevice(env, dev.id, st1);
      if r != 0 then (st2, r)
      else if dev.child.Some? then WalkBus(env, dev.child.value, st2)
      else (st2, 0)
  }

  function AddBus(env: Drivers, b: nat, st: Flags): (Flags, int) {
    var st1 := if b in st.busDrv || b !in env.buses then st else st.(busDrv := st.busDrv + {b});
    if b !in st1.busDrv || b in st1.busProbed then (st1, 0)
    else
      var r := env.busAdd(b, st1.probed);
      if r == 0 then (st1.(busProbed := st1.busProbed + {b}), 0)
      else if r == -EAGAIN then (st1, r)
      else (st1.(busFailed := st1.busFailed + {b}), r)
  }

  function WalkBus(env: Drivers, bus: Bus, st: Flags): (Flags, int)
    decreases bus, 1
  {
    var (st1, r) := AddBus(env, bus.id, st);
    if r != 0 then (st1, r) else WalkDevices(env, bus.devs, st1, 0)
  }

  /** The rest of a bus's device list; `r` is the result so far. */
  function WalkDevices(env: Drivers, devs: seq<Device>, st: Flags, r: int): (Flags, int)
    decreases devs, 0
  {
    if devs == [] then (st, r)
    else
      var (st1, s) := WalkDevice(env, devs[0], st);
      if IsError(s) then (st1, s)
      else WalkDevices(env, devs[1..], st1, if s == -EAGAIN then -EAGAIN else r)
  }

  // ----- the code ---------------------------------------------------------------------------

  /** The mutable flags of every device and bus. */
  class DeviceTable {
    var st: Flags

    constructor ()
      ensures st == NOTHING
    {
      st := NOTHING;
    }

    method DeviceProbe(env: Drivers, dev: Device) returns (r: int)
      modifies this
      ensures (st, r) == WalkDevice(env, dev, old(st))
      decreases dev, 1
    {
      r := 0;
      if dev.id !in st.drv && dev.id in env.devices {
        st := st.(drv := st.drv + {dev.id});
      }
      if dev.id !in st.drv {
        return -EAGAIN;
      }
      if dev.id !in st.probed {
        r := env.add(dev.id, st.probed);
        if r == 0 {
          st := st.(probed := st.probed + {dev.id}, log := st.log + [dev.id]);
        } else if r != -EAGAIN {
          st := st.(failed := st.failed + {dev.id});
        }
        if r != 0 {
          return;
        }
      }
      if dev.id in st.probed && dev.child.Some? {
        r := BusProbe(env, dev.child.value);
      }
    }

    /** The bus's own driver. */
    method AttachBus(env: Drivers, b: nat) returns (r: int)
      modifies this
      ensures (st, r) == AddBus(env, b, old(st))
    {
      r := 0;
      if b !in st.busDrv && b in env.buses {
        st := st.(busDrv := st.busDrv + {b});
      }
      if b in st.busDrv && b !in st.busProbed {
        r := env.busAdd(b, st.probed);
        if r == 0 {
          st := st.(busProbed := st.busProbed + {b});
        } else if r != -EAGAIN {
          st := st.(busFailed := st.busFailed + {b});
        }
      }
    }

    method BusProbe(env: Drivers, bus: Bus) returns (r: int)
      modifies this
      ensures (st, r) == WalkBus(env, bus, old(st))
      decreases bus, 1
    {
      hide AddBus, WalkDevice;
      r := AttachBus(env, bus.id);
      if r != 0 {
        return;
      }
      ghost var goal := WalkDevices(env, bus.devs, st, 0);
      assert goal == WalkBus(env, bus, old(st));
      var i := 0;
      while i < |bus.devs|
        invariant 0 <= i <= |bus.devs| && WalkDevices(env, bus.devs[i..], st, r) == goal
        invariant i == |bus.devs| ==> (st, r) == goal
      {
        assert bus.devs[i..][0] == bus.devs[i] && bus.devs[i..][1..] == bus.devs[i + 1..];
        var s := DeviceProbe(env, bus.devs[i]);
        if IsError(s) {
          return s;
        } else if s == -EAGAIN {
          r := -EAGAIN;
        }
        i := i + 1;
      }
    }
  }
}
