/**
 * The UBI uclass (drivers/mtd/ubi/ubi-uclass.c): one driver-model device per
 * attached UBI device, named after it, created on demand by `ubi_get`,
 * removed by `ubi_put`, whose unbind hook drops the reference it holds.
 *
 * The flash layer's UBI devices and their reference counts are the map
 * `refs` (`ubi_get_device` succeeds exactly for a number in it and adds one,
 * `ubi_put_device` takes one away).  The driver-model devices of the uclass
 * are the map `devices`, keyed by UBI number: a UBI device's name is "ubi"
 * followed by its number, so looking one up by name is looking up its number.
 * What `device_bind_driver` returns is a parameter.
 */
module UbiUclass {
  import opened Wrappers

  const ENODEV: int := 19

  /** A device of the UBI uclass; `priv` is the UBI device it holds a reference to, or null. */
  datatype UbiDevice = UbiDevice(priv: Option<int>)

  class UbiRegistry {
    /** Attached UBI devices and their reference counts. */
    var refs: map<int, nat>
    /** Bound devices of the UBI uclass, by UBI number. */
    var devices: map<int, UbiDevice>
    /** References held outside this file; no operation here touches them. */
    ghost var others: map<int, nat>

    /** 1 when the uclass device for UBI device n holds a reference to it. */
    ghost function Held(n: int): nat
      reads this
    {
      if n in devices && devices[n].priv == Some(n) then 1 else 0
    }

    /**
     * Every reference count is the references held elsewhere plus the one
     * held by the uclass device, if it holds one: no reference is leaked and
     * none is released twice.
     */
    ghost predicate Valid()
      reads this
    {
      && refs.Keys == others.Keys
      && (forall n :: n in devices && devices[n].priv.Some? ==> devices[n].priv == Some(n) && n in refs)
      && (forall n :: n in refs ==> refs[n] == others[n] + Held(n))
    }

    constructor (attached: map<int, nat>)
      ensures Valid()
      ensures refs == attached && devices == map[] && others == attached
    {
      refs := attached;
      devices := map[];
      others := attached;
    }

    /**
     * ubi_get: the uclass device for UBI device `ubiNum`, bound on first use.
     * `bindResult` is what `device_bind_driver` returns (0 or a negative errno).
     * The reference `ubi_get_device` takes is kept by a newly bound device and
     * given back on every other path.
     */
    method Get(ubiNum: int, bindResult: int) returns (ret: int)
      requires Valid() && bindResult <= 0
      modifies this
      ensures Valid() && others == old(others)
      ensures ret == 0 ==> ubiNum in devices
      ensures ubiNum !in old(refs) ==>
        ret == -ENODEV && refs == old(refs) && devices == old(devices)
      ensures ubiNum in old(refs) && ubiNum in old(devices) ==>
        ret == 0 && refs == old(refs) && devices == old(devices)
      ensures ubiNum in old(refs) && ubiNum !in old(devices) && bindResult < 0 ==>
        ret == bindResult && refs == old(refs) && devices == old(devices)
      ensures ubiNum in old(refs) && ubiNum !in old(devices) && bindResult == 0 ==>
        && ret == 0
        && devices == old(devices)[ubiNum := UbiDevice(Some(ubiNum))]
        && refs == old(refs)[ubiNum := old(refs)[ubiNum] + 1]
    {
      if ubiNum !in refs {
        return -ENODEV;
      }
      refs := refs[ubiNum := refs[ubiNum] + 1];
      if ubiNum !in devices {
        if bindResult != 0 {
          refs := refs[ubiNum := refs[ubiNum] - 1];
          assert refs == old(refs);
          return bindResult;
        }
        devices := devices[ubiNum := UbiDevice(None)];
        devices := devices[ubiNum := UbiDevice(Some(ubiNum))];
      } else {
        refs := refs[ubiNum := refs[ubiNum] - 1];
        assert refs == old(refs);
      }
      return 0;
    }

    /**
     * ubi_put: nothing to do for a UBI device that is not attached; otherwise
     * its own reference is taken and given back, and the uclass device, if
     * there is one, is unbound (its hook drops the reference it holds) and
     * removed.  Always 0.
     */
    method Put(ubiNum: int) returns (ret: int)
      requires Valid()
      modifies this
      ensures Valid() && others == old(others) && ret == 0
      ensures ubiNum !in old(refs) ==> refs == old(refs) && devices == old(devices)
      ensures ubiNum in old(refs) ==>
        && devices == old(devices) - {ubiNum}
        && refs == old(refs)[ubiNum := old(refs)[ubiNum] - old(Held(ubiNum))]
    {
      if ubiNum !in refs {
        return 0;
      }
      refs := refs[ubiNum := refs[ubiNum] + 1];
      refs := refs[ubiNum := refs[ubiNum] - 1];
      assert refs == old(refs);
      if ubiNum in devices {
        Unbind(ubiNum);
        devices := devices - {ubiNum};
      }
      return 0;
    }

    /**
     * ubi_unbind, the driver's unbind hook: drops the held reference once and
     * clears `priv`; on a device whose `priv` is already null it changes nothing.
     */
    method Unbind(ubiNum: int)
      requires Valid() && ubiNum in devices
      modifies this
      ensures Valid() && others == old(others)
      ensures devices == old(devices)[ubiNum := UbiDevice(None)]
      ensures old(Held(ubiNum)) == 1 ==> refs == old(refs)[ubiNum := old(refs)[ubiNum] - 1]
      ensures old(devices[ubiNum].priv).None? ==> refs == old(refs) && devices == old(devices)
    {
      if devices[ubiNum].priv.Some? {
        var ubi := devices[ubiNum].priv.value;
        refs := refs[ubi := refs[ubi] - 1];
        devices := devices[ubiNum := UbiDevice(None)];
      }
    }
  }

  /** Unbinding twice releases what one unbind releases, and no more. */
  method UnbindTwice(registry: UbiRegistry, ubiNum: int)
    requires registry.Valid() && ubiNum in registry.devices
    modifies registry
    ensures registry.Valid()
    ensures registry.devices == old(registry.devices)[ubiNum := UbiDevice(None)]
    ensures old(registry.Held(ubiNum)) == 0 ==> registry.refs == old(registry.refs)
    ensures old(registry.Held(ubiNum)) == 1 ==> registry.refs == old(registry.refs)[ubiNum := old(registry.refs)[ubiNum] - 1]
  {
    registry.Unbind(ubiNum);
    registry.Unbind(ubiNum);
  }
}
