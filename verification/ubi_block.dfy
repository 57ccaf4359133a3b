/**
 * Block devices on UBI volumes (drivers/mtd/ubi/block.c): find-or-create of
 * the block device for a volume, its unbind hook, and its read entry point.
 *
 * The block devices of interface type UBI are the sequence `devs`, in the
 * order the driver model lists them.  A device is named "ubi<num>.<volume>";
 * the model compares the pair (num, volume) instead of the formatted name.
 * Its `priv` is the volume descriptor it owns.  The descriptors open at any
 * moment are the ghost multiset `openDescs`; `Leaked()` is the part of it no
 * device owns.  `ubi_open_volume_nm` and `blk_create_devicef` are parameters:
 * what they return.
 */
module UbiBlock {
  import opened Wrappers
  import opened UbiBlockGeometry
  import opened UbiBlockRead
  import opened UbiUclass

  /** An open read-only volume descriptor: its volume and that volume's geometry. */
  datatype VolumeDesc = VolumeDesc(ubiNum: int, volume: string, lebSize: int, reservedPebs: int)

  /** What `ubi_open_volume_nm` returns: a descriptor, or a negative errno. */
  datatype OpenResult = Opened(desc: VolumeDesc) | OpenFailed(err: int)

  /** A block device of interface type UBI; `priv` is its volume descriptor, or null. */
  datatype BlockDevice = BlockDevice(
    ubiNum: int, volume: string, devnum: int, blksz: int, size: int, priv: Option<VolumeDesc>)

  /** Whether dev is the device named "ubi<ubiNum>.<volume>". */
  predicate Named(dev: BlockDevice, ubiNum: int, volume: string)
  {
    dev.ubiNum == ubiNum && dev.volume == volume
  }

  /** The position of the first device named for (ubiNum, volume), if any. */
  function IndexOf(devs: seq<BlockDevice>, ubiNum: int, volume: string): (r: Option<nat>)
    ensures r.Some? ==>
      && r.value < |devs| && Named(devs[r.value], ubiNum, volume)
      && forall j :: 0 <= j < r.value ==> !Named(devs[j], ubiNum, volume)
    ensures r.None? ==> forall j :: 0 <= j < |devs| ==> !Named(devs[j], ubiNum, volume)
  {
    if devs == [] then None
    else if Named(devs[0], ubiNum, volume) then Some(0)
    else match IndexOf(devs[1..], ubiNum, volume)
      case None => None
      case Some(k) => Some(k + 1)
  }

  /** The descriptor a device owns, as a multiset of zero or one elements. */
  function Owned(dev: BlockDevice): multiset<VolumeDesc>
  {
    match dev.priv
    case None => multiset{}
    case Some(d) => multiset{d}
  }

  /** The descriptors owned by a list of devices. */
  function OwnedAll(devs: seq<BlockDevice>): multiset<VolumeDesc>
  {
    if devs == [] then multiset{} else Owned(devs[0]) + OwnedAll(devs[1..])
  }

  lemma {:induction false} OwnedAllAppend(devs: seq<BlockDevice>, dev: BlockDevice)
    ensures OwnedAll(devs + [dev]) == OwnedAll(devs) + Owned(dev)
  {
    if devs != [] {
      assert (devs + [dev])[1..] == devs[1..] + [dev];
      OwnedAllAppend(devs[1..], dev);
    }
  }

  lemma {:induction false} OwnedAllConcat(a: seq<BlockDevice>, b: seq<BlockDevice>)
    ensures OwnedAll(a + b) == OwnedAll(a) + OwnedAll(b)
  {
    if a != [] {
      assert (a + b)[1..] == a[1..] + b;
      OwnedAllConcat(a[1..], b);
    } else {
      assert a + b == b;
    }
  }

  /** Replacing device i swaps its descriptor, if any, for the new device's. */
  lemma OwnedAllUpdate(devs: seq<BlockDevice>, i: int, dev: BlockDevice)
    requires 0 <= i < |devs|
    ensures OwnedAll(devs[i := dev]) + Owned(devs[i]) == OwnedAll(devs) + Owned(dev)
  {
    var pre, post := devs[..i], devs[i + 1..];
    assert devs == pre + [devs[i]] + post;
    assert devs[i := dev] == pre + [dev] + post;
    OwnedAllConcat(pre + [devs[i]], post);
    OwnedAllConcat(pre, [devs[i]]);
    OwnedAllConcat(pre + [dev], post);
    OwnedAllConcat(pre, [dev]);
    assert [dev][1..] == [] && [devs[i]][1..] == [];
    var lhs, rhs := OwnedAll(devs[i := dev]) + Owned(devs[i]), OwnedAll(devs) + Owned(dev);
    forall x ensures lhs[x] == rhs[x] {
    }
    assert lhs == rhs;
  }

  /**
   * What the block layer keeps true of every UBI block device: the geometry
   * of its volume (block size the lowest set bit of the LEB size, the blocks
   * covering exactly the reserved LEBs), a non-negative device number.
   */
  predicate GeometryOk(dev: BlockDevice)
  {
    && 0 <= dev.devnum
    && IsPow2(dev.blksz)
    && match dev.priv
       case None => true
       case Some(d) =>
         && d.ubiNum == dev.ubiNum && d.volume == dev.volume
         && 0 < d.lebSize <= INT_MAX
         && dev.blksz == BlockSize(d.lebSize) && d.lebSize % dev.blksz == 0
         && dev.size * dev.blksz == d.reservedPebs * d.lebSize
  }

  /** At most one device per name. */
  predicate UniqueNames(devs: seq<BlockDevice>)
  {
    forall i, j :: 0 <= i < j < |devs| ==> !Named(devs[j], devs[i].ubiNum, devs[i].volume)
  }

  /** No two devices share a device number. */
  predicate UniqueDevnums(devs: seq<BlockDevice>)
  {
    forall i, j :: 0 <= i < j < |devs| ==> devs[i].devnum != devs[j].devnum
  }

  predicate AllGeometryOk(devs: seq<BlockDevice>)
  {
    forall i :: 0 <= i < |devs| ==> GeometryOk(devs[i])
  }

  /** Clearing one device's `priv` keeps names, numbers and geometry sound. */
  lemma ClearPrivKeepsInvariant(devs: seq<BlockDevice>, i: int)
    requires 0 <= i < |devs|
    requires UniqueNames(devs) && UniqueDevnums(devs) && AllGeometryOk(devs)
    ensures var cleared := devs[i := devs[i].(priv := None)];
      UniqueNames(cleared) && UniqueDevnums(cleared) && AllGeometryOk(cleared)
  {
  }

  /** Appending a device with a new name and a new number keeps names, numbers and geometry sound. */
  lemma AppendKeepsInvariant(devs: seq<BlockDevice>, dev: BlockDevice)
    requires UniqueNames(devs) && UniqueDevnums(devs) && AllGeometryOk(devs)
    requires forall j :: 0 <= j < |devs| ==> !Named(devs[j], dev.ubiNum, dev.volume)
    requires forall j :: 0 <= j < |devs| ==> devs[j].devnum != dev.devnum
    requires GeometryOk(dev)
    ensures UniqueNames(devs + [dev]) && UniqueDevnums(devs + [dev]) && AllGeometryOk(devs + [dev])
  {
  }

  /** Opening one more descriptor leaks it unless a device takes it. */
  lemma OpenOne(owned: multiset<VolumeDesc>, open: multiset<VolumeDesc>, d: VolumeDesc)
    requires owned <= open
    ensures owned <= open + multiset{d}
    ensures (open + multiset{d}) - owned == (open - owned) + multiset{d}
    ensures owned + multiset{d} <= open + multiset{d}
    ensures (open + multiset{d}) - (owned + multiset{d}) == open - owned
    ensures (open + multiset{d}) - multiset{d} == open
  {
  }

  /** Closing an owned descriptor and dropping its owner leaks nothing. */
  lemma CloseOwned(owned: multiset<VolumeDesc>, open: multiset<VolumeDesc>, d: VolumeDesc)
    requires owned + multiset{d} <= open
    ensures owned <= open - multiset{d}
    ensures (open - multiset{d}) - owned == open - (owned + multiset{d})
  {
  }

  /**
   * Closing the descriptor device i owns and clearing its `priv` keeps names,
   * numbers and geometry sound, keeps every owned descriptor open, and
   * leaves the leaked descriptors as they were.
   */
  lemma ClearPriv(devs: seq<BlockDevice>, open: multiset<VolumeDesc>, i: int)
    requires 0 <= i < |devs| && devs[i].priv.Some?
    requires UniqueNames(devs) && UniqueDevnums(devs) && AllGeometryOk(devs) && OwnedAll(devs) <= open
    ensures var cleared := devs[i := devs[i].(priv := None)];
      var closed := open - multiset{devs[i].priv.value};
      && UniqueNames(cleared) && UniqueDevnums(cleared) && AllGeometryOk(cleared)
      && OwnedAll(cleared) <= closed && closed - OwnedAll(cleared) == open - OwnedAll(devs)
  {
    var desc := devs[i].priv.value;
    var dev := devs[i].(priv := None);
    assert Owned(dev) == multiset{} && Owned(devs[i]) == multiset{desc};
    OwnedAllUpdate(devs, i, dev);
    assert OwnedAll(devs[i := dev]) + multiset{desc} == OwnedAll(devs);
    ClearPrivKeepsInvariant(devs, i);
    CloseOwned(OwnedAll(devs[i := dev]), open, desc);
  }

  class UbiBlockLayer {
    /** The UBI uclass, whose devices are the parents of the block devices. */
    const ubi: UbiRegistry
    /** The block devices of interface type UBI, in list order. */
    var devs: seq<BlockDevice>
    /** The volume descriptors currently open. */
    ghost var openDescs: multiset<VolumeDesc>

    /**
     * At most one device per (UBI number, volume), distinct device numbers,
     * sound geometry, and every owned descriptor open.
     */
    ghost predicate Valid()
      reads this, ubi
    {
      && ubi.Valid()
      && UniqueNames(devs) && UniqueDevnums(devs) && AllGeometryOk(devs)
      && OwnedAll(devs) <= openDescs
    }

    /** The open descriptors that no device owns. */
    ghost function Leaked(): multiset<VolumeDesc>
      reads this
    {
      openDescs - OwnedAll(devs)
    }

    constructor (ubi: UbiRegistry)
      requires ubi.Valid()
      ensures Valid() && this.ubi == ubi && devs == [] && openDescs == multiset{}
    {
      this.ubi := ubi;
      devs := [];
      openDescs := multiset{};
    }

    /** Whether `ubi_get(ubiNum)` succeeds given what `device_bind_driver` returns. */
    ghost predicate GetSucceeds(ubiNum: int, bindResult: int)
      reads ubi
    {
      ubiNum in ubi.refs && (ubiNum in ubi.devices || bindResult == 0)
    }

    /** ubiblock_find: the device named for (ubiNum, volume), by a scan of the list. */
    method Find(ubiNum: int, volume: string) returns (r: Option<nat>)
      ensures r == IndexOf(devs, ubiNum, volume)
      ensures r.Some? ==> r.value < |devs| && Named(devs[r.value], ubiNum, volume)
      ensures r.None? ==> forall j :: 0 <= j < |devs| ==> !Named(devs[j], ubiNum, volume)
    {
      var i := 0;
      while i < |devs|
        invariant 0 <= i <= |devs|
        invariant forall j :: 0 <= j < i ==> !Named(devs[j], ubiNum, volume)
      {
        if Named(devs[i], ubiNum, volume) {
          return Some(i);
        }
        i := i + 1;
      }
      return None;
    }

    /**
     * ubiblock_create as written.  On every path that opens the volume the
     * descriptor stays open, also when a device for the volume already exists
     * or `blk_create_devicef` fails: those two paths leak it.
     */
    method Create(ubiNum: int, volume: string, bindResult: int, open: OpenResult,
                  createResult: int, newDevnum: int) returns (ret: int)
      requires Valid()
      requires bindResult <= 0 && createResult <= 0 && 0 <= newDevnum
      requires forall i :: 0 <= i < |devs| ==> devs[i].devnum != newDevnum
      requires match open
        case OpenFailed(err) => err < 0
        case Opened(d) => d.ubiNum == ubiNum && d.volume == volume && 0 < d.lebSize <= INT_MAX
      modifies this, ubi
      ensures Valid() && ubi.others == old(ubi.others)
      ensures ubiNum in old(ubi.refs) && ubiNum !in old(ubi.devices) && bindResult == 0 ==>
        && ubi.devices == old(ubi.devices)[ubiNum := UbiDevice(Some(ubiNum))]
        && ubi.refs == old(ubi.refs)[ubiNum := old(ubi.refs)[ubiNum] + 1]
      ensures !(ubiNum in old(ubi.refs) && ubiNum !in old(ubi.devices) && bindResult == 0) ==>
        ubi.refs == old(ubi.refs) && ubi.devices == old(ubi.devices)
      ensures !old(GetSucceeds(ubiNum, bindResult)) ==>
        && ret == (if ubiNum !in old(ubi.refs) then -ENODEV else bindResult)
        && devs == old(devs) && openDescs == old(openDescs)
      ensures old(GetSucceeds(ubiNum, bindResult)) && open.OpenFailed? ==>
        ret == open.err && devs == old(devs) && openDescs == old(openDescs)
      ensures old(GetSucceeds(ubiNum, bindResult)) && open.Opened? ==>
        openDescs == old(openDescs) + multiset{open.desc}
      ensures old(GetSucceeds(ubiNum, bindResult)) && open.Opened? && old(IndexOf(devs, ubiNum, volume)).Some? ==>
        && devs == old(devs)
        && ret == old(devs[IndexOf(devs, ubiNum, volume).value].devnum)
        && Leaked() == old(Leaked()) + multiset{open.desc}
      ensures old(GetSucceeds(ubiNum, bindResult)) && open.Opened? && old(IndexOf(devs, ubiNum, volume)).None? ==>
        if createResult < 0 then
          && ret == createResult && devs == old(devs)
          && Leaked() == old(Leaked()) + multiset{open.desc}
        else
          && ret == newDevnum
          && devs == old(devs) + [BlockDevice(ubiNum, volume, newDevnum,
                                              BlockSize(open.desc.lebSize),
                                              BlockCount(open.desc.reservedPebs, open.desc.lebSize),
                                              Some(open.desc))]
          && Leaked() == old(Leaked())
    {
      ret := ubi.Get(ubiNum, bindResult);
      if ret != 0 {
        return ret;
      }
      if open.OpenFailed? {
        return open.err;
      }
      var desc := open.desc;
      OpenOne(OwnedAll(devs), openDescs, desc);
      openDescs := openDescs + multiset{desc};
      var found := Find(ubiNum, volume);
      if found.None? {
        var blksz := BlockSize(desc.lebSize);
        var size := BlockCount(desc.reservedPebs, desc.lebSize);
        if createResult != 0 {
          return createResult;
        }
        var dev := BlockDevice(ubiNum, volume, newDevnum, blksz, size, Some(desc));
        assert GeometryOk(dev);
        AppendKeepsInvariant(devs, dev);
        OwnedAllAppend(devs, dev);
        devs := devs + [dev];
        return newDevnum;
      }
      return devs[found.value].devnum;
    }

    /**
     * ubiblock_create with the descriptor closed on the two paths that do
     * not keep it: nothing is leaked.
     */
    method CreateClosing(ubiNum: int, volume: string, bindResult: int, open: OpenResult,
                         createResult: int, newDevnum: int) returns (ret: int)
      requires Valid()
      requires bindResult <= 0 && createResult <= 0 && 0 <= newDevnum
      requires forall i :: 0 <= i < |devs| ==> devs[i].devnum != newDevnum
      requires match open
        case OpenFailed(err) => err < 0
        case Opened(d) => d.ubiNum == ubiNum && d.volume == volume && 0 < d.lebSize <= INT_MAX
      modifies this, ubi
      ensures Valid() && ubi.others == old(ubi.others)
      ensures ubiNum in old(ubi.refs) && ubiNum !in old(ubi.devices) && bindResult == 0 ==>
        && ubi.devices == old(ubi.devices)[ubiNum := UbiDevice(Some(ubiNum))]
        && ubi.refs == old(ubi.refs)[ubiNum := old(ubi.refs)[ubiNum] + 1]
      ensures !(ubiNum in old(ubi.refs) && ubiNum !in old(ubi.devices) && bindResult == 0) ==>
        ubi.refs == old(ubi.refs) && ubi.devices == old(ubi.devices)
      ensures Leaked() == old(Leaked())
      ensures !old(GetSucceeds(ubiNum, bindResult)) ==>
        && ret == (if ubiNum !in old(ubi.refs) then -ENODEV else bindResult)
        && devs == old(devs) && openDescs == old(openDescs)
      ensures old(GetSucceeds(ubiNum, bindResult)) && open.OpenFailed? ==>
        ret == open.err && devs == old(devs) && openDescs == old(openDescs)
      ensures old(GetSucceeds(ubiNum, bindResult)) && open.Opened? && old(IndexOf(devs, ubiNum, volume)).Some? ==>
        && devs == old(devs) && openDescs == old(openDescs)
        && ret == old(devs[IndexOf(devs, ubiNum, volume).value].devnum)
      ensures old(GetSucceeds(ubiNum, bindResult)) && open.Opened? && old(IndexOf(devs, ubiNum, volume)).None? ==>
        if createResult < 0 then
          ret == createResult && devs == old(devs) && openDescs == old(openDescs)
        else
          && ret == newDevnum
          && openDescs == old(openDescs) + multiset{open.desc}
          && devs == old(devs) + [BlockDevice(ubiNum, volume, newDevnum,
                                              BlockSize(open.desc.lebSize),
                                              BlockCount(open.desc.reservedPebs, open.desc.lebSize),
                                              Some(open.desc))]
    {
      ret := ubi.Get(ubiNum, bindResult);
      if ret != 0 {
        return ret;
      }
      if open.OpenFailed? {
        return open.err;
      }
      var desc := open.desc;
      OpenOne(OwnedAll(devs), openDescs, desc);
      openDescs := openDescs + multiset{desc};
      var found := Find(ubiNum, volume);
      if found.None? {
        var blksz := BlockSize(desc.lebSize);
        var size := BlockCount(desc.reservedPebs, desc.lebSize);
        if createResult != 0 {
          openDescs := openDescs - multiset{desc};
          return createResult;
        }
        var dev := BlockDevice(ubiNum, volume, newDevnum, blksz, size, Some(desc));
        assert GeometryOk(dev);
        AppendKeepsInvariant(devs, dev);
        OwnedAllAppend(devs, dev);
        devs := devs + [dev];
        return newDevnum;
      }
      openDescs := openDescs - multiset{desc};
      return devs[found.value].devnum;
    }

    /**
     * ubiblock_unbind, the driver's unbind hook: closes the owned descriptor
     * once and clears `priv`; on a device whose `priv` is already null it
     * changes nothing.
     */
    method Unbind(i: nat)
      requires Valid() && i < |devs|
      modifies this
      ensures Valid() && Leaked() == old(Leaked())
      ensures devs == old(devs)[i := old(devs[i]).(priv := None)]
      ensures openDescs == old(openDescs) - Owned(old(devs[i]))
      ensures old(devs[i].priv).None? ==> devs == old(devs) && openDescs == old(openDescs)
    {
      if devs[i].priv.Some? {
        ClearPriv(devs, openDescs, i);
        openDescs := openDescs - multiset{devs[i].priv.value};
        devs := devs[i := devs[i].(priv := None)];
      } else {
        assert devs[i := devs[i].(priv := None)] == devs;
        assert openDescs - Owned(devs[i]) == openDescs;
      }
    }

    /**
     * ubiblock_read on device i as written: the LEB size of the device's
     * volume and the device's block size, every chunk read to `buffer`.
     */
    method ReadBlocks(i: nat, start: int, blkcnt: int, buffer: int, ubiRead: UbiRead)
      returns (ret: int, ghost issued: seq<ReadCall>)
      requires i < |devs| && devs[i].priv.Some?
      requires ReadInRange(devs[i].priv.value.lebSize, devs[i].blksz, start, blkcnt)
      ensures var calls := SameBufferCalls(RequestPlan(devs[i].priv.value.lebSize, devs[i].blksz, start, blkcnt), buffer);
        |issued| <= |calls| && issued == calls[..|issued|]
      ensures CallsInsideLeb(issued, devs[i].priv.value.lebSize)
      ensures forall j :: 0 <= j < |issued| ==> issued[j].dest == buffer
      ensures ret < 0 ==> issued != [] && ret == ReadResult(ubiRead, issued[|issued| - 1])
      ensures forall j :: 0 <= j < |issued| - 1 ==> ReadResult(ubiRead, issued[j]) >= 0
      ensures ret >= 0 ==>
        && issued == SameBufferCalls(RequestPlan(devs[i].priv.value.lebSize, devs[i].blksz, start, blkcnt), buffer)
        && forall j :: 0 <= j < |issued| ==> ReadResult(ubiRead, issued[j]) >= 0
      ensures ret >= 0 ==> ret == blkcnt
      ensures ret == Outcome(ubiRead, SameBufferCalls(RequestPlan(devs[i].priv.value.lebSize, devs[i].blksz, start, blkcnt), buffer), blkcnt)
    {
      var desc := devs[i].priv.value;
      ret, issued := Read(desc.lebSize, devs[i].blksz, start, blkcnt, buffer, ubiRead);
    }

    /**
     * ubiblock_read on device i corrected, with the destination advanced past
     * every chunk read: the LEB size of the device's volume and the device's block
     * size; on success the buffer holds the requested blocks of the volume.
     */
    method ReadBlocksAdvancing(i: nat, start: int, blkcnt: int, buffer: int, ubiRead: UbiRead)
      returns (ret: int, ghost issued: seq<ReadCall>)
      requires i < |devs| && devs[i].priv.Some?
      requires ReadInRange(devs[i].priv.value.lebSize, devs[i].blksz, start, blkcnt)
      ensures var calls := AdvancingCalls(RequestPlan(devs[i].priv.value.lebSize, devs[i].blksz, start, blkcnt), buffer);
        |issued| <= |calls| && issued == calls[..|issued|]
      ensures CallsInsideLeb(issued, devs[i].priv.value.lebSize)
      ensures ret < 0 ==> issued != [] && ret == ReadResult(ubiRead, issued[|issued| - 1])
      ensures forall j :: 0 <= j < |issued| - 1 ==> ReadResult(ubiRead, issued[j]) >= 0
      ensures ret >= 0 ==>
        && issued == AdvancingCalls(RequestPlan(devs[i].priv.value.lebSize, devs[i].blksz, start, blkcnt), buffer)
        && forall j :: 0 <= j < |issued| ==> ReadResult(ubiRead, issued[j]) >= 0
      ensures ret >= 0 ==> ret == blkcnt && forall a :: buffer <= a < buffer + blkcnt * devs[i].blksz ==>
        Landed(issued, devs[i].priv.value.lebSize, a) == Some(start * devs[i].blksz + (a - buffer))
      ensures ret == Outcome(ubiRead, AdvancingCalls(RequestPlan(devs[i].priv.value.lebSize, devs[i].blksz, start, blkcnt), buffer), blkcnt)
    {
      var desc := devs[i].priv.value;
      ret, issued := ReadAdvancing(desc.lebSize, devs[i].blksz, start, blkcnt, buffer, ubiRead);
      if ret >= 0 {
        forall a | buffer <= a < buffer + blkcnt * devs[i].blksz
          ensures Landed(issued, desc.lebSize, a) == Some(start * devs[i].blksz + (a - buffer))
        {
          AdvancingRequestFillsBuffer(desc.lebSize, devs[i].blksz, start, blkcnt, buffer, a - buffer);
          assert buffer + (a - buffer) == a;
        }
      }
    }
  }

  /**
   * Once a device for a new name is appended with a number above all others,
   * looking the name up finds it, and the next number is still free.
   */
  lemma FoundAfterAppend(devs: seq<BlockDevice>, dev: BlockDevice, devnum: int)
    requires IndexOf(devs, dev.ubiNum, dev.volume).None? && dev.devnum == devnum
    requires forall i :: 0 <= i < |devs| ==> devs[i].devnum < devnum
    ensures IndexOf(devs + [dev], dev.ubiNum, dev.volume) == Some(|devs|)
    ensures forall i :: 0 <= i < |devs + [dev]| ==> (devs + [dev])[i].devnum != devnum + 1
  {
    var all := devs + [dev];
    assert all[..|devs|] == devs;
    assert Named(all[|devs|], dev.ubiNum, dev.volume);
  }

  /**
   * Creating the block device of one volume twice with ubiblock_create as
   * written: the second call returns the first one's device number and
   * leaves its own descriptor open and owned by nothing.
   */
  method CreateTwiceLeaks(layer: UbiBlockLayer, ubiNum: int, volume: string,
                          first: VolumeDesc, second: VolumeDesc, newDevnum: int)
    returns (ret1: int, ret2: int)
    requires layer.Valid() && layer.Leaked() == multiset{}
    requires ubiNum in layer.ubi.refs
    requires IndexOf(layer.devs, ubiNum, volume).None? && 0 <= newDevnum
    requires forall i :: 0 <= i < |layer.devs| ==> layer.devs[i].devnum < newDevnum
    requires first.ubiNum == ubiNum && first.volume == volume && 0 < first.lebSize <= INT_MAX
    requires second.ubiNum == ubiNum && second.volume == volume && 0 < second.lebSize <= INT_MAX
    modifies layer, layer.ubi
    ensures ret1 == ret2 == newDevnum
    ensures layer.Leaked() == multiset{second}
    ensures layer.Valid()
    ensures layer.devs == old(layer.devs) + [BlockDevice(ubiNum, volume, newDevnum, BlockSize(first.lebSize),
                                                         BlockCount(first.reservedPebs, first.lebSize), Some(first))]
  {
    ghost var dev1 := BlockDevice(ubiNum, volume, newDevnum, BlockSize(first.lebSize),
                                  BlockCount(first.reservedPebs, first.lebSize), Some(first));
    FoundAfterAppend(layer.devs, dev1, newDevnum);
    ret1 := layer.Create(ubiNum, volume, 0, Opened(first), 0, newDevnum);
    ret2 := layer.Create(ubiNum, volume, 0, Opened(second), 0, newDevnum + 1);
  }

  /** The same two calls with the descriptor closed: nothing is left open that no device owns. */
  method CreateClosingTwice(layer: UbiBlockLayer, ubiNum: int, volume: string,
                            first: VolumeDesc, second: VolumeDesc, newDevnum: int)
    returns (ret1: int, ret2: int)
    requires layer.Valid() && layer.Leaked() == multiset{}
    requires ubiNum in layer.ubi.refs
    requires IndexOf(layer.devs, ubiNum, volume).None? && 0 <= newDevnum
    requires forall i :: 0 <= i < |layer.devs| ==> layer.devs[i].devnum < newDevnum
    requires first.ubiNum == ubiNum && first.volume == volume && 0 < first.lebSize <= INT_MAX
    requires second.ubiNum == ubiNum && second.volume == volume && 0 < second.lebSize <= INT_MAX
    modifies layer, layer.ubi
    ensures ret1 == ret2 == newDevnum
    ensures layer.Leaked() == multiset{}
    ensures layer.Valid()
    ensures layer.devs == old(layer.devs) + [BlockDevice(ubiNum, volume, newDevnum, BlockSize(first.lebSize),
                                                         BlockCount(first.reservedPebs, first.lebSize), Some(first))]
  {
    ghost var dev1 := BlockDevice(ubiNum, volume, newDevnum, BlockSize(first.lebSize),
                                  BlockCount(first.reservedPebs, first.lebSize), Some(first));
    FoundAfterAppend(layer.devs, dev1, newDevnum);
    ret1 := layer.CreateClosing(ubiNum, volume, 0, Opened(first), 0, newDevnum);
    ret2 := layer.CreateClosing(ubiNum, volume, 0, Opened(second), 0, newDevnum + 1);
  }

  /** Unbinding a block device twice closes its descriptor once. */
  method UnbindTwice(layer: UbiBlockLayer, i: nat)
    requires layer.Valid() && i < |layer.devs|
    modifies layer
    ensures layer.Valid()
    ensures layer.devs == old(layer.devs)[i := old(layer.devs[i]).(priv := None)]
    ensures layer.openDescs == old(layer.openDescs) - Owned(old(layer.devs[i]))
  {
    layer.Unbind(i);
    layer.Unbind(i);
  }
}
