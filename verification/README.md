# U-Boot read-only block devices on UBI volumes

A Dafny model of two small pieces of U-Boot's UBI support.

- **The UBI uclass** (`drivers/mtd/ubi/ubi-uclass.c`). `ubi_get` finds or binds the
  driver-model device of an attached UBI device. It takes a reference to the UBI
  device and keeps it only when it binds a new device. `ubi_put` removes that
  device. The unbind hook `ubi_unbind` drops the reference the device holds.
  Module `UbiUclass`, class `UbiRegistry`.
- **The UBI block adapter** (`drivers/mtd/ubi/block.c`).
  - `ubiblock_find` looks a block device up by its name `ubi<num>.<volume>`.
  - `ubiblock_create` opens the volume read-only. It reuses the block device of
    that volume, or creates one whose block size is the lowest set bit of the LEB
    size.
  - `ubiblock_unbind` closes the descriptor the device owns.
  - `ubiblock_read` turns a request `(start, blkcnt)` into one `ubi_read` call per
    logical erase block (LEB) it touches.

  The read loop and its plan are in module `UbiBlockRead`, the block-size
  arithmetic in `UbiBlockGeometry`, and the device table in `UbiBlock`, class
  `UbiBlockLayer`.

State that the C code changes in place is held in classes:
- the reference counts and uclass devices of `UbiRegistry`;
- the block-device list and the ghost multiset of open volume descriptors of
  `UbiBlockLayer`.

The read loop is a `while` loop proved against a specification function. `Plan`
gives the chunks the loop walks through. `SameBufferCalls` gives the calls the
code issues: every chunk is read into `buffer` itself, as on line 68.
A device's read entry, `UbiBlockLayer.ReadBlocks`, runs this loop as written.
`UbiBlockLayer.ReadBlocksAdvancing` is the corrected variant that advances the
destination past every chunk.

`ubi_read` is a function parameter from `(leb, offset, len)` to a result. The
calls issued are recorded as a ghost trace. `ubi_get_device`, `device_bind_driver`,
`ubi_open_volume_nm` and `blk_create_devicef` are represented by what they return.
A block read is meant to fill `buffer` with the requested bytes. The code
passes `buffer` to every call (line 68), and the model follows the code; see Findings.

## Model

| member | source | states |
|---|---|---|
| UbiBlockGeometry.Complement32 | drivers/mtd/ubi/block.c:106 | `~y` on a 32-bit word is the word whose bits are the others: it is below 2^32, shares no set bit with `y` (their bitwise and is 0), and together with `y` sets all 32 bits (the two add up to 2^32 - 1) |
| UbiBlockGeometry.AndNotPredIsLowBit | drivers/mtd/ubi/block.c:106 | in a k-bit word, `n & ~(n - 1)` is the largest power of two dividing n |
| UbiBlockGeometry.LowBitFactors | drivers/mtd/ubi/block.c:105-106 | n is its lowest set bit (a power of two) times an odd number |
| UbiBlockGeometry.LowBitOfPow2 | drivers/mtd/ubi/block.c:105-106 | a power of two is its own lowest set bit |
| UbiBlockGeometry.BlockSize | drivers/mtd/ubi/block.c:104-106 | `blksz = leb_size & ~(leb_size - 1)` is a power of two that divides leb_size with an odd quotient, and is leb_size when leb_size is a power of two |
| UbiBlockGeometry.BlockCount | drivers/mtd/ubi/block.c:107 | `size = reserved_pebs * (leb_size / blksz)` gives `size * blksz == reserved_pebs * leb_size`; size is reserved_pebs when leb_size is a power of two |
| UbiBlockRead.PlanWithinLeb | drivers/mtd/ubi/block.c:60-68 | every chunk the loop reads is non-empty, and `offset + to_read <= leb_size` |
| UbiBlockRead.PlanAddresses | drivers/mtd/ubi/block.c:56-60 | the first chunk is at (leb, offset), chunk i at LEB leb + i, every later chunk at offset 0; no chunk exactly when bytes_left is 0 |
| UbiBlockRead.PlanCovers | drivers/mtd/ubi/block.c:58-77 | the chunks are contiguous in the volume's flat byte space and their lengths add up to bytes_left |
| UbiBlockRead.RequestPlanStart | drivers/mtd/ubi/block.c:52-57 | a request's first chunk is at LEB `start*blksz / leb_size`, offset `start*blksz % leb_size`; each later one at the next LEB, offset 0; no chunk exactly when blkcnt is 0 |
| UbiBlockRead.RequestPlanCovers | drivers/mtd/ubi/block.c:52-77 | a request's chunks cover exactly blkcnt*blksz bytes from byte start*blksz, each inside one LEB |
| UbiBlockRead.PlanFitsInt | drivers/mtd/ubi/block.c:47-76 | when the LEB after the last byte fits an int, so does every LEB number read, and every `offset + to_read` |
| UbiBlockRead.RequestPlanFitsInt | drivers/mtd/ubi/block.c:47-57 | for a request in range, every `leb` and `offset + to_read` passed to `ubi_read` fits an int |
| UbiBlockRead.SameBufferCallsFollowPlan | drivers/mtd/ubi/block.c:68 | the calls read the plan's chunks one each, in order, and every one is given `buffer` |
| UbiBlockRead.AdvancingCallsFollowPlan | drivers/mtd/ubi/block.c:68 | with the destination advanced, the calls still read the plan's chunks one each, in order |
| UbiBlockRead.IssuedSameBuffer | drivers/mtd/ubi/block.c:60-68 | whatever calls the loop as written issued before stopping each read inside one LEB, and each was given `buffer` |
| UbiBlockRead.IssuedAdvancing | drivers/mtd/ubi/block.c:60-68 | whatever calls the corrected loop issued before stopping each read inside one LEB |
| UbiBlockRead.PrefixInsideLeb | drivers/mtd/ubi/block.c:65-68 | the calls issued before a failure each read inside one LEB as well |
| UbiBlockRead.SameBufferStep | drivers/mtd/ubi/block.c:65-76 | one turn of the loop issues the clamped chunk at (leb, offset) and leaves the calls for the next LEB at offset 0 |
| UbiBlockRead.OutcomeMeaning | drivers/mtd/ubi/block.c:60-78 | a run of calls that stops at its first failure returns the success value exactly when every call succeeds, and a negative result otherwise |
| UbiBlockRead.OutcomeOfFailedRun | drivers/mtd/ubi/block.c:68-72 | a run that issued a prefix of its calls, all but the last succeeding and the last failing, returns that last call's result |
| UbiBlockRead.ReadChunks | drivers/mtd/ubi/block.c:58-78 | the split loop: issues the plan's calls in order, each to `buffer`; stops at the first negative result and returns it; on success every call succeeded and all were issued and the given success value is returned; the returned value is the first failing result of the plan's calls, or the success value; nothing issued when bytes_left is 0; terminates |
| UbiBlockRead.Read | drivers/mtd/ubi/block.c:41-79 | ubiblock_read: the issued calls are a prefix of the request's plan, each inside one LEB and each given `buffer`; the first negative `ubi_read` result is returned unchanged with no call after it; otherwise blkcnt is returned after every chunk was read, so the result is the first failing `ubi_read` result among the request's calls, or blkcnt; blkcnt 0 issues nothing and returns 0 |
| UbiBlockRead.AdvancingStep | drivers/mtd/ubi/block.c:65-76 | one turn of the corrected loop: the clamped chunk at the current destination, the rest after it |
| UbiBlockRead.ReadChunksAdvancing | drivers/mtd/ubi/block.c:58-78 | the corrected split loop: same chunks, results (the first failing result, or the success value) and termination as ReadChunks, each call given the next unwritten address |
| UbiBlockRead.ReadAdvancing | drivers/mtd/ubi/block.c:41-79 | ubiblock_read with the corrected loop: the same outcome as Read (the first failing result among the request's calls, or blkcnt), with the destination advanced by every chunk |
| UbiBlockRead.AdvancingLandsFlat | drivers/mtd/ubi/block.c:60-77 | with advancing destinations, address dest + k ends up holding volume byte `leb*leb_size + offset + k` for k below bytes_left, and nothing else is written |
| UbiBlockRead.AdvancingRequestFillsBuffer | drivers/mtd/ubi/block.c:41-79 | a whole request read with advancing destinations leaves buffer + k holding volume byte `start*blksz + k` exactly for k below blkcnt*blksz |
| UbiBlockRead.SameBufferTwoLebRead | drivers/mtd/ubi/block.c:68 | as written, a read of two whole 128 KiB LEBs issues two calls to the same `buffer`: the buffer starts with the second LEB, and its second half is never written |
| UbiBlockRead.NarrowPos | drivers/mtd/ubi/block.c:41-53 | `pos` with a 32-bit `lbaint_t`: below 2^32, equal to `start * blksz` when the product is below 2^32, and otherwise congruent to it modulo 2^32 |
| UbiBlockRead.NarrowPosWrapsToLebZero | drivers/mtd/ubi/block.c:53-57 | with a 32-bit `lbaint_t`, one 128 KiB block at block 32768 of a volume with 128 KiB LEBs is an in-range request, yet `pos` wraps to 0 and LEB 0 is read, where the full product gives LEB 32768 |
| UbiBlockRead.SplitAcrossTwoLebs | drivers/mtd/ubi/block.c:52-77 | 32 blocks of 4 KiB from block 112 with 128 KiB LEBs are read as the second half of LEB 3, then the first half of LEB 4 |
| UbiUclass.UbiRegistry.Get | drivers/mtd/ubi/ubi-uclass.c:14-37 | ubi_get: -ENODEV and nothing changed for an absent UBI device; an existing device is returned with its reference count unchanged; a failed bind returns its error with nothing changed; a new bind holds the acquired reference (count + 1); the reference-count invariant is kept |
| UbiUclass.UbiRegistry.Put | drivers/mtd/ubi/ubi-uclass.c:40-55 | ubi_put: always 0; no-op for an absent UBI device; otherwise its own get/put is balanced, and the uclass device, if any, is unbound (its held reference dropped) and removed |
| UbiUclass.UbiRegistry.Unbind | drivers/mtd/ubi/ubi-uclass.c:57-64 | ubi_unbind: drops the held reference once and clears `priv`; with `priv` already null nothing changes |
| UbiUclass.UnbindTwice | drivers/mtd/ubi/ubi-uclass.c:57-64 | unbinding twice releases exactly what one unbind releases |
| UbiBlock.IndexOf | drivers/mtd/ubi/block.c:32-38 | the position of the first device named `ubi<num>.<volume>`; none exactly when no device has that name |
| UbiBlock.UbiBlockLayer.Find | drivers/mtd/ubi/block.c:27-39 | ubiblock_find: the scan of the block-device list returns the first device with that name, or none when there is none |
| UbiBlock.ClearPriv | drivers/mtd/ubi/block.c:118-125 | closing the owned descriptor and clearing `priv` keeps names, numbers and geometry sound and leaks nothing |
| UbiBlock.AppendKeepsInvariant | drivers/mtd/ubi/block.c:101-113 | adding a device under a new name and number with sound geometry keeps the device table sound |
| UbiBlock.UbiBlockLayer.Create | drivers/mtd/ubi/block.c:86-116 | ubiblock_create as written: ubi_get and open errors returned unchanged; an existing device's number returned with the table unchanged; otherwise one device added with the lowest-set-bit geometry, or the creation error returned; the duplicate and creation-failure paths leave the new descriptor open and owned by no device; the UBI uclass is left as `ubi_get` leaves it: a newly bound parent device holding one more reference when the UBI device had none, and otherwise the reference counts and devices unchanged |
| UbiBlock.UbiBlockLayer.CreateClosing | drivers/mtd/ubi/block.c:86-116 | ubiblock_create with the descriptor closed on those two paths: the same results, device table and UBI uclass state, and no descriptor leaked on any path |
| UbiBlock.UbiBlockLayer.Unbind | drivers/mtd/ubi/block.c:118-125 | ubiblock_unbind: closes the owned descriptor once and clears `priv`; with `priv` already null nothing changes; nothing is leaked |
| UbiBlock.UnbindTwice | drivers/mtd/ubi/block.c:118-125 | unbinding a block device twice closes its descriptor once |
| UbiBlock.UbiBlockLayer.ReadBlocks | drivers/mtd/ubi/block.c:41-79 | ubiblock_read on a device as written, with its volume's LEB size and its block size: the issued calls are a prefix of the request's plan, each inside one LEB and each given `buffer`; no call is issued after the first failure; on success blkcnt is returned and every chunk of the plan was read; the result is the first failing `ubi_read` result of the request's calls, or blkcnt |
| UbiBlock.UbiBlockLayer.ReadBlocksAdvancing | drivers/mtd/ubi/block.c:41-79 | ubiblock_read on a device, with the corrected loop, reads with its volume's LEB size and its block size: calls inside one LEB each, no call issued after the first failure, the first failing `ubi_read` result of the request's calls returned, and on success every chunk of the plan read, blkcnt returned with buffer + k holding volume byte start*blksz + k for every k below blkcnt*blksz |
| UbiBlock.CreateTwiceLeaks | drivers/mtd/ubi/block.c:97-102 | two creates of one volume, whether or not the first binds the UBI uclass device, return the same device number, add exactly one device and keep the table invariant, and, as written, leave the second descriptor leaked |
| UbiBlock.CreateClosingTwice | drivers/mtd/ubi/block.c:97-102 | the same two creates with the corrected create return the same number, add exactly one device and leak nothing |
| UbiBlock.FoundAfterAppend | drivers/mtd/ubi/block.c:33-38 | after a device for a new name is appended, the lookup by that name finds it at the end of the list |

## Left out

- `pr_err` logging (block.c:70) and the driver and uclass tables (block.c:127-136,
  ubi-uclass.c:66-75). They are registration boilerplate with no behaviour to state.
- Device names. The block device's name is formatted with `snprintf` and truncated
  to `UBI_VOL_NAME_MAX + 8` bytes. The model compares the pair (UBI number, volume)
  instead, so two volumes whose names agree only up to the truncation are not told
  apart the way the code would. A uclass device is likewise keyed by its UBI number
  rather than by `ubi_name`.
- Device-model internals: `blk_first_device`/`blk_next_device`, `blk_create_devicef`,
  `device_bind_driver`, `uclass_find_device_by_name`, `device_unbind` and `dm_root`.
  They are a list, a map and parameters for their results.
- Device identity. Block devices are values in a sequence, and uclass devices are
  values in a map. The model does not capture aliasing of `struct udevice`
  pointers.
- Parent and child devices. `device_unbind` in `ubi_put` also unbinds the child
  block devices. The model keeps the two layers apart, and `UbiBlockLayer.Unbind`
  is the hook each child runs.
- The contents of the data read. `ubi_read` is an oracle on (leb, offset, len). The
  model records which calls are issued, with which destination, and which volume
  byte each address ends up holding (`Landed`). It does not model the bytes
  themselves, ECC or wear levelling.
- Why `ubi_open_volume_nm` fails. It is a parameter: a descriptor or a negative errno.
- `do_div`. It is modelled as `/` and `%` on the non-negative 64-bit `pos`.
- UbiBlockRead.Read: `ubiblock_read` returns `unsigned long`, so a negative
  `ubi_read` result reaches its caller as that type's image of the value. The model
  returns it as the negative int.
- UbiBlockRead.Read: `lbaint_t` is taken to be 64 bits wide. `pos = start * blksz`
  (block.c:53) is read as the full product, bounded by 2^64. On builds whose
  `lbaint_t` is 32 bits the product wraps modulo 2^32 before it is widened;
  `NarrowPos` models that and a Findings row shows the effect.
- UbiBlockRead.Read: the C `int` arithmetic of `to_read`, `leb` and
  `offset + to_read` is not modelled with wrap-around. `ReadInRange` requires the
  values to stay in range, and `RequestPlanFitsInt` shows that every value then fits.
- UbiBlockGeometry.BlockCount: `size` is a C `int`, and `reserved_pebs * (leb_size / blksz)`
  is computed on unbounded integers with no overflow check.
- Concurrency. There is none. Find-then-create is not atomic in the code either.

## Findings

| source | as written | input that shows it | evidently intended | confidence | as-written member | corrected member |
|---|---|---|---|---|---|---|
| drivers/mtd/ubi/block.c:68 | every chunk is read into `buffer` itself; the pointer is never advanced | leb_size = blksz = 131072, start 0, blkcnt 2: LEB 1 overwrites LEB 0 at `buffer`, and `buffer + 131072` is never written | chunk i is read to `buffer` plus the bytes already read, so the buffer holds the flat slice | not executed | UbiBlockRead.SameBufferTwoLebRead | UbiBlockRead.AdvancingRequestFillsBuffer |
| drivers/mtd/ubi/block.c:53 | `start * blksz` is formed in `lbaint_t` and only then stored in the u64 `pos`; where `lbaint_t` is 32 bits it wraps at 4 GiB | a build with 32-bit `lbaint_t`, leb_size = blksz = 131072, start 32768, blkcnt 1: `pos` is 0 and LEB 0 is read instead of LEB 32768 | the product is taken in 64 bits, so `pos` is `start * blksz` and the read starts at LEB `start * blksz / leb_size` | not executed; only builds whose `lbaint_t` is 32 bits | UbiBlockRead.NarrowPosWrapsToLebZero | UbiBlockRead.RequestPlanStart |
| drivers/mtd/ubi/block.c:97-111 | the opened descriptor is not closed when a device for the volume already exists, nor when `blk_create_devicef` fails | create(0, "rootfs") twice: the second call opens a descriptor, finds the first device and returns its number with the descriptor still open | close the descriptor on both paths | not executed | UbiBlock.CreateTwiceLeaks | UbiBlock.UbiBlockLayer.CreateClosing |
