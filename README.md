# insane_striping in Dafny

A model of `dm-insane`, the device-mapper target of the insane_striping
repository. The target stripes a virtual block device over N backend
devices. For every bio it computes where the data chunk lives. It also
computes which redundancy blocks (syndromes) belong to that chunk's stripe,
using one of several pluggable placement schemes. On a write it issues
emulated syndrome I/O. At construction it can rebuild one disk from the
recovery plans a scheme supplies.

The core is 64-bit address arithmetic, and that is what the model covers:

- **Driver** (`insane_striping.c`):
  - `SectorMap`: the sector → (block, lane, sector) translation, and the range clipping for discards and write-same bios.
  - `Construct`:
    - the constructor's argument checks (`simple_strtoul`, the pattern loop, the power-of-two and divisibility tests);
    - the length rounding;
    - the call into the rebuild.
  - `Registry`: the algorithm registry, as a class over a sequence of descriptors.
  - `Rebuild`: the rebuild loop, `insane_recover`.
  - `WritePath`: the write path, `insane_map` with `insane_seq_syndromes` and `insane_finish_syndromes`.
  - `EndIo`, the completion hook: a class holding the per-device error counters.
- **Shared declarations** (`insane.h`):
  - `InsaneH`: the syndrome list (`Slot`, ending at `End`, the device number -1), the recovery plan, the descriptor, the context and the constants.
  - `Schemes`: the function-pointer dispatch of `configure`, `map` and `recover`.
  - `Trace`: the I/O trace that stands for `do_bio`.
- **Placement schemes**:
  - `Raid6`: a two-syndrome square with a rotating diagonal;
  - `Raid7`: the same with three syndromes;
  - `Raid6e`: raid6 plus relocation into a spare zone around the failed disk 1;
  - `Elegant`: a fixed 14-lane layout with local and global syndromes;
  - `ElegantDegraded`: elegant plus relocation of whatever lands on the failed disk 1 into the stripe's empty lane;
  - `ElegantRebuilt`: a branch-free choice between an old-disk zone and a new-disk zone;
  - `Lrc`: a table-driven 20-lane layout;
  - `Hashed`: a per-stripe Fisher–Yates shuffle of a template, driven by a linear congruential generator.
- **Recovery planners**: `Raid6.Recover`, `Raid6e.Recover`, `Lrc.Recover` and `Hashed.Recover`.
- **Layout tables**:
  - `LrcConfig` (`lrc_config.c`);
  - `GetConstants`, the generator `get_constants.py`, which turns a scheme string into those tables;
  - `Layout`, the role-byte vocabulary and index-list facts the table-driven schemes share.
- **Helpers**: `Wrappers`, `Arith` (unsigned division behind function names) and `Bits` (C's `&`, `~`, shifts and `__ffs` on naturals).

How the model is built:

- **Values:**
  - Values are unbounded naturals.
  - Wrap-around modulo 2^64 (`InsaneH.Wrap64`) and 2^32 (`Construct.Wrap32`, `Construct.ToInt32`) is written out wherever the source subtracts or truncates.
  - `sector_div(n, d)` is a quotient and a remainder (`Arith.Div`, `Arith.Mod`).
- **Fields the C code never assigns** are `None` in the model. These are the raid6 and raid6e write target and elegant_rebuilt's `last_block`.
- **Reads of unassigned data** appear in a trace as the event `Garbage`. It stands for the request built from the unset value. The model does not follow what that request does, and otherwise continues with the source's next step. A trace ends at a call through a null pointer (`NullCall`) or outside the model's range (`Unfollowed`). The syndrome loop of insane_finish_syndromes (`WritePath.SyndromeUpdates`) also ends after reading an unset slot, because its exit test depends on that slot's value.
- **Pure code and loops:**
  - Straight-line code is a function.
  - Every loop of the source is a method whose postcondition equals a closed-form specification function. The properties are lemmas about that function.
  - Objects whose state the source updates are classes: the registry and the error counters.

The source has these defects, and a lemma exhibits each one:
- raid6e offsets the data sector by `lane / N`, not by the offset within the chunk (`Raid6e.MapAgreesWithRaid6`);
- the LRC and hashed planners test the exhausted loop counter `i` to pick the write row (`Lrc.ReadGroup`, `Hashed.ReadGroup`);
- hashed `map` indexes the lane-ordered table of local-syndrome lanes by group number (`Hashed.RandomSyndromes`);
- raid6 and raid6e never set the write target of a plan (`Rebuild.Raid6RebuildReadsUnsetWrite`);
- raid7 and the elegant schemes have no recovery function, yet the constructor always rebuilds (`Rebuild.NoRecoverFaults`);
- elegant_rebuilt never sets `last_block` (`WritePath.ElegantRebuiltSequentialWrite`).

Behaviour of the code worth noting:

- **I/O patterns.** There are only two. The second one, "random", is also the recover mode and takes the extra recovering-disk argument. A recovering disk of 0 is refused.
- **The sequential `last_block` flag.**
  - It marks the last data lane of a stripe only when a stripe spans at most two rows. `Elegant.SequentialRuleOnFourDevices` is a counterexample on four devices.
  - elegant_rebuilt never sets the flag.
- **Recovery of a group member** reads `SUBSTRIPE_DATA` other lanes: five for `insane_LRC.c`, three for the `lrc_config.c` template.
- **The raid6 planner** reads N-2 blocks, not every other block of the row.
- **The negative-write-device fallback** differs between the planners:
  - in LRC it reuses the first read's sector;
  - in hashed it subtracts one chunk from the write sector.

## Model

| member | source | states |
|---|---|---|
| Construct.ToInt32 | insane_striping.c:143 | the `int` an `unsigned long` becomes is its low 32 bits read in two's complement, in [-2^31, 2^31) |
| Construct.StrToUl | insane_striping.c:143-145 | `*end` is NUL exactly when the argument is a (possibly empty) run of decimal digits; the value is the digits accumulated in an `unsigned long` |
| Construct.AccumulateExact | insane_striping.c:143 | up to 19 digits never wrap: the accumulated value is the decimal value |
| Construct.ParseNumeral | insane_striping.c:143-155 | a numeral of at most 19 digits is parsed as its decimal value with `*end` at NUL |
| Construct.PatternOf | insane_striping.c:158-169 | the pattern index is the first io_patterns name equal to the argument on ALG_NAME_LEN characters, none when no name matches |
| Construct.MatchPattern | insane_striping.c:158-169 | the pattern loop with its `break` returns PatternOf's index |
| Construct.CheckArgs | insane_striping.c:111-202 | the checks of insane_ctr, in source order, each refusing with -EINVAL; the recovering disk is read only in recover mode |
| Construct.GeometryAccepts | insane_striping.c:184-202 | the last three checks pass exactly when the 32-bit chunk size is a power of two, the device count divides the length, and argc is 4 (5 in recover mode) plus the device count |
| Construct.CheckArgsAccepts | insane_striping.c:111-202 | a table line is accepted exactly when it has at least five arguments, a registered name, non-zero numerals for device count and chunk size, a known pattern, a non-zero recovering disk in recover mode, a power-of-two chunk size, a length divisible by ndev and one path per device; otherwise -EINVAL |
| Construct.CreatedContext | insane_striping.c:203-235 | the context `Ctr` builds through `Construct.Setup` has chunk_size = 2^chunk_size_shift, ndev_shift = -1 unless ndev is a power of two, dev_width · ndev = len, the looked-up descriptor after configure, and a non-zero recovering disk exactly in recover mode |
| Construct.LengthRounds | insane_striping.c:237-246 | without wrap-around the shrunk length is a multiple of ndev · chunk_size · stripe_blocks and the greatest one not above (len / stripe_blocks) · (stripe_blocks − p_blocks − e_blocks) |
| Construct.CreatedLength | insane_striping.c:237-246 | the same for the length of a created target, when the stripe product fits in 32 bits |
| Construct.Construct | insane_striping.c:97-305 | insane_ctr returns Ctr's outcome and, for a created target, the trace of the rebuild of its recovering disk |
| Construct.ParseArgs | insane_striping.c:111-202 | the early-return checks with the registry lookup and the pattern loop compute CheckArgs |
| SectorMap.TargetOffset | insane_striping.c:336 | dm_target_offset is the sector less the target start, in u64 |
| SectorMap.MapSectorDivides | insane_striping.c:334-368 | in `SectorMap.MapSector`, both branches (divide by ndev, or mask and shift when ndev is a power of two) give lane = chunk mod ndev, block = chunk / ndev and result = block · chunk_size + offset mod chunk_size, with chunk = offset / chunk_size |
| SectorMap.BlockStartFits | insane_striping.c:361-366 | the translated sector is at most the target offset |
| SectorMap.MapSectorInverse | insane_striping.c:334-368 | the translation is one-to-one: the lane is below ndev, the sector lies in its chunk, and block, lane and offset give the target offset back |
| SectorMap.RoundDown | insane_striping.c:380-382 | `x & ~(chunk_size − 1)` in 64 bits rounds x down to its chunk |
| SectorMap.BeforeCounts | insane_striping.c:371-386 | the closed form of the number of target offsets below x on device t counts them |
| SectorMap.MapRangeSectorCounts | insane_striping.c:371-386 | insane_map_range_sector gives the range end's number of target offsets before it on the target device: the sector itself when it is on that device, otherwise its chunk start, one chunk further when target_dev < dev_index |
| SectorMap.MapRangeClips | insane_striping.c:389-408 | for `SectorMap.MapRange`, the device gets a remapped bio exactly when some sector of the range lies on it; the bio then starts at the first such sector and covers exactly the range's sectors on that device, in bytes; otherwise the bio is completed |
| Registry.FindFrom | insane_striping.c:899-912 | the walk from entry i returns the first entry whose name matches on ALG_NAME_LEN characters, or none when none does |
| Registry.Find | insane_striping.c:116-133 | the lookup returns the first matching entry, and reports none exactly when no entry matches |
| Registry.LongNamesMatch | insane_striping.c:907 | names agreeing on their first ALG_NAME_LEN characters match whatever follows |
| Registry.RegisterSpec | insane_striping.c:889-918 | -EINVAL exactly for a null descriptor or one without map, -EEXIST exactly when a registered name matches, both leaving the list unchanged; otherwise 0 and the new list is the descriptor followed by the old list |
| Registry.UnregisterSpec | insane_striping.c:921-955 | -EINVAL for a null descriptor, -ESRCH exactly when no entry matches (list unchanged); otherwise 0 and the new list is the old one with exactly the first matching entry removed, in order |
| Registry.RegisterKeepsWellFormed | insane_striping.c:889-918 | registration keeps every entry with a map function and no two names matching |
| Registry.UnregisterKeepsWellFormed | insane_striping.c:921-955 | unregistration keeps the list well formed |
| Registry.RegisterThenFind | insane_striping.c:116-133 | after registration the constructor's lookup finds index 0, which holds the descriptor itself, followed by the old list |
| Registry.RegisterUnregister | insane_striping.c:921-955 | unregistering a just-registered descriptor gives the old list back with status 0 |
| Registry.UnregisterRemovesName | insane_striping.c:939-944 | in a well-formed list no entry has the name after a successful unregister |
| Registry.Registry.Lookup | insane_striping.c:116-133 | the constructor's list walk returns Find's result |
| Registry.Registry.Register | insane_striping.c:889-918 | status and new list are RegisterSpec's, and the list stays well formed |
| Registry.Registry.Unregister | insane_striping.c:921-955 | status and new list are UnregisterSpec's, and the list stays well formed |
| Rebuild.Recover | insane_striping.c:62-81 | insane_recover's trace is, for blocks 0 … dev_width / chunk_size − 1 in order, each plan's reads in list order and then its write unless write_device is −1; a null recover pointer ends it with a faulting call |
| Rebuild.RecoverBlocks | insane_striping.c:73-81 | the outer loop produces RebuildFrom's trace |
| Rebuild.IssueReads | insane_striping.c:76-78 | the inner loop issues `quantity` reads in list order (none for a non-positive quantity), reading unset entries past the list as unset |
| Rebuild.WriteEventsOf | insane_striping.c:79-80 | no write for write_device −1, a write at (write_device, write_sector) otherwise, an unset field read as unset |
| Rebuild.TidyPlanEvents | insane_striping.c:76-80 | a plan with a full read list and a set target issues exactly its reads in order, then the write unless the device is −1, and nothing else |
| Rebuild.TidyRebuildIsPlain | insane_striping.c:73-81 | when every plan is tidy the rebuild issues only reads and writes |
| Rebuild.NoRecoverFaults | insane_striping.c:303 | a scheme without recover, with at least one block per device, faults on the first call |
| Rebuild.Raid6RebuildReadsUnsetWrite | insane_striping.c:79 | raid6's rebuild of block 0 issues N−2 reads at sector 0, none on the lost block's device, then reads the unset write device |
| Rebuild.LrcPlanTidy | insane_LRC.c:182-264 | every recover_lrc plan for a device of the array is tidy |
| Rebuild.LrcRebuildIsPlain | insane_striping.c:73-81 | the rebuild of an LRC disk issues only reads and writes |
| WritePath.SeqWrites | insane_striping.c:550-555 | the first j syndrome writes, one per slot, in slot order |
| WritePath.SeqSyndromes | insane_striping.c:530-556 | insane_seq_syndromes writes all p_blocks syndromes when the chunk of the sector differs from that of sector + bi_size, and nothing otherwise |
| WritePath.FinishSyndromes | insane_striping.c:608-658 | insane_finish_syndromes reads the chunk's old data on the data device, then reads and writes each syndrome, stopping at −1 or after p_blocks |
| WritePath.Map | insane_striping.c:663-706 | insane_map translates, calls the scheme's map, and on a write dispatches the syndrome I/O by pattern; the result is MapBio's |
| WritePath.ReadsIssueNothing | insane_striping.c:694-702 | a read is only remapped and issues no syndrome I/O |
| WritePath.SequentialWriteIo | insane_striping.c:696-699 | in sequential mode a write with a set flag issues I/O exactly when the flag is true, the bio crosses a chunk and p_blocks > 0; it is then p_blocks writes at the list's slots |
| WritePath.SyndromeUpdatesOfTerminated | insane_striping.c:642-657 | on a terminated list the syndrome loop reads and writes each place, up to the marker or p slots |
| WritePath.RandomWriteIo | insane_striping.c:700-701 | outside sequential mode a write issues 1 + 2m requests: the old chunk, then read and write of each of the first m = min(places, p_blocks) syndromes |
| WritePath.AlignedIsChunkStart | insane_striping.c:635-637 | the aligned sector is the first sector of the bio's chunk |
| WritePath.Raid6RandomWrite | insane_striping.c:608-658 | a raid6 random write issues five requests: old data, then read+write on each of the two distinct syndrome devices of the row |
| WritePath.ElegantRebuiltSequentialWrite | insane_striping.c:697 | an elegant_rebuilt write in sequential mode reads the unset last_block |
| EndIo.Bump | insane_striping.c:804-808 | every counter of a device named like the failing one is raised by one, the others are kept |
| EndIo.IgnoredErrors | insane_striping.c:775-793 | success, −EOPNOTSUPP and read-ahead −EWOULDBLOCK change no counter and schedule nothing |
| EndIo.ReturnsError | insane_striping.c:775-817 | the hook always returns the error it was given |
| EndIo.CountedOnOneDevice | insane_striping.c:804-815 | with distinct names a counted error on device i raises only that counter, and schedules one event exactly when the new count is below DM_IO_ERROR_THRESHOLD |
| EndIo.UnknownDevice | insane_striping.c:804-815 | an error on a device name the target does not have changes nothing and schedules nothing |
| EndIo.EventsStopAtThreshold | insane_striping.c:809-812 | once every counter is at the threshold no further events are scheduled |
| EndIo.Devices.constructor | insane_striping.c:295 | a target's devices start with error count 0 |
| EndIo.Devices.EndIo | insane_striping.c:762-818 | the hook keeps the device names and returns the status, new counters and event count of EndIoSpec on the old counters |
| InsaneH.DeviceNumber | insane.h:70 | a slot's device number is −1 exactly for the end marker |
| InsaneH.SeqSlotIsLaneSlot | insane_LRC.c:107-122 | the sequential rule "next row when the device wrapped below the start" finds the lane k after the stripe start whenever k < N |
| InsaneH.LaneAddrInjective | insane_LRC.c:245-247 | distinct lanes are at distinct (device, sector) |
| InsaneH.LaneReadsDistinct | insane_LRC.c:241-250 | reads of distinct lanes other than the lost one are distinct blocks, none of them the lost block |
| InsaneH.PlanReadsDistinct | insane_LRC.c:241-250 | a plan reading an ascending lane list without the lost lane reads quantity distinct blocks, never the lost one |
| InsaneH.ReadLowLanes | insane_LRC.c:200-209 | the global-syndrome loop reads exactly the lanes whose entry is below 16, in lane order |
| InsaneH.ReadGroupLanes | insane_LRC.c:239-250 | the group loop reads exactly the other lanes whose entry or-ed with 0xc0 equals the lost lane's, in lane order, and ends with its counter at stripe_blocks |
| Schemes.Configure | insane_raid6.c:163-171 | configure sets ndisks to ndev, and for raid6, raid7 and raid6e stripe_blocks too; nothing else changes, and a descriptor without configure is unchanged |
| Schemes.MapOf | insane_striping.c:689 | a call through map faults exactly when map is null, and yields a placement exactly when the device count suits the scheme and the chunk size is non-zero |
| Schemes.RecoverOf | insane_striping.c:75 | a call through recover faults exactly when recover is null, and yields a plan exactly for raid6, raid6e, lrc and hashed with a non-zero chunk size and at least one device (four for raid6e) |
| Schemes.MapDeviceInRange | insane_striping.c:689-692 | every scheme maps the data block to a device below ndev, so `ctx->devs[dev_index]` is in range |
| Schemes.RecoverReached | insane_striping.c:75 | of the configured shipped descriptors (the ones the constructor builds targets with), on four or more devices, raid6, raid6e, lrc and hashed yield plans and raid7 and the elegant ones fault |
| Raid6.SyndromeP | insane_raid6.c:116-130 | the first syndrome device is left of the second, or the last device in the square's last row, and below N |
| Raid6.DataDevice | insane_raid6.c:88-101 | the p-th data device of a row is p plus local_gap (0 above the diagonal, 1 in the last row, 2 elsewhere), below N and not a syndrome device |
| Raid6.RowIsPermutation | insane_raid6.c:46-101 | in each row the data devices increase with p, the two syndrome devices differ, and every other device holds the data block its rank names |
| Raid6.MapPlacesInRow | insane_raid6.c:97-130 | `Raid6.Map` (algorithm_raid6, insane_raid6.c:18-132) puts data block device + block·N on row lane at its p-th data device with the intra-chunk offset kept; both syndromes are in that row with −1 at index 2; the flag is set in sequential mode for the row's last data block only |
| Raid6.LastBlockIff | insane_raid6.c:103-109 | device + (2 − local_gap) = N − 1 holds exactly for the last data block of the row |
| Raid6.RowPosition | insane_raid6.c:97-101 | data_block + local_gap + 2·lane is column p + local_gap of row lane |
| Raid6.Recover | insane_raid6.c:134-161 | raid6_recover's loop fills RecoverPlan: N−2 reads and no write target |
| Raid6.SkipsOnlyAt | insane_raid6.c:150-157 | the cyclic walk meets the skipped device exactly once, at step (skip − start) mod N |
| Raid6.RecoverPlanReads | insane_raid6.c:134-161 | the plan has quantity N−2 and reads N−2 distinct devices, none of them (block + device) mod N, all at sector block·chunk_size |
| Raid6.ReadDeviceSkips | insane_raid6.c:150-157 | the walk never reads the skipped device |
| Raid6.ReadDeviceInjective | insane_raid6.c:150-157 | the walk reads each device at most once |
| Raid6.RecoverPlanFits | insane_raid6.c:150-159 | the reads fit the MAX_SYNDROMES arrays exactly when N ≤ 66 |
| Raid7.DataDevice | insane_raid7.c:43-56 | the p-th data device is p plus local_gap (0, 1, 2 or 3 as the rotation says), below N and not a syndrome device |
| Raid7.RowIsPermutation | insane_raid7.c:43-93 | in each row the three syndrome devices are distinct, the data devices increase with p, and every other device holds the data block its rank names |
| Raid7.MapPlacesInRow | insane_raid7.c:54-93 | `Raid7.Map` puts data on row lane at its p-th data device with the offset kept; dev2 = N−1−Y and (dev1, dev0) as the rotation says, all three in the row with −1 at index 3; sequential mode flags exactly the row's last data block |
| Raid7.RowPosition | insane_raid7.c:54-56 | data_block + local_gap + 3·lane is column p + local_gap of row lane |
| Raid6e.DegradedBlock | insane_raid6e.c:26-53 | a spare block lies on a device below N that is not DEGRADED_DISK |
| Raid6e.DegradedBlockPlace | insane_raid6e.c:26-53 | its device is block mod (N−1), moved past DEGRADED_DISK, and its sector (len/(N−3))/N + (block/(N−1))·chunk_size |
| Raid6e.DegradedBlockInjective | insane_raid6e.c:26-53 | distinct spare block numbers get distinct spare addresses |
| Raid6e.MapAgreesWithRaid6 | insane_raid6e.c:80-152 | for `Raid6e.Map`: before relocation device, row, syndrome devices and flag are raid6's; a data block on DEGRADED_DISK, else syndrome 0, else syndrome 1 on it moves to the spare address; the data sector is the row start plus lane / N, not the intra-chunk offset |
| Raid6e.MapAvoidsDegradedDisk | insane_raid6e.c:134-148 | after relocation neither the data nor the two syndromes are on DEGRADED_DISK, all devices are below N, and −1 is at index 2 |
| Raid6e.RecoverReadsSpare | insane_raid6e.c:154-175 | the plan of `Raid6e.Recover` has quantity 1 and one read, at the spare address of N·block + device, off DEGRADED_DISK and inside the spare zone; no write target is set |
| Elegant.SequentialSlots | insane_elegant.c:64-89 | the sequential loop places the local syndromes at start_device + 5 and + 11 and the global one at + 13 mod N, one row further when the device wrapped, then −1 |
| Elegant.LaneArithmetic | insane_elegant.c:51-61 | lane_pos, local_parity and global_parity are vs·14 + pos + pos/5, vs·14 + 5 or 11, and vs·14 + 13 |
| Elegant.Map | insane_elegant.c:25-133 | algorithm_elegant computes MapSpec |
| Elegant.DataLaneInStripe | insane_elegant.c:105-114 | the data lane lies in the block's stripe, never at its places 5, 11, 12 or 13, at most five lanes before its local syndrome |
| Elegant.DataLaneInjective | insane_elegant.c:105-114 | distinct data blocks get distinct lanes |
| Elegant.MapSpecDataPlace | insane_elegant.c:120-130 | the data block is on its lane's device and row with the intra-chunk offset kept |
| Elegant.MapSpecInjective | insane_elegant.c:105-130 | distinct blocks at the same offset are placed at distinct (device, sector) |
| Elegant.SequentialSyndromesOnLanes | insane_elegant.c:64-85 | with at least 14 devices the sequential rule places each syndrome on its lane |
| Elegant.SequentialRuleOnFourDevices | insane_elegant.c:78-83 | on four devices the sequential rule puts stripe 0's global syndrome in row 0, not in its lane's row 3 |
| Elegant.LastBlockIsStripeEnd | insane_elegant.c:86-127 | with at least 14 devices the sequential flag marks exactly the last data block of each stripe; random mode never flags |
| ElegantDegraded.ReplaceFirstSpec | insane_elegant_degraded.c:150-158 | the scan rewrites exactly the first entry on the disk before −1 and below the limit, and leaves the list alone when there is none |
| ElegantDegraded.RelocateSyndrome | insane_elegant_degraded.c:149-159 | the relocation loop computes ReplaceFirst over the first p_blocks entries, with the empty lane's device and sector |
| ElegantDegraded.Map | insane_elegant_degraded.c:26-165 | algorithm_elegant_d computes elegant's placement, relocated |
| ElegantDegraded.RelocateUnaffected | insane_elegant_degraded.c:145-159 | a placement with nothing on DEGRADED_DISK is unchanged |
| ElegantDegraded.RelocateMoves | insane_elegant_degraded.c:135-162 | data on DEGRADED_DISK moves to empty lane vs·14 + 12 with its offset and syndromes kept; otherwise only the first syndrome on it moves there; flag and stripe start are the ones decided before relocation |
| ElegantDegraded.MapSpecUnaffected | insane_elegant_degraded.c:26-165 | when nothing is on DEGRADED_DISK the placement is elegant's |
| ElegantRebuilt.ExtMark | insane_elegant_rebuilt.c:53-55 | the mark is 0 or 1 |
| ElegantRebuilt.ExtMarkZones | insane_elegant_rebuilt.c:49-55 | the mark is 1 below ext_place, 0 for the next 2^31 blocks, and 1 again from ext_place + 2^31 on |
| ElegantRebuilt.MaskedSelects | insane_elegant_rebuilt.c:57-72 | EM·OD + (1 − EM)·ND is OD for EM = 1 and ND for EM = 0 |
| ElegantRebuilt.MaskedOld | insane_elegant_rebuilt.c:74-149 | with mark 1 the masked arithmetic is the old-zone placement |
| ElegantRebuilt.MaskedNew | insane_elegant_rebuilt.c:74-149 | with mark 0 it is the new-zone placement of lane ds − ext_place |
| ElegantRebuilt.MapMatchesReference | insane_elegant_rebuilt.c:44-153 | the branch-free code, `ElegantRebuilt.Map`, equals the if/else reference on the zone |
| ElegantRebuilt.MapZones | insane_elegant_rebuilt.c:83-151 | old-zone blocks land below N − EXTRA_DISKS, new-zone blocks on the new disk at lane ds − ext_place; both syndromes are on old disks, −1 at index 2, the flag unset, the offset kept |
| Lrc.DataLanes | insane_LRC.c:29-45 | the data lanes of lrc_scheme are those listed |
| Lrc.NonDataLanes | insane_LRC.c:42-43 | lrc_offset lists exactly the non-data lanes, ascending |
| Lrc.GroupLanes | insane_LRC.c:29-30 | each group's lanes are exactly those whose entry or-ed with 0xc0 is its local-syndrome code |
| Lrc.TablesAgree | insane_LRC.c:29-45 | lrc_data is the groups of the data lanes in order; lrc_ls[g] holds 0xc0 or g, lrc_gs 0xff, lrc_eb 0xee; lrc_offset the other lanes in order; lrc_ldb the last data lane |
| Lrc.SequentialSlots | insane_LRC.c:103-124 | the sequential loop places the three local syndromes and the global one from the stripe start, one row further when wrapped, then −1 |
| Lrc.LocalGap | insane_LRC.c:150-157 | the local-gap loop returns the lane of the pos-th data entry of the stripe |
| Lrc.Map | insane_LRC.c:61-179 | algorithm_lrc computes MapSpec |
| Lrc.DataLaneInStripe | insane_LRC.c:145-160 | lane_pos is the (db mod 15)-th data lane of stripe db / 15, and its entry is the block's group from lrc_data |
| Lrc.DataLaneIncreasing | insane_LRC.c:150-160 | later data blocks get strictly later lanes |
| Lrc.MapPlacesData | insane_LRC.c:160-175 | the block is on its data lane's device and row with the offset kept |
| Lrc.MapSyndromes | insane_LRC.c:94-143 | random mode lists the group's local syndrome lane and the global one, then −1 at index 2; sequential mode lists the three local syndromes, the global one, −1 at index 4, and sets the flag exactly on the device of lane lrc_ldb |
| Lrc.SequentialSyndromesOnLanes | insane_LRC.c:107-122 | with at least 20 devices the sequential rule places every syndrome on its lane |
| Lrc.GlobalSourcesAreData | insane_LRC.c:201-209 | the entries below 16 are exactly the 15 data lanes |
| Lrc.GroupTable | insane_LRC.c:237-250 | every lane but 14 and 19 belongs to one of three groups whose local-syndrome code is its entry or-ed with 0xc0, six ascending lanes each |
| Lrc.GroupSourcesShape | insane_LRC.c:237-250 | recovery of a lane other than 14 and 19 reads the five others of its group, never itself |
| Lrc.ReadDataLanes | insane_LRC.c:200-209 | the global-syndrome loop reads the data lanes of the stripe in order |
| Lrc.ReadGroup | insane_LRC.c:239-250 | the group loop reads the group's other lanes and leaves its counter at 20 |
| Lrc.Recover | insane_LRC.c:182-264 | recover_lrc computes RecoverSpec, with the exhausted counter in the write-row test |
| Lrc.RecoverGroupReads | insane_LRC.c:236-261 | recovery of any other lane reads, in lane order, the five other lanes whose entry or-ed with 0xc0 equals its own, with quantity 5 |
| Lrc.RecoverAvoidsLostBlock | insane_LRC.c:194-250 | a plan reads exactly quantity blocks, all distinct, never the lost block |
| Lrc.GlobalWriteDevice | insane_LRC.c:211-220 | with at least five devices the global syndrome's write goes to the device of the empty lane 14 |
| Lrc.GroupWriteDevice | insane_LRC.c:252-259 | with at least five devices any other lane's write device is the device of the empty lane |
| Lrc.RecoverWithTwentyDevices | insane_LRC.c:182-264 | with 20 devices every write target is device 14 of the same row |
| Lrc.RecoverReadsLocalSyndrome | insane_LRC.c:194-250 | recovering the (row, device) the map chose for a data block reads the local syndrome the map names in random mode |
| Lrc.OwnGroupHoldsLocalSyndrome | insane_LRC.c:95-96 | the group of a data lane holds that group's local syndrome, another lane |
| Lrc.LocalSyndromeRead | insane_LRC.c:236-250 | the plan for the lane of data block db reads the lane of its group's local syndrome |
| Lrc.EmptyLaneBeforeGlobal | insane_LRC.c:211-220 | the empty lane lies five lanes before the global syndrome, on the previous row when the device is below 5 |
| Hashed.Descriptor | insane_hashed.c:16-25 | p_blocks = SUBSTRIPES + GLOBAL_S and stripe_blocks = (SUBSTRIPE_DATA + 1)·SUBSTRIPES + E_BLOCKS + GLOBAL_S, with map, recover and configure set |
| Hashed.LinearRandomRange | insane_hashed.c:46-57 | below the modulus the u64 product does not wrap and each draw is (4096·s + 150889) mod 714025 < 714025 |
| Hashed.ShuffledPermutes | insane_hashed.c:59-76 | the shuffle keeps the multiset of entries |
| Hashed.FisherYates | insane_hashed.c:59-76 | the in-place loop leaves Shuffled(scheme, seed), a function of the seed and the scheme only |
| Hashed.ShuffleStep | insane_hashed.c:66-75 | each step draws, swaps entry i with entry rnd mod (i+1), and goes one position lower |
| Hashed.Exchange | insane_hashed.c:72-74 | the three assignments swap entries i and j and nothing else |
| Hashed.ClassifyLanes | insane_hashed.c:97-132 | the classification loops compute the tables: data groups in scan order, non-data lanes ascending, lanes of 0xc0..0xcf, lanes of 0xff, the last 0xee lane, and the last data lane above 0 |
| Hashed.GetStripe | insane_hashed.c:78-136 | get_stripe returns StripeOf(number), a function of the number alone |
| Hashed.RoleCount | insane_hashed.c:78-95 | every role occurs in every stripe as often as in the template |
| Hashed.StripeCounts | insane_hashed.c:27-35 | under a valid template every table of every stripe has its array's size, and every group entry is below SUBSTRIPES |
| Hashed.LowIsData | insane_hashed.c:313 | on a valid template's stripe the test "below 16" selects exactly the data lanes |
| Hashed.GroupSize | insane_hashed.c:78-95 | every group has SUBSTRIPE_DATA + 1 lanes in every stripe |
| Hashed.SequentialSlots | insane_hashed.c:189-215 | the sequential loops place the local syndrome lanes, then the global ones, from the stripe start, then −1 |
| Hashed.RandomSlots | insane_hashed.c:222-233 | the random loop places lane hashed_ls[group], then the global lanes, then −1 |
| Hashed.LocalGap | insane_hashed.c:245-252 | the local-gap loop returns the lane of the pos-th data entry of the stripe |
| Hashed.PlaceSyndromes | insane_hashed.c:186-238 | the syndrome part computes the syndrome list of the placement specification |
| Hashed.LanePosition | insane_hashed.c:240-255 | lane_pos is the data block's lane, counted over the array |
| Hashed.LastBlockFlag | insane_hashed.c:263-268 | the flag is LastFlag for the block's device |
| Hashed.Map | insane_hashed.c:141-275 | algorithm_hashed computes the placement of data block dev + block·N |
| Hashed.MapInStripe | insane_hashed.c:240-271 | once the stripe is generated the rest of algorithm_hashed computes that placement |
| Hashed.StripeSyndromes | insane_hashed.c:180-238 | the syndrome part for a stripe computes ParityOf |
| Hashed.DataLaneInStripe | insane_hashed.c:240-261 | the lane of data block db lies in stripe db / D, on that stripe's (db mod D)-th data lane, whose entry is the block's group entry |
| Hashed.DataLaneIncreasing | insane_hashed.c:245-255 | later data blocks get strictly later lanes |
| Hashed.MapPlacesData | insane_hashed.c:255-271 | the block is on its data lane's device and row with the offset kept |
| Hashed.TableRoles | insane_hashed.c:97-125 | the tables list lanes of the stripe, each with the role its table names |
| Hashed.RandomSyndromes | insane_hashed.c:181-233 | random mode lists lane hashed_ls[g] for the block's group entry g (the lane-ordered table indexed by group), then the global lanes, then −1 |
| Hashed.SequentialSyndromes | insane_hashed.c:186-215 | sequential mode lists all local then all global syndrome lanes placed by the wrap rule, then −1 |
| Hashed.SequentialSyndromesOnLanes | insane_hashed.c:193-213 | when every syndrome is fewer than N lanes after the stripe start the wrap rule places each on its own lane |
| Hashed.LastFlagLane | insane_hashed.c:217-268 | in sequential mode the flag is set exactly when the block's device is that of the stripe's last data lane |
| Hashed.FindLane | insane_hashed.c:300-307 | the GLOBAL_S loop reports whether the lane is a global syndrome lane |
| Hashed.ReadDataLanes | insane_hashed.c:310-321 | the global-syndrome loop reads the stripe's lanes with entry below 16, in order |
| Hashed.ReadGroup | insane_hashed.c:351-363 | the group loop reads the lane's other group members and leaves its counter at stripe_blocks |
| Hashed.Recover | insane_hashed.c:278-377 | recover_hashed computes RecoverSpec, regenerating the stripe from the lane's stripe number |
| Hashed.RecoverGlobalReads | insane_hashed.c:309-323 | a global syndrome is rebuilt from the stripe's data lanes, as many as quantity = stripe_blocks − GLOBAL_S − SUBSTRIPES − E_BLOCKS |
| Hashed.RecoverGroupReads | insane_hashed.c:348-374 | any other lane reads its SUBSTRIPE_DATA other group members, quantity SUBSTRIPE_DATA |
| Hashed.RecoverAvoidsLostBlock | insane_hashed.c:294-374 | with one empty block per stripe a plan reads quantity distinct blocks, never the lost one |
| Hashed.OnlyEmptyLane | insane_hashed.c:338-349 | with one empty block a lane that is neither global nor empty is a data or local-syndrome lane |
| Hashed.GlobalWriteTarget | insane_hashed.c:325-332 | when the empty lane precedes the global lane the write goes to the empty lane's block, a row earlier when the device wraps |
| Hashed.GlobalWriteOutOfRange | insane_hashed.c:325-332 | when the empty lane follows it, dev − b + eb is never reduced and can reach N, off the array |
| Hashed.GroupWriteDevice | insane_hashed.c:365-367 | with at least stripe_blocks devices any other lane's write device is that of the empty lane |
| Hashed.RecoverOfDataLane | insane_hashed.c:294-297 | recovering the lane a data block was mapped to regenerates its stripe and reads its group's other SUBSTRIPE_DATA lanes |
| LrcConfig.Sizes | lrc_config.c:1-11 | 14 = (3+1)·3 + 1 + 1 lanes, 9 = 3·3 data lanes, 5 non-data lanes, 3 local and 1 global syndrome |
| LrcConfig.GroupCount | lrc_config.c:6-7 | each group has three data lanes and its local syndrome |
| LrcConfig.DataCount | lrc_config.c:6-11 | lrc_scheme has nine data entries, at the lanes 0-2, 4-6 and 8-10 |
| LrcConfig.NonDataCount | lrc_config.c:20-21 | its five other entries are exactly the lanes lrc_offset lists, ascending |
| LrcConfig.LocalCount | lrc_config.c:16-17 | its three local-syndrome entries are exactly the lanes lrc_ls lists |
| LrcConfig.GlobalCount | lrc_config.c:13-14 | its one global-syndrome entry is the lane lrc_gs lists |
| LrcConfig.EmptyCount | lrc_config.c:18-19 | it has exactly one empty block |
| LrcConfig.TemplateValid | lrc_config.c:1-23 | the tables are a valid hashed template |
| LrcConfig.EmptyLane | lrc_config.c:18-19 | lrc_eb is the only empty lane |
| LrcConfig.LastDataLane | lrc_config.c:22-23 | lrc_ldb is the last data lane |
| LrcConfig.DataGroups | lrc_config.c:9-11 | lrc_data is lrc_scheme without its 0xcN, 0xee and 0xff entries, in order |
| LrcConfig.TablesAreClassified | lrc_config.c:6-23 | lrc_ls and lrc_gs are the lanes of 0xc0..0xc2 and 0xff in order, lrc_eb the lane of 0xee, lrc_offset their ascending union, lrc_ldb the last data lane |
| LrcConfig.LocalSyndromeLanes | lrc_config.c:16-17 | lrc_ls[g] holds group g's local syndrome |
| GetConstants.Roles | get_constants.py:33-51 | a digit d gives d − 1, s/S and digit k give 191 + k consuming both, e/E gives 0xee, anything else 0xff; a trailing or non-digit-followed s raises |
| GetConstants.GetHexScheme | get_constants.py:33-51 | the scan returns the hex of each role, or the error Roles raises |
| GetConstants.RolesOfSpelling | get_constants.py:33-51 | get_hex_scheme reads every list of role values back from its spelling |
| GetConstants.RolesOfToken | get_constants.py:33-51 | the spelling of one role value is read back as that value, whatever follows it |
| GetConstants.HexOfByte | get_constants.py:41-49 | hex of a byte is "0x" and one digit below 16, "0x" and two digits from 16 on |
| GetConstants.GetDataScheme | get_constants.py:56-63 | keeps, in order, exactly the entries whose third character is not c, e or f |
| GetConstants.GetLsPlaces | get_constants.py:65-72 | returns the ascending indices of the 0xc? entries |
| GetConstants.GetGs | get_constants.py:74-81 | returns the ascending indices of the 0xf? entries |
| GetConstants.GetOrderedOffset | get_constants.py:83-90 | the slice inserts, append and sort give OrderedOffset |
| GetConstants.OrderedOffsetContents | get_constants.py:83-90 | ordered_offset is the ascending ls ∪ gs ∪ {first 0xee index}, #ls + #gs + 1 long, and raises ValueError without an empty entry |
| GetConstants.GetLdb | get_constants.py:92-99 | returns the greatest data index, or −1 |
| GetConstants.DataAgree | get_constants.py:56-63 | get_data_scheme keeps the hex of the data bytes, in lane order |
| GetConstants.PlacesAgree | get_constants.py:65-81 | get_ls_places and get_gs list the lanes of the local and global syndrome bytes |
| GetConstants.OffsetsAgree | get_constants.py:83-90 | with exactly one empty block ordered_offset lists the non-data lanes ascending |
| GetConstants.LastDataSlot | get_constants.py:92-99 | get_ldb finds the last data lane, or −1 when there is none |
| GetConstants.PrintArray | get_constants.py:20-28 | a non-empty list prints as '{' + items joined by ', ' + '};\n' |
| GetConstants.Defines | get_constants.py:4-17 | the four #define lines count s/S, the 1s less one, e/E and g/G |
| GetConstants.DefinesCountRoles | get_constants.py:4-17 | on a spelling, those counts are the local syndromes, the group-0 entries less one, the empty blocks and the global syndromes |
| GetConstants.HexLead | get_constants.py:60-61 | the third character of hex(v) classifies v as the C code's role tests do |
| GetConstants.GeneratedTables | get_constants.py:56-99 | for byte-sized roles the printed tables are the C layout's derived tables, including −1 for no data lane |
| GetConstants.Constants | get_constants.py:104-141 | constants emits each table with its comment line, or the error get_hex_scheme or index raises |
| GetConstants.FileText | get_constants.py:150-154 | make_file writes the defines followed by the constants |
| GetConstants.ConstantsOfRoles | get_constants.py:104-141 | with one empty block the tables constants writes are the classification of the roles |
| GetConstants.RolesOfLrcScheme | get_constants.py:33-51 | "111s1222s2333s3eg" is read as the role table of lrc_config.c |
| GetConstants.HexOfLrcScheme | get_constants.py:33-51 | get_hex_scheme spells "111s1222s2333s3eg" as the hex entries of lrc_config.c's role table |
| GetConstants.LrcSchemeCounts | get_constants.py:4-17 | in that string each of 1, 2 and 3 occurs four times, s three times, e and g once, and no other letter |
| GetConstants.DefinesOfLrcScheme | get_constants.py:4-17 | defines writes lrc_config.c's four #define lines for that string |
| GetConstants.ConstantsOfLrcScheme | get_constants.py:104-141 | constants writes lrc_config.c's tables for that string |
| Layout.GapFindsDataSlot | insane_LRC.c:150-157 | stepping over the ascending non-data lanes at or before the running position turns data index pos into the pos-th data lane |
| Bits.PowerOfTwoTest | insane_striping.c:184 | x & (x − 1) = 0 exactly for the powers of two |
| Bits.FfsPow2 | insane_striping.c:222 | a power of two is 2 to its __ffs |
| Bits.AndLowMask | insane_striping.c:341 | masking with 2^k − 1 is the remainder modulo 2^k |
| Bits.ShrDiv | insane_striping.c:342 | a right shift by k divides by 2^k |
| Bits.ShlMul | insane_striping.c:364 | a left shift by k multiplies by 2^k |

## Left out

- **Kernel and device-mapper plumbing.** These are foreign calls: do_bio and its bio and page allocation, insane_bi_end_io, submit_bio, dm_get_device/dm_put_device, insane_dtr, insane_merge, insane_io_hints, insane_iterate_devices, insane_status, the trigger_event work item, module init and exit.
  - A `do_bio` becomes a trace event.
  - A scheduled event is a count.
- **insane_map_special and the flush bio routing.** Only insane_map_range, which that routing calls for discards and write-same, is modelled.
- **Locking.**
  - The alg_list spinlock and the atomic error counters are concurrency. The registry and the counters are modelled sequentially.
  - The -EEXIST path of insane_register returns with the lock held (insane_striping.c:907-911). The model does not capture this.
- **Atomic counter overflow.** Error counters are unbounded naturals. A counter wrapping past 2^31 is out of scope.
- **Construction failures that come from the kernel** are not modelled: -ENOMEM from alloc_context, -EFAULT from try_module_get, -ENXIO from dm_get_device, and dm_set_target_max_io_len.
- **chunk_size_bytes, chunk_size_pages and the bio sizes passed to do_bio.** The trace records a device and a sector per request only.
- **Construct.Setup** does not follow a target whose 32-bit device count, chunk size or recovering disk is negative. It stops with `Unmodelled`.
- **Null list entries.** The registry walks skip null entries. A sequence of descriptors has none.
- **Registry.Registry.Unregister** removes the first entry whose name matches. The source unlinks the descriptor it was handed (`list_del(&alg->list)`). The two differ only when a different descriptor of the same name is passed.
- **The header's recover_stripe.** It has only `quantity`, `read_dev` and `read_sector` (insane.h:77-82). The model gives the plan the read devices and the write fields the planners use.
- **MAX_SYNDROMES.** Parity lists and read lists are sequences, not 64-entry arrays. Only raid6's read list is measured against the bound (`Raid6.RecoverPlanFits`).
- **Syndrome contents.** The driver computes none; it writes garbage.
- **Sector units in insane_seq_syndromes.** The test adds the bio's size in bytes to a sector number. The model keeps that mix of units as written.
- **The hashed template.** It comes from a hashed.c file outside this model. It is a parameter constrained by `Layout.ValidTemplate`, and `LrcConfig` is the concrete instance.
- **Debug-only state:**
  - the rslts statistics array and print_stripe in insane_hashed.c;
  - dm_log/dm_debug output;
  - the timing and printk of insane_recover.
- **get_constants.py I/O.** get_scheme reads the console and make_file writes a file. make_file's text is modelled as `GetConstants.FileText`; the writing is not.
- **parse.py.** It is a benchmark driver of subprocesses and files, and its scheme helpers copy get_constants.py.
- **Undefined behaviour.** Reading unset fields or array entries, a null function pointer, a device count too small for a scheme's arithmetic (division by zero, a device count wrapping below zero), and a divide-by-zero in the length computation all appear as dedicated trace events or outcomes. The model does not follow what such a request or call does. After a `Garbage` event it continues with the source's next step, while `NullCall`, `Unfollowed`, `DivideError` and `Unmodelled` end the trace or the outcome. The device-count cut-off for `map` (`Schemes.MinDevices`: 3 for raid6, 4 for raid7 and raid6e, 2 for elegant_rebuilt) is separate from the one for `recover` (`Schemes.RecoverMinDevices`: 4 for raid6e, 1 otherwise), so raid6_recover on two devices is followed.
- **Schemes.Configure** does not model a null context (every configure function returns -EINVAL for it), because the constructor always passes one.
- **Hashed.LinearRandomRange** is stated below the modulus only. A caller-supplied seed of 2^64 / 4096 or more, where the product wraps, is not related to the unwrapped formula.
- **Lrc.GroupWriteDevice, Hashed.GroupWriteDevice, Lrc.GlobalWriteDevice:** these describe the write device and row only for at least as many devices as the stated bound, and without u64 wrap-around of the device expressions.
- **The one global descriptor per scheme.** Every scheme module keeps `ndisks` and `stripe_blocks` in a single global descriptor (for example `raid6_alg`, insane_raid6.c:7, 168-169), which its `map` reads (insane_raid6.c:34). Two targets of the same scheme share it, and the last `configure` wins for both. The model gives every call the target's own device count, so it does not capture that sharing.
- **Fields missing from the header.** `struct insane_c` (insane.h:29-52) has no `recovering_disk`, yet insane_striping.c:65 and :212 use one, and insane_raid6.c:139 reads a `ctx->raid6_alg` that does not exist either. The model's `Context` has a `recoveringDisk` field, and raid6's recovery reads the target's device count, as the evident intent of those lines.
- **GetConstants.Roles** takes scheme strings as ASCII. Python's `str.isdigit()` and `int()` (get_constants.py:40-44) also accept other Unicode digits, such as '٣', and the two disagree on characters such as '²', which `isdigit()` accepts and `int()` rejects with ValueError. The model treats every character outside '0'-'9' as the global-syndrome letter.
- **64-bit products.** Sector products such as block × chunk_size and row × chunk_size are unbounded naturals, not wrapped to u64. No sector of a target whose length fits in a `sector_t` reaches 2^64.
