/**
 * RAID-6E: the RAID-6 square with a spare zone at the end of every device.
 * Disk DEGRADED_DISK is taken to have failed; whichever of the data block
 * and its two syndromes would land on it is moved into the spare zone of
 * another device.
 */
module Raid6e {
  import opened Wrappers
  import opened InsaneH
  import opened Arith
  import Raid6

  const DEGRADED_DISK: nat := 1
  const P_BLOCKS: nat := 2
  const E_BLOCKS: nat := 1

  const Descriptor: Algorithm :=
    Algorithm("raid6e", 0, 0, P_BLOCKS, E_BLOCKS, Some(Scheme.Raid6e), Some(Scheme.Raid6e), Some(Scheme.Raid6e))

  /**
   * get_degraded_block: spare-zone block number `block` is spread over the
   * N-1 surviving devices (skipping DEGRADED_DISK), `block / (N-1)` blocks
   * into the spare zone, which starts `(len / (N-3)) / N` sectors into
   * every device.
   */
  function DegradedBlock(block: nat, n: nat, chunk: nat, len: nat): (a: Addr)
    requires n >= 4
    ensures a.device < n && a.device != DEGRADED_DISK
  {
    var blockPos := Div(block, n - 1);
    var device := Mod(block, n - 1);
    var device' := if device >= DEGRADED_DISK then device + 1 else device;
    var zone := Div(Div(len, n - 3), n);
    Addr(device', zone + Mul(blockPos, chunk))
  }

  /** The spare zone's start: one device's share of the target, `(len / (N-3)) / N`. */
  function SpareZoneStart(n: nat, len: nat): nat
    requires n >= 4
  {
    (len / (n - 3)) / n
  }

  /**
   * The spare block of `block` is device `block mod (N-1)`, moved past
   * DEGRADED_DISK, at row `block / (N-1)` of the spare zone.
   */
  lemma DegradedBlockPlace(block: nat, n: nat, chunk: nat, len: nat)
    requires n >= 4
    ensures var a := DegradedBlock(block, n, chunk, len);
      && a.device == (if block % (n - 1) >= DEGRADED_DISK then block % (n - 1) + 1 else block % (n - 1))
      && a.sector == SpareZoneStart(n, len) + (block / (n - 1)) * chunk
  {
  }

  /** Distinct spare-zone block numbers get distinct spare addresses. */
  lemma DegradedBlockInjective(b1: nat, b2: nat, n: nat, chunk: nat, len: nat)
    requires n >= 4 && chunk > 0 && b1 != b2
    ensures DegradedBlock(b1, n, chunk, len) != DegradedBlock(b2, n, chunk, len)
  {
    var q1, q2 := b1 / (n - 1), b2 / (n - 1);
    if b1 % (n - 1) == b2 % (n - 1) {
      assert b1 == q1 * (n - 1) + b1 % (n - 1) && b2 == q2 * (n - 1) + b2 % (n - 1);
      assert q1 != q2;
      if q1 < q2 { MulStrict(q1, q2, chunk); } else { MulStrict(q2, q1, chunk); }
    }
  }

  /** algorithm_raid6e. */
  function Map(n: nat, chunk: nat, pattern: nat, len: nat, block: nat, sector: nat, dev: nat): MapResult
    requires n >= 4 && chunk > 0
  {
    var dataBlock: nat := dev + block * n;
    var lane := Div(dataBlock, n - P_BLOCKS);
    var position := Mod(dataBlock, n - P_BLOCKS);
    var i := Div(lane, n);
    var y := Mod(lane, n);
    var localGap := Raid6.LocalGap(n, position, y);
    var remapped := dataBlock + localGap + P_BLOCKS * lane;
    var device := Mod(remapped, n);
    var row := Div(remapped, n);
    var lastBlock := pattern == SEQUENTIAL && device + (2 - localGap) == n - 1;
    var blockStart := row * chunk;
    var q := n - 1 - y;
    var p := if y < n - 1 then q - 1 else n - 1;
    var spare := DegradedBlock(row, n, chunk, len);
    if device == DEGRADED_DISK then
      MapResult(spare.device, spare.sector + i,
                ParityPlaces([Place(p, blockStart), Place(q, blockStart), End], 0, blockStart, Some(lastBlock)))
    else if p == DEGRADED_DISK then
      MapResult(device, blockStart + i,
                ParityPlaces([Place(spare.device, spare.sector), Place(q, blockStart), End], 0, blockStart, Some(lastBlock)))
    else if q == DEGRADED_DISK then
      MapResult(device, blockStart + i,
                ParityPlaces([Place(p, blockStart), Place(spare.device, spare.sector), End], 0, blockStart, Some(lastBlock)))
    else
      MapResult(device, blockStart + i,
                ParityPlaces([Place(p, blockStart), Place(q, blockStart), End], 0, blockStart, Some(lastBlock)))
  }

  /**
   * Before relocation the placement is RAID-6's: the same device, the same
   * syndromes and the same flag; the data sector is the row's start plus
   * `lane / N`, not the offset within the chunk.
   */
  lemma MapAgreesWithRaid6(n: nat, chunk: nat, pattern: nat, len: nat, block: nat, sector: nat, dev: nat)
    requires n >= 4 && chunk > 0
    ensures var r := Map(n, chunk, pattern, len, block, sector, dev);
      var r6 := Raid6.Map(n, chunk, pattern, block, sector, dev);
      var lane := (dev + block * n) / (n - 2);
      var spare := DegradedBlock(lane, n, chunk, len);
      var s := r6.parity.slots;
      && r.parity.startDevice == r6.parity.startDevice && r.parity.startSector == r6.parity.startSector
      && r.parity.lastBlock == r6.parity.lastBlock
      && (if r6.device == DEGRADED_DISK then
            r.device == spare.device && r.sector == spare.sector + lane / n && r.parity.slots == s
          else if s[0].device == DEGRADED_DISK then
            r.device == r6.device && r.sector == r6.parity.startSector + lane / n
            && r.parity.slots == s[0 := Place(spare.device, spare.sector)]
          else if s[1].device == DEGRADED_DISK then
            r.device == r6.device && r.sector == r6.parity.startSector + lane / n
            && r.parity.slots == s[1 := Place(spare.device, spare.sector)]
          else
            r.device == r6.device && r.sector == r6.parity.startSector + lane / n && r.parity.slots == s)
  {
    var db := dev + block * n;
    var lane, p := db / (n - 2), db % (n - 2);
    var y := lane % n;
    Raid6.RowPosition(db, n, lane, p, Raid6.LocalGap(n, p, y));
    Raid6.MapPlacesInRow(n, chunk, pattern, block, sector, dev);
  }

  /**
   * After relocation nothing is left on DEGRADED_DISK, all devices are in
   * range, and the list keeps its two syndromes and its end marker.
   */
  lemma MapAvoidsDegradedDisk(n: nat, chunk: nat, pattern: nat, len: nat, block: nat, sector: nat, dev: nat)
    requires n >= 4 && chunk > 0
    ensures var r := Map(n, chunk, pattern, len, block, sector, dev);
      && r.device < n && r.device != DEGRADED_DISK
      && |r.parity.slots| == 3 && Terminated(r.parity.slots)
      && r.parity.slots[0].device < n && r.parity.slots[0].device != DEGRADED_DISK
      && r.parity.slots[1].device < n && r.parity.slots[1].device != DEGRADED_DISK
  {
    var db := dev + block * n;
    var lane, p := db / (n - 2), db % (n - 2);
    var y := lane % n;
    Raid6.RowPosition(db, n, lane, p, Raid6.LocalGap(n, p, y));
    Raid6.RowIsPermutation(n, y);
  }

  /** raid6e_recover: a single read, of the spare block of `N * block + device`; no write target is set. */
  function Recover(n: nat, chunk: nat, len: nat, block: nat, dev: nat): (plan: RecoverStripe)
    requires n >= 4
  {
    var spare := DegradedBlock(n * block + dev, n, chunk, len);
    RecoverStripe(1, [Addr(spare.device, spare.sector)], None, None)
  }

  /** The recovery plan reads one surviving device, inside the spare zone. */
  lemma RecoverReadsSpare(n: nat, chunk: nat, len: nat, block: nat, dev: nat)
    requires n >= 4
    ensures var plan := Recover(n, chunk, len, block, dev);
      && plan.quantity == 1 == |plan.sources|
      && plan.sources[0] == DegradedBlock(n * block + dev, n, chunk, len)
      && plan.sources[0].device != DEGRADED_DISK
      && plan.sources[0].sector >= SpareZoneStart(n, len)
      && plan.writeDevice.None?
  {
  }
}
