/**
 * The elegant layout with disk DEGRADED_DISK failed: a data block that
 * would land on it goes to its stripe's empty lane instead, and otherwise
 * the first syndrome that would land on it does.
 */
module ElegantDegraded {
  import opened Wrappers
  import opened InsaneH
  import opened Arith
  import Elegant

  const DEGRADED_DISK: nat := 1

  /** The descriptor; `configure` fills in only `ndisks`, and there is no recovery function. */
  const Descriptor: Algorithm :=
    Algorithm("elegant_degraded", 0, Elegant.STRIPE_BLOCKS, Elegant.P_BLOCKS, Elegant.E_BLOCKS,
              Some(Scheme.ElegantDegraded), Some(Scheme.ElegantDegraded), None)

  /**
   * The scan of the syndrome list from index `from` up to `limit`: it stops
   * at the end marker, and replaces the first entry on `disk` by `moved`.
   */
  function ReplaceFirst(slots: seq<Slot>, from: nat, limit: nat, disk: nat, moved: Slot): seq<Slot>
    decreases limit - from
  {
    if from >= limit || from >= |slots| then slots
    else if slots[from].End? then slots
    else if slots[from].device == disk then slots[from := moved]
    else ReplaceFirst(slots, from + 1, limit, disk, moved)
  }

  /** A syndrome entry placed on `disk`. */
  predicate OnDisk(s: Slot, disk: nat)
  {
    s.Place? && s.device == disk
  }

  /** Entry `j` is the first entry on `disk` the scan from `from` reaches before the end marker. */
  predicate FirstOnDisk(slots: seq<Slot>, from: nat, j: int, disk: nat)
  {
    from <= j < |slots| && OnDisk(slots[j], disk)
    && forall k :: from <= k < j ==> slots[k].Place? && !OnDisk(slots[k], disk)
  }

  /**
   * The scan rewrites exactly the first entry on `disk` that comes before
   * the end marker and below `limit`, and leaves the list alone when there
   * is none.
   */
  lemma {:induction false} ReplaceFirstSpec(slots: seq<Slot>, from: nat, limit: nat, disk: nat, moved: Slot)
    ensures |ReplaceFirst(slots, from, limit, disk, moved)| == |slots|
    ensures forall j :: FirstOnDisk(slots, from, j, disk) && j < limit ==>
      ReplaceFirst(slots, from, limit, disk, moved) == slots[j := moved]
    ensures (forall j :: FirstOnDisk(slots, from, j, disk) ==> j >= limit) ==>
      ReplaceFirst(slots, from, limit, disk, moved) == slots
    decreases limit - from
  {
    if from >= limit || from >= |slots| {
    } else if slots[from].End? {
      forall j | FirstOnDisk(slots, from, j, disk) && j < limit ensures false {
      }
    } else if slots[from].device == disk {
      assert FirstOnDisk(slots, from, from, disk);
      forall j | FirstOnDisk(slots, from, j, disk) ensures j == from {
      }
    } else {
      var next := from + 1;
      ReplaceFirstSpec(slots, next, limit, disk, moved);
      forall j | FirstOnDisk(slots, from, j, disk) ensures FirstOnDisk(slots, next, j, disk) {
      }
      forall j | FirstOnDisk(slots, next, j, disk) ensures FirstOnDisk(slots, from, j, disk) {
      }
      if forall j :: FirstOnDisk(slots, from, j, disk) ==> j >= limit {
        assert forall j :: FirstOnDisk(slots, next, j, disk) ==> j >= limit;
      }
    }
  }

  /**
   * The relocation applied to a placement `e` whose stripe has empty lane
   * `empty`: a data block on DEGRADED_DISK moves to the empty lane with its
   * offset `sector mod chunk` kept; otherwise the first of the first three
   * syndromes on DEGRADED_DISK moves there.
   */
  function Relocate(e: MapResult, n: nat, chunk: nat, sector: nat, empty: nat): MapResult
    requires n > 0 && chunk > 0
  {
    if e.device == DEGRADED_DISK then
      var a := LaneAddr(empty, n, chunk);
      e.(device := a.device, sector := a.sector + sector % chunk)
    else
      e.(parity := e.parity.(slots := ReplaceFirst(e.parity.slots, 0, Elegant.P_BLOCKS, DEGRADED_DISK,
                                                   LaneSlot(empty, n, chunk))))
  }

  /** The placement algorithm_elegant_d computes: elegant's placement, relocated. */
  function MapSpec(n: nat, chunk: nat, pattern: nat, block: nat, sector: nat, dev: nat): MapResult
    requires n > 0 && chunk > 0
  {
    Relocate(Elegant.MapSpec(n, chunk, pattern, block, sector, dev), n, chunk, sector,
             Elegant.EmptyLane(dev + block * n))
  }

  /** The relocation loop: scan the first P_BLOCKS entries, stop at the end marker or after moving one. */
  method RelocateSyndrome(slots: seq<Slot>, n: nat, chunk: nat, emptyPos: nat) returns (r: seq<Slot>)
    requires n > 0 && |slots| >= Elegant.P_BLOCKS
    ensures r == ReplaceFirst(slots, 0, Elegant.P_BLOCKS, DEGRADED_DISK, LaneSlot(emptyPos, n, chunk))
  {
    r := slots;
    for i := 0 to Elegant.P_BLOCKS
      invariant r == slots
      invariant ReplaceFirst(slots, 0, Elegant.P_BLOCKS, DEGRADED_DISK, LaneSlot(emptyPos, n, chunk))
        == ReplaceFirst(slots, i, Elegant.P_BLOCKS, DEGRADED_DISK, LaneSlot(emptyPos, n, chunk))
    {
      if slots[i].End? {
        break;
      } else if slots[i].device == DEGRADED_DISK {
        r := slots[i := Place(Mod(emptyPos, n), Mul(Div(emptyPos, n), chunk))];
        break;
      }
    }
  }

  /** algorithm_elegant_d: elegant's placement, then the relocation. */
  method Map(n: nat, chunk: nat, pattern: nat, block: nat, sector: nat, dev: nat) returns (r: MapResult)
    requires n > 0 && chunk > 0
    ensures r == MapSpec(n, chunk, pattern, block, sector, dev)
  {
    r := Elegant.Map(n, chunk, pattern, block, sector, dev);
    var dataBlock := dev + Mul(block, n);
    var virtualStripe := dataBlock / Elegant.STRIPE_DATA;
    var vsPosition := dataBlock % Elegant.STRIPE_DATA;
    var emptyPos := (virtualStripe + 1) * Elegant.STRIPE_BLOCKS - 1 - 1;
    if r.device == DEGRADED_DISK {
      var globalGap := virtualStripe * (Elegant.SUBSTRIPES + Elegant.E_BLOCKS + 1);
      var lanePos := dataBlock + globalGap - vsPosition + (Elegant.SUBSTRIPE_DATA + 1) * Elegant.SUBSTRIPES;
      assert lanePos == emptyPos;
      r := r.(device := Mod(lanePos, n), sector := Mul(Div(lanePos, n), chunk) + Mod(sector, chunk));
    } else {
      var slots := RelocateSyndrome(r.parity.slots, n, chunk, emptyPos);
      r := r.(parity := r.parity.(slots := slots));
    }
  }

  /** A placement with nothing on DEGRADED_DISK is left as it is. */
  lemma RelocateUnaffected(e: MapResult, n: nat, chunk: nat, sector: nat, empty: nat)
    requires n > 0 && chunk > 0
    requires e.device != DEGRADED_DISK
    requires forall k :: 0 <= k < |e.parity.slots| ==> !OnDisk(e.parity.slots[k], DEGRADED_DISK)
    ensures Relocate(e, n, chunk, sector, empty) == e
  {
    ReplaceFirstSpec(e.parity.slots, 0, Elegant.P_BLOCKS, DEGRADED_DISK, LaneSlot(empty, n, chunk));
  }

  /**
   * A data block on DEGRADED_DISK moves to the empty lane, keeping its
   * offset and the syndromes; otherwise the data block stays and the first
   * syndrome on DEGRADED_DISK, if any, takes the empty lane. The flag and
   * the stripe start are untouched, so the flag is the one decided before
   * relocation.
   */
  lemma RelocateMoves(e: MapResult, n: nat, chunk: nat, sector: nat, empty: nat)
    requires n > 0 && chunk > 0
    ensures var r := Relocate(e, n, chunk, sector, empty);
      && r.parity.lastBlock == e.parity.lastBlock
      && r.parity.startDevice == e.parity.startDevice && r.parity.startSector == e.parity.startSector
      && (e.device == DEGRADED_DISK ==>
            r.device == empty % n && r.sector / chunk == empty / n && r.sector % chunk == sector % chunk
            && r.parity.slots == e.parity.slots)
      && (e.device != DEGRADED_DISK ==>
            r.device == e.device && r.sector == e.sector
            && (forall j :: FirstOnDisk(e.parity.slots, 0, j, DEGRADED_DISK) && j < Elegant.P_BLOCKS ==>
                  r.parity.slots == e.parity.slots[j := Place(empty % n, (empty / n) * chunk)])
            && ((forall j :: FirstOnDisk(e.parity.slots, 0, j, DEGRADED_DISK) ==> j >= Elegant.P_BLOCKS) ==>
                  r.parity.slots == e.parity.slots))
  {
    ReplaceFirstSpec(e.parity.slots, 0, Elegant.P_BLOCKS, DEGRADED_DISK, LaneSlot(empty, n, chunk));
    OffsetKept(empty / n, chunk, sector);
  }

  /** When neither the data block nor any syndrome is on DEGRADED_DISK, the placement is elegant's. */
  lemma MapSpecUnaffected(n: nat, chunk: nat, pattern: nat, block: nat, sector: nat, dev: nat)
    requires n > 0 && chunk > 0
    requires var e := Elegant.MapSpec(n, chunk, pattern, block, sector, dev);
      e.device != DEGRADED_DISK
      && forall k :: 0 <= k < |e.parity.slots| ==> !OnDisk(e.parity.slots[k], DEGRADED_DISK)
    ensures MapSpec(n, chunk, pattern, block, sector, dev) == Elegant.MapSpec(n, chunk, pattern, block, sector, dev)
  {
    RelocateUnaffected(Elegant.MapSpec(n, chunk, pattern, block, sector, dev), n, chunk, sector,
                       Elegant.EmptyLane(dev + block * n));
  }
}
