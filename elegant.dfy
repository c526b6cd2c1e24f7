/**
 * The "elegant" LRC placement. Data blocks are grouped ten at a time into
 * virtual stripes of 14 lanes:
 *
 *   lanes 0-4 data, 5 local syndrome, 6-10 data, 11 local syndrome,
 *   12 empty, 13 global syndrome,
 *
 * and lanes are laid out row by row over the N devices.
 */
module Elegant {
  import opened Wrappers
  import opened InsaneH
  import opened Arith

  const SUBSTRIPES: nat := 2
  const SUBSTRIPE_DATA: nat := 5
  const E_BLOCKS: nat := 1
  const P_BLOCKS: nat := SUBSTRIPES + 1
  const STRIPE_BLOCKS: nat := (SUBSTRIPE_DATA + 1) * SUBSTRIPES + E_BLOCKS + 1
  /** Data blocks per virtual stripe. */
  const STRIPE_DATA: nat := SUBSTRIPE_DATA * SUBSTRIPES

  /** The descriptor; `configure` fills in only `ndisks`, and there is no recovery function. */
  const Descriptor: Algorithm :=
    Algorithm("elegant", 0, STRIPE_BLOCKS, P_BLOCKS, E_BLOCKS, Some(Scheme.Elegant), Some(Scheme.Elegant), None)

  /** The lane of data block `db`: skip four non-data lanes per earlier stripe and one after the first substripe. */
  function DataLane(db: nat): nat
  {
    STRIPE_BLOCKS * (db / STRIPE_DATA) + db % STRIPE_DATA + (db % STRIPE_DATA) / SUBSTRIPE_DATA
  }

  /** The lane of the local syndrome of `db`'s substripe. */
  function LocalSyndromeLane(db: nat): nat
  {
    STRIPE_BLOCKS * (db / STRIPE_DATA) + (if db % STRIPE_DATA < SUBSTRIPE_DATA then 5 else 11)
  }

  /** The lane of the global syndrome of `db`'s stripe. */
  function GlobalSyndromeLane(db: nat): nat
  {
    STRIPE_BLOCKS * (db / STRIPE_DATA) + 13
  }

  /** The stripe's empty lane. */
  function EmptyLane(db: nat): nat
  {
    STRIPE_BLOCKS * (db / STRIPE_DATA) + 12
  }

  /** The first lane of `db`'s stripe. */
  function StripeStart(db: nat): nat
  {
    STRIPE_BLOCKS * (db / STRIPE_DATA)
  }

  /**
   * The placement algorithm_elegant computes. The data block goes to its
   * lane. In random mode the syndrome list holds the lanes of the local and
   * the global syndrome; in sequential mode it holds both local syndromes
   * and the global one, placed by the "next row once the device wrapped"
   * rule from the stripe's first lane, and the flag marks the block on the
   * device of lane 10 of the stripe.
   */
  function MapSpec(n: nat, chunk: nat, pattern: nat, block: nat, sector: nat, dev: nat): MapResult
    requires n > 0 && chunk > 0
  {
    var db := dev + block * n;
    var data := LaneAddr(DataLane(db), n, chunk);
    var start := LaneAddr(StripeStart(db), n, chunk);
    if pattern == SEQUENTIAL then
      MapResult(data.device, data.sector + sector % chunk,
                ParityPlaces([SeqSlot(start.device, start.sector, 5, n, chunk),
                              SeqSlot(start.device, start.sector, 11, n, chunk),
                              SeqSlot(start.device, start.sector, 13, n, chunk), End],
                             start.device, start.sector, Some(data.device == (start.device + 10) % n)))
    else
      MapResult(data.device, data.sector + sector % chunk,
                ParityPlaces([LaneSlot(LocalSyndromeLane(db), n, chunk), LaneSlot(GlobalSyndromeLane(db), n, chunk), End],
                             start.device, start.sector, Some(false)))
  }

  /**
   * The sequential-mode syndrome list: the loop places the two local
   * syndromes, lanes 5 and 11 after the stripe start, then the global one,
   * lane 13, each with the "next row once the device wrapped" rule.
   */
  method SequentialSlots(n: nat, chunk: nat, startDevice: nat, startSector: nat) returns (slots: seq<Slot>)
    requires n > 0
    ensures slots == [SeqSlot(startDevice, startSector, 5, n, chunk), SeqSlot(startDevice, startSector, 11, n, chunk),
                      SeqSlot(startDevice, startSector, 13, n, chunk), End]
  {
    slots := [];
    for i := 0 to P_BLOCKS - 1
      invariant |slots| == i
      invariant forall k :: 0 <= k < i ==> slots[k] == SeqSlot(startDevice, startSector, SUBSTRIPE_DATA + k * (SUBSTRIPE_DATA + 1), n, chunk)
    {
      var d := Mod(startDevice + SUBSTRIPE_DATA + i * (SUBSTRIPE_DATA + 1), n);
      slots := slots + [Place(d, if d < startDevice then startSector + chunk else startSector)];
    }
    var d := Mod(startDevice + STRIPE_BLOCKS - 1, n);
    slots := slots + [Place(d, if d < startDevice then startSector + chunk else startSector), End];
  }

  /** The lane arithmetic of algorithm_elegant, in terms of the stripe layout. */
  lemma LaneArithmetic(db: nat)
    ensures (db / STRIPE_DATA) * STRIPE_BLOCKS + ((db % STRIPE_DATA) / SUBSTRIPE_DATA + 1) * (SUBSTRIPE_DATA + 1) - 1
      == LocalSyndromeLane(db)
    ensures (db / STRIPE_DATA + 1) * STRIPE_BLOCKS - 1 == GlobalSyndromeLane(db)
    ensures (db / STRIPE_DATA) * STRIPE_BLOCKS == StripeStart(db)
    ensures db + (db / STRIPE_DATA) * (SUBSTRIPES + E_BLOCKS + 1) + (db % STRIPE_DATA) / SUBSTRIPE_DATA == DataLane(db)
  {
  }

  /** algorithm_elegant, step by step. */
  method Map(n: nat, chunk: nat, pattern: nat, block: nat, sector: nat, dev: nat) returns (r: MapResult)
    requires n > 0 && chunk > 0
    ensures r == MapSpec(n, chunk, pattern, block, sector, dev)
  {
    var dataBlock := dev + Mul(block, n);
    LaneArithmetic(dataBlock);
    var virtualStripe := dataBlock / STRIPE_DATA;
    var vsPosition := dataBlock % STRIPE_DATA;
    var localParity := virtualStripe * STRIPE_BLOCKS + (vsPosition / SUBSTRIPE_DATA + 1) * (SUBSTRIPE_DATA + 1) - 1;
    var globalParity := (virtualStripe + 1) * STRIPE_BLOCKS - 1;
    var startLane := virtualStripe * STRIPE_BLOCKS;
    var startDevice := Mod(startLane, n);
    var startSector := Mul(Div(startLane, n), chunk);
    var slots: seq<Slot>;
    var lastBlock := 0;
    if pattern == SEQUENTIAL {
      slots := SequentialSlots(n, chunk, startDevice, startSector);
      lastBlock := Mod(startDevice + STRIPE_BLOCKS - 4, n);
    } else {
      slots := [Place(Mod(localParity, n), Mul(Div(localParity, n), chunk)),
                Place(Mod(globalParity, n), Mul(Div(globalParity, n), chunk)), End];
    }
    var globalGap := virtualStripe * (SUBSTRIPES + E_BLOCKS + 1);
    var localGap := vsPosition / SUBSTRIPE_DATA;
    var lanePos := dataBlock + globalGap + localGap;
    var device := Mod(lanePos, n);
    r := MapResult(device, Mul(Div(lanePos, n), chunk) + Mod(sector, chunk),
                   ParityPlaces(slots, startDevice, startSector, Some(pattern == SEQUENTIAL && device == lastBlock)));
  }

  /**
   * A data lane lies in the block's own stripe and is never one of the
   * stripe's syndrome or empty lanes; it sits before its local syndrome,
   * at most five lanes before it.
   */
  lemma DataLaneInStripe(db: nat)
    ensures DataLane(db) / STRIPE_BLOCKS == db / STRIPE_DATA
    ensures var k := DataLane(db) % STRIPE_BLOCKS; k != 5 && k != 11 && k != 12 && k != 13
    ensures DataLane(db) < LocalSyndromeLane(db) <= DataLane(db) + SUBSTRIPE_DATA
    ensures LocalSyndromeLane(db) % STRIPE_BLOCKS == (if db % STRIPE_DATA < SUBSTRIPE_DATA then 5 else 11)
    ensures GlobalSyndromeLane(db) % STRIPE_BLOCKS == 13 && EmptyLane(db) % STRIPE_BLOCKS == 12
  {
    var vs, pos := db / STRIPE_DATA, db % STRIPE_DATA;
    DivModUnique(DataLane(db), STRIPE_BLOCKS, vs, pos + pos / SUBSTRIPE_DATA);
    DivModUnique(LocalSyndromeLane(db), STRIPE_BLOCKS, vs, if pos < SUBSTRIPE_DATA then 5 else 11);
    DivModUnique(GlobalSyndromeLane(db), STRIPE_BLOCKS, vs, 13);
    DivModUnique(EmptyLane(db), STRIPE_BLOCKS, vs, 12);
  }

  /** Distinct data blocks get distinct lanes. */
  lemma DataLaneInjective(db1: nat, db2: nat)
    requires db1 != db2
    ensures DataLane(db1) != DataLane(db2)
  {
    DataLaneInStripe(db1);
    DataLaneInStripe(db2);
    var vs1, pos1 := db1 / STRIPE_DATA, db1 % STRIPE_DATA;
    var vs2, pos2 := db2 / STRIPE_DATA, db2 % STRIPE_DATA;
    if vs1 == vs2 {
      assert pos1 != pos2;
    }
  }

  /**
   * The data block sits on its lane's device, in its lane's row, at the
   * offset within the chunk it had.
   */
  lemma MapSpecDataPlace(n: nat, chunk: nat, pattern: nat, block: nat, sector: nat, dev: nat)
    requires n > 0 && chunk > 0
    ensures var r := MapSpec(n, chunk, pattern, block, sector, dev);
      var lane := DataLane(dev + block * n);
      r.device == Mod(lane, n) && Div(r.sector, chunk) == Div(lane, n) && Mod(r.sector, chunk) == Mod(sector, chunk)
  {
    var lane := DataLane(dev + block * n);
    OffsetKept(lane / n, chunk, sector);
  }

  /** Distinct blocks of the array, at the same offset, are placed at distinct (device, sector) pairs. */
  lemma MapSpecInjective(n: nat, chunk: nat, pattern: nat, b1: nat, d1: nat, b2: nat, d2: nat, sector: nat)
    requires n > 0 && chunk > 0 && d1 < n && d2 < n && (b1 != b2 || d1 != d2)
    ensures var r1, r2 := MapSpec(n, chunk, pattern, b1, sector, d1), MapSpec(n, chunk, pattern, b2, sector, d2);
      (r1.device, r1.sector) != (r2.device, r2.sector)
  {
    var db1, db2 := d1 + b1 * n, d2 + b2 * n;
    RowMajorInjective(b1, d1, b2, d2, n);
    DataLaneInjective(db1, db2);
    LaneAddrInjective(DataLane(db1), DataLane(db2), n, chunk);
  }

  /**
   * On an array of at least 14 devices a stripe spans at most two rows,
   * and the sequential-mode rule places each syndrome on its lane.
   */
  lemma SequentialSyndromesOnLanes(n: nat, chunk: nat, block: nat, sector: nat, dev: nat)
    requires n >= STRIPE_BLOCKS && chunk > 0
    ensures var db := dev + block * n;
      var s := MapSpec(n, chunk, SEQUENTIAL, block, sector, dev).parity.slots;
      && s[0] == LaneSlot(StripeStart(db) + 5, n, chunk)
      && s[1] == LaneSlot(StripeStart(db) + 11, n, chunk)
      && s[2] == LaneSlot(GlobalSyndromeLane(db), n, chunk)
  {
    var base := StripeStart(dev + block * n);
    SeqSlotIsLaneSlot(base, 5, n, chunk);
    SeqSlotIsLaneSlot(base, 11, n, chunk);
    SeqSlotIsLaneSlot(base, 13, n, chunk);
  }

  /**
   * On four devices the sequential-mode rule is not the lane layout: the
   * global syndrome of stripe 0 (lane 13, row 3 of device 1) is given row 0.
   */
  lemma SequentialRuleOnFourDevices()
    ensures MapSpec(4, 8, SEQUENTIAL, 0, 0, 0).parity.slots[2] == Place(1, 0)
    ensures LaneSlot(13, 4, 8) == Place(1, 24)
  {
    assert StripeStart(0 + 0 * 4) == 0;
    assert LaneAddr(0, 4, 8) == Addr(0, 0);
    assert SeqSlot(0, 0, 13, 4, 8) == Place(1, 0);
    assert LaneAddr(13, 4, 8) == Addr(1, 24);
  }

  /**
   * On an array of at least 14 devices the sequential-mode flag marks
   * exactly the last data block of each stripe, and random mode never flags.
   */
  lemma LastBlockIsStripeEnd(n: nat, chunk: nat, pattern: nat, block: nat, sector: nat, dev: nat)
    requires n >= STRIPE_BLOCKS && chunk > 0
    ensures MapSpec(n, chunk, pattern, block, sector, dev).parity.lastBlock
      == Some(pattern == SEQUENTIAL && (dev + block * n) % STRIPE_DATA == STRIPE_DATA - 1)
  {
    var db := dev + block * n;
    var base, pos := StripeStart(db), db % STRIPE_DATA;
    var off := pos + pos / SUBSTRIPE_DATA;
    assert DataLane(db) == base + off && off <= 10;
    ModAddMod(base, 10, n);
    if off != 10 {
      ModInjective(base, off, 10, n);
    }
  }
}
