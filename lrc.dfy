/**
 * The table-driven LRC layout: stripes of 20 lanes holding three groups of
 * five data blocks, a local syndrome per group, one empty lane and one
 * global syndrome, in the order the role table gives.
 */
module Lrc {
  import opened Wrappers
  import opened Layout
  import opened InsaneH
  import opened Arith

  const SUBSTRIPES: nat := 3
  const SUBSTRIPE_DATA: nat := 5
  const E_BLOCKS: nat := 1
  const P_BLOCKS: nat := SUBSTRIPES + 1
  const STRIPE_BLOCKS: nat := (SUBSTRIPE_DATA + 1) * SUBSTRIPES + E_BLOCKS + 1
  const STRIPE_DATA: nat := SUBSTRIPE_DATA * SUBSTRIPES

  /** The role of every lane of a stripe (lrc_scheme). */
  const SCHEME: seq<byte> :=
    [0x2, 0x1, 0x2, 0x1, 0x0, 0x2, 0x1, 0x1, 0x2, 0x2, 0xc0, 0xc1, 0xc2, 0x1, 0xee, 0x0, 0x0, 0x0, 0x0, 0xff]
  /** The groups of the data lanes, in lane order (lrc_data). */
  const DATA: seq<byte> := [0x2, 0x1, 0x2, 0x1, 0x0, 0x2, 0x1, 0x1, 0x2, 0x2, 0x1, 0x0, 0x0, 0x0, 0x0]
  /** The lane of the global syndrome (lrc_gs). */
  const GS: nat := 19
  /** The lanes of the local syndromes, by group (lrc_ls). */
  const LS: seq<nat> := [10, 11, 12]
  /** The empty lane (lrc_eb). */
  const EB: nat := 14
  /** The non-data lanes, ascending (lrc_offset). */
  const OFFSET: seq<nat> := [10, 11, 12, 14, 19]
  /** The last data lane (lrc_ldb). */
  const LDB: nat := 18

  /** The data lanes of the role table, in order: where the local-gap loop lands. */
  const DATA_LANES: seq<nat> := [0, 1, 2, 3, 4, 5, 6, 7, 8, 9, 13, 15, 16, 17, 18]
  /** The lanes of each group: its five data lanes and its local syndrome. */
  const GROUPS: seq<seq<nat>> := [[4, 10, 15, 16, 17, 18], [1, 3, 6, 7, 11, 13], [0, 2, 5, 8, 9, 12]]

  /** The descriptor; `configure` fills in `ndisks`. */
  const Descriptor: Algorithm :=
    Algorithm("lrc", 0, STRIPE_BLOCKS, P_BLOCKS, E_BLOCKS, Some(Scheme.Lrc), Some(Scheme.Lrc), Some(Scheme.Lrc))

  // ---------------------------------------------------------------------
  // The tables

  /** DATA_LANES lists exactly the data lanes of the role table. */
  lemma DataLanes()
    ensures DataSlots(SCHEME) == DATA_LANES
  {
    var r := DATA_LANES;
    assert forall a, b :: 0 <= a < b < |r| ==> r[a] < r[b];
    assert forall k :: 0 <= k < |r| ==> k <= r[k] < STRIPE_BLOCKS && IsData(SCHEME[r[k]]);
    assert forall i :: 0 <= i < STRIPE_BLOCKS && IsData(SCHEME[i]) ==> i in r;
    WhereUnique(SCHEME, STRIPE_BLOCKS, IsData, r);
  }

  /** OFFSET lists exactly the non-data lanes of the role table. */
  lemma NonDataLanes()
    ensures NonDataSlots(SCHEME) == OFFSET
  {
    var r := OFFSET;
    assert forall a, b :: 0 <= a < b < |r| ==> r[a] < r[b];
    assert forall k :: 0 <= k < |r| ==> k <= r[k] < STRIPE_BLOCKS && IsNonData(SCHEME[r[k]]);
    assert forall i :: 0 <= i < STRIPE_BLOCKS && IsNonData(SCHEME[i]) ==> i in r;
    WhereUnique(SCHEME, STRIPE_BLOCKS, IsNonData, r);
  }

  lemma Group0Lanes()
    ensures Where(SCHEME, STRIPE_BLOCKS, HasRole(0xc0)) == GROUPS[0]
  {
    var r := GROUPS[0];
    assert forall a, b :: 0 <= a < b < |r| ==> r[a] < r[b];
    assert forall k :: 0 <= k < |r| ==> k <= r[k] < STRIPE_BLOCKS && OrC0(SCHEME[r[k]]) == 0xc0;
    assert forall i :: 0 <= i < STRIPE_BLOCKS && OrC0(SCHEME[i]) == 0xc0 ==> i in r;
    WhereUnique(SCHEME, STRIPE_BLOCKS, HasRole(0xc0), r);
  }

  lemma Group1Lanes()
    ensures Where(SCHEME, STRIPE_BLOCKS, HasRole(0xc1)) == GROUPS[1]
  {
    var r := GROUPS[1];
    assert forall a, b :: 0 <= a < b < |r| ==> r[a] < r[b];
    assert forall k :: 0 <= k < |r| ==> k <= r[k] < STRIPE_BLOCKS && OrC0(SCHEME[r[k]]) == 0xc1;
    assert forall i :: 0 <= i < STRIPE_BLOCKS && OrC0(SCHEME[i]) == 0xc1 ==> i in r;
    WhereUnique(SCHEME, STRIPE_BLOCKS, HasRole(0xc1), r);
  }

  lemma Group2Lanes()
    ensures Where(SCHEME, STRIPE_BLOCKS, HasRole(0xc2)) == GROUPS[2]
  {
    var r := GROUPS[2];
    assert forall a, b :: 0 <= a < b < |r| ==> r[a] < r[b];
    assert forall k :: 0 <= k < |r| ==> k <= r[k] < STRIPE_BLOCKS && OrC0(SCHEME[r[k]]) == 0xc2;
    assert forall i :: 0 <= i < STRIPE_BLOCKS && OrC0(SCHEME[i]) == 0xc2 ==> i in r;
    WhereUnique(SCHEME, STRIPE_BLOCKS, HasRole(0xc2), r);
  }

  /** GROUPS[g] lists exactly the lanes whose entry `| 0xc0` is group g's local-syndrome code. */
  lemma GroupLanes(g: nat)
    requires g < SUBSTRIPES
    ensures Where(SCHEME, STRIPE_BLOCKS, HasRole(LocalCode(g))) == GROUPS[g]
  {
    if g == 0 { Group0Lanes(); } else if g == 1 { Group1Lanes(); } else { Group2Lanes(); }
  }

  /**
   * The derived tables agree with the role table: DATA lists the groups of
   * the data lanes in order, OFFSET the other lanes in order; LS[g] holds
   * group g's local syndrome, GS the global syndrome and EB the empty lane;
   * LDB is the last data lane.
   */
  lemma TablesAgree()
    ensures |SCHEME| == STRIPE_BLOCKS && |DataSlots(SCHEME)| == STRIPE_DATA
    ensures DataSlots(SCHEME) == DATA_LANES && DATA == ValuesAt(SCHEME, DataSlots(SCHEME))
    ensures OFFSET == NonDataSlots(SCHEME)
    ensures forall g :: 0 <= g < SUBSTRIPES ==> SCHEME[LS[g]] == LocalCode(g)
    ensures SCHEME[GS] == GLOBAL_SYNDROME && SCHEME[EB] == EMPTY_BLOCK
    ensures IsData(SCHEME[LDB]) && LDB == DataSlots(SCHEME)[STRIPE_DATA - 1]
    ensures forall i :: 0 <= i < STRIPE_DATA ==> DATA[i] < SUBSTRIPES as byte
  {
    DataLanes();
    NonDataLanes();
    assert DATA == ValuesAt(SCHEME, DATA_LANES);
  }

  // ---------------------------------------------------------------------
  // Mapping

  /** The lane (counted over the whole array) of data block `db`. */
  function DataLane(db: nat): nat
  {
    Mul(db / STRIPE_DATA, STRIPE_BLOCKS) + DATA_LANES[db % STRIPE_DATA]
  }

  /**
   * The placement algorithm_lrc computes for chunk `block` of device `dev`
   * of the virtual device: data block `db = dev + block * n` goes to lane
   * DataLane(db), keeping its offset in the chunk. In random mode the
   * syndromes are the lanes of the block's local syndrome and of the
   * global syndrome; in sequential mode they are the three local
   * syndromes and the global one, placed by the "next row once the device
   * wrapped" rule, and the flag marks a block on the device of lane LDB.
   */
  function MapSpec(n: nat, chunk: nat, pattern: nat, block: nat, sector: nat, dev: nat): MapResult
    requires n > 0 && chunk > 0
  {
    var db := dev + Mul(block, n);
    var pos := db % STRIPE_DATA;
    var base := Mul(db / STRIPE_DATA, STRIPE_BLOCKS);
    var data := LaneAddr(DataLane(db), n, chunk);
    var start := LaneAddr(base, n, chunk);
    var slots :=
      if pattern == SEQUENTIAL then
        [SeqSlot(start.device, start.sector, LS[0], n, chunk), SeqSlot(start.device, start.sector, LS[1], n, chunk),
         SeqSlot(start.device, start.sector, LS[2], n, chunk), SeqSlot(start.device, start.sector, GS, n, chunk), End]
      else
        [LaneSlot(base + LS[DATA[pos]], n, chunk), LaneSlot(base + GS, n, chunk), End];
    MapResult(data.device, data.sector + sector % chunk,
              ParityPlaces(slots, start.device, start.sector,
                           Some(pattern == SEQUENTIAL && data.device == (start.device + LDB) % n)))
  }

  /** The sequential-mode syndrome list (the first loop of algorithm_lrc). */
  method SequentialSlots(n: nat, chunk: nat, startDevice: nat, startSector: nat) returns (slots: seq<Slot>)
    requires n > 0
    ensures slots == [SeqSlot(startDevice, startSector, LS[0], n, chunk), SeqSlot(startDevice, startSector, LS[1], n, chunk),
                      SeqSlot(startDevice, startSector, LS[2], n, chunk), SeqSlot(startDevice, startSector, GS, n, chunk), End]
  {
    slots := [];
    for i := 0 to SUBSTRIPES
      invariant |slots| == i
      invariant forall k :: 0 <= k < i ==> slots[k] == SeqSlot(startDevice, startSector, LS[k], n, chunk)
    {
      var d := Mod(startDevice + LS[i], n);
      slots := slots + [Place(d, if d < startDevice then startSector + chunk else startSector)];
    }
    var d := Mod(startDevice + GS, n);
    slots := slots + [Place(d, if d < startDevice then startSector + chunk else startSector), End];
  }

  /** The local-gap loop: step over every non-data lane at or before the running position. */
  method LocalGap(pos: nat) returns (gap: nat)
    requires pos < STRIPE_DATA
    ensures gap == DATA_LANES[pos]
  {
    gap := pos;
    var i := 0;
    while i < SUBSTRIPES + E_BLOCKS + 1
      invariant 0 <= i <= |OFFSET|
      invariant GapFrom(gap, OFFSET, i) == GapFrom(pos, OFFSET, 0)
    {
      if gap >= OFFSET[i] {
        gap := gap + 1;
      }
      i := i + 1;
    }
    DataLanes();
    NonDataLanes();
    GapFindsDataSlot(SCHEME, pos);
  }

  /** algorithm_lrc, step by step. */
  method Map(n: nat, chunk: nat, pattern: nat, block: nat, sector: nat, dev: nat) returns (r: MapResult)
    requires n > 0 && chunk > 0
    ensures r == MapSpec(n, chunk, pattern, block, sector, dev)
  {
    var dataBlock := dev + Mul(block, n);
    var virtualStripe := dataBlock / STRIPE_DATA;
    var vsPosition := dataBlock % STRIPE_DATA;
    var group := DATA[vsPosition];
    var localParity := Mul(virtualStripe, STRIPE_BLOCKS) + LS[group];
    var globalParity := Mul(virtualStripe, STRIPE_BLOCKS) + GS;
    var start := LaneAddr(Mul(virtualStripe, STRIPE_BLOCKS), n, chunk);
    var slots: seq<Slot>;
    var lastBlock := 0;
    if pattern == SEQUENTIAL {
      slots := SequentialSlots(n, chunk, start.device, start.sector);
      lastBlock := Mod(start.device + LDB, n);
    } else {
      var local := LaneAddr(localParity, n, chunk);
      var global := LaneAddr(globalParity, n, chunk);
      slots := [Place(local.device, local.sector), Place(global.device, global.sector), End];
    }
    var globalGap := virtualStripe * (SUBSTRIPES + E_BLOCKS + 1);
    var localGap := LocalGap(vsPosition);
    var lanePos := dataBlock + globalGap + localGap - vsPosition;
    assert lanePos == DataLane(dataBlock);
    var a := LaneAddr(lanePos, n, chunk);
    r := MapResult(a.device, a.sector + Mod(sector, chunk),
                   ParityPlaces(slots, start.device, start.sector, Some(pattern == SEQUENTIAL && a.device == lastBlock)));
  }

  /**
   * The lane of data block `db` is the `db mod 15`-th data lane of stripe
   * `db / 15`, and it holds a data entry naming the block's group.
   */
  lemma DataLaneInStripe(db: nat)
    ensures DataLane(db) / STRIPE_BLOCKS == db / STRIPE_DATA
    ensures DataLane(db) % STRIPE_BLOCKS == DATA_LANES[db % STRIPE_DATA]
    ensures IsData(SCHEME[DataLane(db) % STRIPE_BLOCKS]) && SCHEME[DataLane(db) % STRIPE_BLOCKS] == DATA[db % STRIPE_DATA]
  {
    var vs, pos := db / STRIPE_DATA, db % STRIPE_DATA;
    DivModUnique(DataLane(db), STRIPE_BLOCKS, vs, DATA_LANES[pos]);
  }

  /** Later data blocks get later lanes, so no two data blocks share a lane. */
  lemma DataLaneIncreasing(db1: nat, db2: nat)
    requires db1 < db2
    ensures DataLane(db1) < DataLane(db2)
  {
    var vs1, vs2 := db1 / STRIPE_DATA, db2 / STRIPE_DATA;
    var p1, p2 := db1 % STRIPE_DATA, db2 % STRIPE_DATA;
    assert db1 == vs1 * STRIPE_DATA + p1 && db2 == vs2 * STRIPE_DATA + p2;
    if vs1 == vs2 {
      assert p1 < p2;
    } else {
      assert vs1 < vs2;
      MulStrict(vs1, vs2, STRIPE_BLOCKS);
    }
  }

  /** A block is placed on the device and row of its data lane, at its own offset in the chunk. */
  lemma MapPlacesData(n: nat, chunk: nat, pattern: nat, block: nat, sector: nat, dev: nat)
    requires n > 0 && chunk > 0
    ensures var r := MapSpec(n, chunk, pattern, block, sector, dev);
      var lane := DataLane(dev + block * n);
      r.device == Mod(lane, n) && Div(r.sector, chunk) == Div(lane, n) && Mod(r.sector, chunk) == Mod(sector, chunk)
  {
    OffsetKept(DataLane(dev + block * n) / n, chunk, sector);
  }

  /**
   * The syndromes of a block: in random mode the lane of the local
   * syndrome of the block's group, then the global syndrome lane, then the
   * end marker; in sequential mode the three local syndromes in group
   * order, the global one and the end marker, with the flag set exactly
   * when the block sits on the device of the stripe's lane LDB.
   */
  lemma MapSyndromes(n: nat, chunk: nat, pattern: nat, block: nat, sector: nat, dev: nat)
    requires n > 0 && chunk > 0
    ensures var r := MapSpec(n, chunk, pattern, block, sector, dev);
      var db := dev + block * n;
      var base := (db / STRIPE_DATA) * STRIPE_BLOCKS;
      var s := r.parity.slots;
      && r.parity.startDevice == base % n && r.parity.startSector == (base / n) * chunk
      && (pattern != SEQUENTIAL ==>
            (&& |s| == 3 && s[2] == End && r.parity.lastBlock == Some(false)
             && s[0] == LaneSlot(base + LS[DATA[db % STRIPE_DATA]], n, chunk)
             && SCHEME[LS[DATA[db % STRIPE_DATA]]] == LocalCode(DATA[db % STRIPE_DATA] as nat)
             && s[1] == LaneSlot(base + GS, n, chunk) && SCHEME[GS] == GLOBAL_SYNDROME))
      && (pattern == SEQUENTIAL ==>
            (&& |s| == 5 && s[4] == End
             && (forall g :: 0 <= g < SUBSTRIPES ==> s[g] == SeqSlot(base % n, (base / n) * chunk, LS[g], n, chunk))
             && s[3] == SeqSlot(base % n, (base / n) * chunk, GS, n, chunk)
             && r.parity.lastBlock == Some(r.device == (base + LDB) % n)))
  {
    TablesAgree();
    var db := dev + block * n;
    var base := (db / STRIPE_DATA) * STRIPE_BLOCKS;
    ModAddMod(base, LDB, n);
  }

  /**
   * With at least 20 devices a stripe spans at most two rows, and the
   * sequential-mode rule places each syndrome exactly on its lane.
   */
  lemma SequentialSyndromesOnLanes(n: nat, chunk: nat, block: nat, sector: nat, dev: nat)
    requires n >= STRIPE_BLOCKS && chunk > 0
    ensures var r := MapSpec(n, chunk, SEQUENTIAL, block, sector, dev);
      var base := ((dev + block * n) / STRIPE_DATA) * STRIPE_BLOCKS;
      && (forall g :: 0 <= g < SUBSTRIPES ==> r.parity.slots[g] == LaneSlot(base + LS[g], n, chunk))
      && r.parity.slots[3] == LaneSlot(base + GS, n, chunk)
  {
    var base := ((dev + block * n) / STRIPE_DATA) * STRIPE_BLOCKS;
    SeqSlotIsLaneSlot(base, LS[0], n, chunk);
    SeqSlotIsLaneSlot(base, LS[1], n, chunk);
    SeqSlotIsLaneSlot(base, LS[2], n, chunk);
    SeqSlotIsLaneSlot(base, GS, n, chunk);
  }

  // ---------------------------------------------------------------------
  // Recovery

  /** The lanes that recovery of a global syndrome reads: every entry below 16. */
  function GlobalSources(): seq<nat>
  {
    Where(SCHEME, STRIPE_BLOCKS, IsLow)
  }

  /** The lanes that recovery of lane `b` reads: the other lanes whose entry `| 0xc0` equals its own. */
  function GroupSources(b: nat): seq<nat>
    requires b < STRIPE_BLOCKS
  {
    Except(Where(SCHEME, STRIPE_BLOCKS, HasRole(OrC0(SCHEME[b]))), b)
  }

  /** Recovery of a global syndrome reads the 15 data lanes. */
  lemma GlobalSourcesAreData()
    ensures GlobalSources() == DATA_LANES
  {
    WhereSame(SCHEME, STRIPE_BLOCKS, IsLow, IsData);
    DataLanes();
  }

  /** The group of lane `b`: its entry `| 0xc0`, less 0xc0. */
  function GroupOf(b: nat): nat
    requires b < STRIPE_BLOCKS
  {
    (OrC0(SCHEME[b]) - LOCAL_BASE) as nat
  }

  /**
   * Every lane but the global syndrome and the empty lane belongs to one of
   * the three groups of the group table, and its entry `| 0xc0` is that
   * group's local-syndrome code; each group lists six ascending lanes,
   * among them its local syndrome.
   */
  lemma GroupTable()
    ensures forall b :: 0 <= b < STRIPE_BLOCKS && b != GS && b != EB ==>
      GroupOf(b) < SUBSTRIPES && b in GROUPS[GroupOf(b)] && OrC0(SCHEME[b]) == LocalCode(GroupOf(b))
    ensures forall g :: 0 <= g < SUBSTRIPES ==>
      |GROUPS[g]| == SUBSTRIPE_DATA + 1 && LS[g] in GROUPS[g]
      && forall a, c :: 0 <= a < c < |GROUPS[g]| ==> GROUPS[g][a] < GROUPS[g][c]
  {
  }

  /** The group facts of the group table for one lane. */
  lemma LaneGroup(b: nat)
    requires b < STRIPE_BLOCKS && b != GS && b != EB
    ensures GroupOf(b) < SUBSTRIPES && b in GROUPS[GroupOf(b)] && OrC0(SCHEME[b]) == LocalCode(GroupOf(b))
    ensures |GROUPS[GroupOf(b)]| == SUBSTRIPE_DATA + 1
    ensures forall a, c :: 0 <= a < c < |GROUPS[GroupOf(b)]| ==> GROUPS[GroupOf(b)][a] < GROUPS[GroupOf(b)][c]
  {
    GroupTable();
  }

  /**
   * Recovery of a lane other than the global syndrome and the empty lane
   * reads the rest of that lane's group: five lanes, never the lane itself.
   */
  lemma GroupSourcesShape(b: nat)
    requires b < STRIPE_BLOCKS && b != GS && b != EB
    ensures GroupOf(b) < SUBSTRIPES && b in GROUPS[GroupOf(b)]
    ensures GroupSources(b) == Except(GROUPS[GroupOf(b)], b)
    ensures |GroupSources(b)| == SUBSTRIPE_DATA && b !in GroupSources(b)
  {
    LaneGroup(b);
    var g := GroupOf(b);
    GroupLanes(g);
    var group := GROUPS[g];
    assert GroupSources(b) == Except(group, b);
    ExceptLength(group, b);
    assert |Except(group, b)| == SUBSTRIPE_DATA;
  }

  /** The first lane of the stripe that holds lane `lane`. */
  function StripeBase(lane: nat): nat
  {
    Mul(lane / STRIPE_BLOCKS, STRIPE_BLOCKS)
  }

  /**
   * The plan recover_lrc returns for lane `dev` of row `block`, with b the
   * lane's place in its stripe:
   * - the global syndrome is rebuilt from the 15 data lanes and written to
   *   `dev - 5`, moving to `dev - 5 + n` and the first read's sector when
   *   that is negative;
   * - the empty lane needs nothing and has no write target;
   * - any other lane is rebuilt from the five other lanes of its group and
   *   written to device `(dev - b + 14 + n) mod n` (u64 arithmetic); the
   *   next-row test compares the exhausted loop counter (20) with `dev`.
   * The read lists are given by the tables; `GlobalSourcesAreData` and
   * `RecoverGroupReads` show they are the ones the role tests of the loops
   * select.
   */
  function RecoverSpec(n: nat, chunk: nat, block: nat, dev: nat): RecoverStripe
    requires n > 0
  {
    var lane := ArrayLane(block, n, dev);
    var base := StripeBase(lane);
    var b := lane % STRIPE_BLOCKS;
    if b == GS then
      var sources := LaneReads(DATA_LANES, base, n, chunk);
      var wd := dev - GS + EB;
      RecoverStripe(STRIPE_BLOCKS - 1 - SUBSTRIPES - E_BLOCKS, sources,
                    Some(if wd < 0 then wd + n else wd),
                    Some(if wd < 0 then sources[0].sector else Mul(block, chunk)))
    else if b == EB then
      RecoverStripe(0, [], Some(-1), None)
    else
      RecoverStripe(SUBSTRIPE_DATA, LaneReads(Except(GROUPS[GroupOf(b)], b), base, n, chunk),
                    Some(Wrap64(dev - b + EB + n) % n),
                    Some(if STRIPE_BLOCKS < dev then Mul(block + 1, chunk) else Mul(block, chunk)))
  }

  /** The global-syndrome loop of recover_lrc. */
  method ReadDataLanes(base: nat, n: nat, chunk: nat) returns (sources: seq<Addr>)
    requires n > 0
    ensures sources == LaneReads(DATA_LANES, base, n, chunk)
  {
    sources := ReadLowLanes(SCHEME, base, n, chunk);
    GlobalSourcesAreData();
  }

  /** The group loop of recover_lrc, with its exhausted counter. */
  method ReadGroup(b: nat, base: nat, n: nat, chunk: nat) returns (sources: seq<Addr>, i: nat)
    requires n > 0 && b < STRIPE_BLOCKS && b != GS && b != EB
    ensures sources == LaneReads(Except(GROUPS[GroupOf(b)], b), base, n, chunk) && i == STRIPE_BLOCKS
  {
    sources, i := ReadGroupLanes(SCHEME, b, base, n, chunk);
    GroupPrefixIsExcept(SCHEME, b, STRIPE_BLOCKS);
    GroupSourcesShape(b);
  }

  /** recover_lrc, step by step. */
  method Recover(n: nat, chunk: nat, block: nat, dev: nat) returns (plan: RecoverStripe)
    requires n > 0
    ensures plan == RecoverSpec(n, chunk, block, dev)
  {
    var stripeNumber := ArrayLane(block, n, dev);
    var blockInStripe := stripeNumber % STRIPE_BLOCKS;
    stripeNumber := stripeNumber / STRIPE_BLOCKS;
    var base := Mul(stripeNumber, STRIPE_BLOCKS);
    assert base == StripeBase(ArrayLane(block, n, dev));
    if blockInStripe == GS {
      var sources := ReadDataLanes(base, n, chunk);
      var writeDevice := dev - GS + EB;
      var writeSector := Mul(block, chunk);
      if writeDevice < 0 {
        writeDevice := writeDevice + n;
        writeSector := sources[0].sector;
      }
      return RecoverStripe(STRIPE_BLOCKS - 1 - SUBSTRIPES - E_BLOCKS, sources, Some(writeDevice), Some(writeSector));
    }
    if blockInStripe == EB {
      return RecoverStripe(0, [], Some(-1), None);
    }
    var sources, i := ReadGroup(blockInStripe, base, n, chunk);
    var emptyDevice := Wrap64(dev - blockInStripe + EB + n);
    var writeSector := if i < dev then Mul(block + 1, chunk) else Mul(block, chunk);
    plan := RecoverStripe(SUBSTRIPE_DATA, sources, Some(Mod(emptyDevice, n)), Some(writeSector));
  }

  /**
   * Recovery of any other lane but the empty one reads, in lane order, the
   * five other lanes of the stripe whose entry `| 0xc0` equals its own.
   */
  lemma RecoverGroupReads(n: nat, chunk: nat, block: nat, dev: nat)
    requires n > 0
    requires var b := ArrayLane(block, n, dev) % STRIPE_BLOCKS; b != GS && b != EB
    ensures var plan := RecoverSpec(n, chunk, block, dev);
      var b := ArrayLane(block, n, dev) % STRIPE_BLOCKS;
      && plan.sources == LaneReads(GroupSources(b), StripeBase(ArrayLane(block, n, dev)), n, chunk)
      && plan.quantity == |plan.sources| == SUBSTRIPE_DATA
  {
    var lane := ArrayLane(block, n, dev);
    var b := lane % STRIPE_BLOCKS;
    GroupSourcesShape(b);
    assert RecoverSpec(n, chunk, block, dev).sources
        == LaneReads(Except(GROUPS[GroupOf(b)], b), StripeBase(lane), n, chunk);
  }

  /**
   * A plan reads exactly `quantity` blocks, all distinct, and never the
   * block it rebuilds (lane `dev` of row `block`).
   */
  lemma RecoverAvoidsLostBlock(n: nat, chunk: nat, block: nat, dev: nat)
    requires n > 0 && chunk > 0 && dev < n
    ensures ReadsDistinctBlocks(RecoverSpec(n, chunk, block, dev), Addr(dev, Mul(block, chunk)))
  {
    var b := ArrayLane(block, n, dev) % STRIPE_BLOCKS;
    if b == GS {
      GlobalPlanAvoids(n, chunk, block, dev);
    } else if b != EB {
      GroupPlanAvoids(n, chunk, block, dev);
    }
  }

  lemma GlobalPlanAvoids(n: nat, chunk: nat, block: nat, dev: nat)
    requires n > 0 && chunk > 0 && dev < n && ArrayLane(block, n, dev) % STRIPE_BLOCKS == GS
    ensures ReadsDistinctBlocks(RecoverSpec(n, chunk, block, dev), Addr(dev, Mul(block, chunk)))
  {
    var lane := ArrayLane(block, n, dev);
    var base := StripeBase(lane);
    var plan := RecoverSpec(n, chunk, block, dev);
    LostBlockAddr(block, dev, n, chunk);
    assert base + GS == lane;
    assert plan.sources == LaneReads(DATA_LANES, base, n, chunk);
    PlanReadsDistinct(plan, DATA_LANES, base, n, chunk, GS);
  }

  lemma GroupPlanAvoids(n: nat, chunk: nat, block: nat, dev: nat)
    requires n > 0 && chunk > 0 && dev < n
    requires var b := ArrayLane(block, n, dev) % STRIPE_BLOCKS; b != GS && b != EB
    ensures ReadsDistinctBlocks(RecoverSpec(n, chunk, block, dev), Addr(dev, Mul(block, chunk)))
  {
    var lane := ArrayLane(block, n, dev);
    var b := lane % STRIPE_BLOCKS;
    var base := StripeBase(lane);
    var plan := RecoverSpec(n, chunk, block, dev);
    LostBlockAddr(block, dev, n, chunk);
    assert base + b == lane;
    var group := GROUPS[GroupOf(b)];
    LaneGroup(b);
    ExceptLength(group, b);
    ExceptAscending(group, b);
    assert plan.sources == LaneReads(Except(group, b), base, n, chunk);
    PlanReadsDistinct(plan, Except(group, b), base, n, chunk, b);
  }

  /**
   * With at least five devices, recovery of a global syndrome writes to the
   * device of the stripe's empty lane (lane 14).
   */
  lemma GlobalWriteDevice(n: nat, chunk: nat, block: nat, dev: nat)
    requires 5 <= n && dev < n && ArrayLane(block, n, dev) % STRIPE_BLOCKS == GS
    ensures RecoverSpec(n, chunk, block, dev).writeDevice
         == Some((StripeBase(ArrayLane(block, n, dev)) + EB) % n)
  {
    EmptyLaneBeforeGlobal(ArrayLane(block, n, dev), block, dev, n);
  }

  /** The empty lane lies five lanes before the global syndrome, on the previous row if `dev < 5`. */
  lemma EmptyLaneBeforeGlobal(lane: nat, block: nat, dev: nat, n: nat)
    requires 5 <= n && dev < n && lane == block * n + dev && lane % STRIPE_BLOCKS == GS
    ensures (StripeBase(lane) + EB) % n == if dev >= GS - EB then dev - (GS - EB) else dev - (GS - EB) + n
  {
    var empty := StripeBase(lane) + EB;
    assert empty == lane - (GS - EB);
    if dev >= GS - EB {
      DivModUnique(empty, n, block, dev - (GS - EB));
    } else {
      assert block > 0;
      DivModUnique(empty, n, block - 1, dev - (GS - EB) + n);
    }
  }

  /**
   * With at least five devices (and no u64 wrap-around), recovery of any
   * other lane but the empty one writes to the device of the stripe's empty
   * lane as well.
   */
  lemma GroupWriteDevice(n: nat, chunk: nat, block: nat, dev: nat)
    requires 5 <= n && n + n + STRIPE_BLOCKS < U64 && dev < n
    requires var b := ArrayLane(block, n, dev) % STRIPE_BLOCKS; b != GS && b != EB
    ensures RecoverSpec(n, chunk, block, dev).writeDevice
         == Some((StripeBase(ArrayLane(block, n, dev)) + EB) % n)
  {
    var lane := ArrayLane(block, n, dev);
    var b := lane % STRIPE_BLOCKS;
    var empty := StripeBase(lane) + EB;
    assert empty + n == block * n + (dev - b + EB + n);
    RowsAway(empty, dev - b + EB + n, block, n);
  }

  /**
   * With 20 devices a stripe is one row, and every write target of
   * recover_lrc is the stripe's empty lane: device 14 of the same row.
   */
  lemma RecoverWithTwentyDevices(chunk: nat, block: nat, dev: nat)
    requires dev < STRIPE_BLOCKS
    ensures var plan := RecoverSpec(STRIPE_BLOCKS, chunk, block, dev);
      dev != EB ==> plan.writeDevice == Some(EB as int) && plan.writeSector == Some(block * chunk)
  {
    DivModUnique(block * STRIPE_BLOCKS + dev, STRIPE_BLOCKS, block, dev);
  }

  /**
   * Map and recovery agree: handing the row and device the map chose for
   * a data block to recover_lrc yields a plan that reads the local
   * syndrome the map names for the block in random mode.
   */
  lemma RecoverReadsLocalSyndrome(n: nat, chunk: nat, block: nat, sector: nat, dev: nat)
    requires n > 0 && chunk > 0
    ensures var r := MapSpec(n, chunk, RANDOM, block, sector, dev);
      var s := r.parity.slots[0];
      s.Place? && Addr(s.device, s.sector) in RecoverSpec(n, chunk, Div(r.sector, chunk), r.device).sources
  {
    var db := dev + Mul(block, n);
    var pos := db % STRIPE_DATA;
    var lane := DataLane(db);
    var r := MapSpec(n, chunk, RANDOM, block, sector, dev);
    MapPlacesData(n, chunk, RANDOM, block, sector, dev);
    var row := Div(r.sector, chunk);
    assert row == lane / n && r.device == lane % n;
    RowAndDevice(lane, n);
    LocalSyndromeRead(n, chunk, row, r.device, db);
    assert r.parity.slots[0] == LaneSlot(Mul(db / STRIPE_DATA, STRIPE_BLOCKS) + LS[DATA[pos]], n, chunk);
  }

  lemma RowAndDevice(x: nat, n: nat)
    requires n > 0
    ensures (x / n) * n + x % n == x
  {
  }

  /** The plan for the lane of data block `db` reads the lane of its group's local syndrome. */
  lemma LocalSyndromeRead(n: nat, chunk: nat, row: nat, dev: nat, db: nat)
    requires n > 0 && row * n + dev == DataLane(db)
    ensures var base := (db / STRIPE_DATA) * STRIPE_BLOCKS;
      LaneAddr(base + LS[DATA[db % STRIPE_DATA]], n, chunk) in RecoverSpec(n, chunk, row, dev).sources
  {
    var pos := db % STRIPE_DATA;
    var slot := DATA_LANES[pos];
    var lane := Mul(row, n) + dev;
    var base := Mul(lane / STRIPE_BLOCKS, STRIPE_BLOCKS);
    DataLaneInStripe(db);
    assert lane % STRIPE_BLOCKS == slot;
    assert base == (db / STRIPE_DATA) * STRIPE_BLOCKS;
    OwnGroupHoldsLocalSyndrome(pos);
    var src := Except(GROUPS[GroupOf(slot)], slot);
    var k :| 0 <= k < |src| && src[k] == LS[DATA[pos]];
    var plan := RecoverSpec(n, chunk, row, dev);
    assert plan.sources == LaneReads(src, base, n, chunk);
    assert plan.sources[k] == LaneAddr(base + src[k], n, chunk);
  }

  /** The group of the `pos`-th data lane holds that group's local syndrome, which is another lane. */
  lemma OwnGroupHoldsLocalSyndrome(pos: nat)
    requires pos < STRIPE_DATA
    ensures DATA_LANES[pos] != GS && DATA_LANES[pos] != EB
    ensures LS[DATA[pos]] in Except(GROUPS[GroupOf(DATA_LANES[pos])], DATA_LANES[pos])
  {
    assert forall p :: 0 <= p < STRIPE_DATA ==> GroupOf(DATA_LANES[p]) == DATA[p] as nat;
    GroupTable();
  }
}
