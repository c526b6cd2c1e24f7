/**
 * The elegant layout after EXTRA_DISKS new disks were added. Blocks below
 * the "extension place" stay on the N - EXTRA_DISKS old disks, laid out
 * in 15-lane stripes; blocks from it on go to the new disks. The source
 * chooses between the two cases without branches: a mark `em` that is 1
 * for the old zone and 0 for the new one multiplies the old-zone value,
 * and `1 - em` multiplies the new-zone value.
 */
module ElegantRebuilt {
  import opened Wrappers
  import opened InsaneH
  import opened Arith

  const SUBSTRIPES: nat := 2
  const SUBSTRIPE_DATA: nat := 5
  const EXTRA_DISKS: nat := 1
  const E_BLOCKS: nat := 1
  const P_BLOCKS: nat := SUBSTRIPES + 1
  const STRIPE_BLOCKS: nat := (SUBSTRIPE_DATA + 1) * SUBSTRIPES + E_BLOCKS + EXTRA_DISKS + 1
  /** 2^31: `ext_mark >> 31` is non-zero exactly from this value on. */
  const TWO31: nat := 0x8000_0000

  /** The descriptor; `configure` fills in only `ndisks`, and there is no recovery function. */
  const Descriptor: Algorithm :=
    Algorithm("elegant_rebuilt", 0, STRIPE_BLOCKS, P_BLOCKS, E_BLOCKS,
              Some(Scheme.ElegantRebuilt), Some(Scheme.ElegantRebuilt), None)

  /** The first block of the new zone: the old disks' share of the target, in chunks. */
  function ExtPlace(n: nat, chunk: nat, len: nat): nat
    requires n >= 2 && chunk > 0
  {
    Div(Mul(Div(len, n), n - EXTRA_DISKS), chunk)
  }

  /** `ext_mark = ((ds_pos - ext_place) >> 31) && 1`, the subtraction in u64. */
  function ExtMark(ds: nat, ext: nat): (em: nat)
    ensures em == 0 || em == 1
  {
    if Wrap64(ds - ext) / TWO31 != 0 then 1 else 0
  }

  /**
   * The mark is 1 below the extension place and 0 for the next 2^31
   * blocks. Because the test looks at bit 31 and up of a 64-bit
   * difference, it is 1 again from `ext_place + 2^31` on.
   */
  lemma ExtMarkZones(ds: nat, ext: nat)
    requires ds < U64 && ext < U64 - TWO31
    ensures ds < ext ==> ExtMark(ds, ext) == 1
    ensures ext <= ds < ext + TWO31 ==> ExtMark(ds, ext) == 0
    ensures ext + TWO31 <= ds ==> ExtMark(ds, ext) == 1
  {
    if ds < ext {
      assert Wrap64(ds - ext) == ds - ext + U64 >= TWO31;
    }
  }

  /** The branch-free selection `em * od + (1 - em) * nd`. */
  function Masked(em: nat, od: int, nd: int): int
  {
    em * od + (1 - em) * nd
  }

  /** With the mark in {0, 1} the masked form is an if/else. */
  lemma MaskedSelects(em: nat, od: int, nd: int)
    requires em == 0 || em == 1
    ensures Masked(em, od, nd) == if em == 1 then od else nd
  {
  }

  /** algorithm_elegant_rebuilt: the masked arithmetic, with the mark of block `dev + N * block`. */
  function Map(n: nat, chunk: nat, len: nat, block: nat, sector: nat, dev: nat): MapResult
    requires n >= 2 && chunk > 0
  {
    var ext := ExtPlace(n, chunk, len);
    var ds := dev + Mul(n, block);
    MaskedPlacement(n, chunk, ext, ds, ExtMark(ds, ext), sector)
  }

  /** The masked arithmetic of algorithm_elegant_rebuilt for block `ds` and mark `em`. */
  function MaskedPlacement(n: nat, chunk: nat, ext: nat, ds: nat, em: nat, sector: nat): MapResult
    requires n >= 2 && chunk > 0 && (em == 0 || em == 1)
  {
    var i := ds / STRIPE_DATA;
    var vsPos := ds % STRIPE_DATA;
    var globalGap := Mul(em, Mul(i, SUBSTRIPES + E_BLOCKS + EXTRA_DISKS + 1));
    var localGap := Mul(em, vsPos) / SUBSTRIPE_DATA;
    var lanePos := Wrap64(ds + Mul(em, globalGap + localGap) - Mul(1 - em, ext));
    var gs := Div(lanePos, Masked(em, STRIPE_BLOCKS - EXTRA_DISKS, EXTRA_DISKS));
    var startLane := Mul(gs, STRIPE_BLOCKS);
    var startDevice := Mod(startLane, n - EXTRA_DISKS);
    var startSector := Mul(Div(startLane, n - EXTRA_DISKS), chunk);
    var gsPos := (gs + 1) * STRIPE_BLOCKS - 1;
    var vsLocal := vsPos / SUBSTRIPE_DATA + 1;
    var od := gsPos - STRIPE_BLOCKS + EXTRA_DISKS + 1 + vsLocal * (SUBSTRIPE_DATA + 1) - 1;
    var nd := gsPos - E_BLOCKS - 1;
    var lsPos := Masked(em, od, nd);
    var laneDiv := Masked(em, n - EXTRA_DISKS, EXTRA_DISKS);
    var device := Mod(lanePos, laneDiv) + Mul(1 - em, n - EXTRA_DISKS);
    MapResult(device, Mul(Div(lanePos, laneDiv), chunk) + Mod(sector, chunk),
              ParityPlaces([Place(Mod(lsPos, n - EXTRA_DISKS), Mul(Div(lsPos, n - EXTRA_DISKS), chunk)),
                            Place(Mod(gsPos, n - EXTRA_DISKS), Mul(Div(gsPos, n - EXTRA_DISKS), chunk)), End],
                           startDevice, startSector, None))
  }

  /** Data blocks per stripe. */
  const STRIPE_DATA: nat := SUBSTRIPE_DATA * SUBSTRIPES

  /** The old-zone lane of block `ds`: five non-data lanes per earlier stripe, one after the first substripe. */
  function OldLane(ds: nat): nat
  {
    ds + (ds / STRIPE_DATA) * (SUBSTRIPES + E_BLOCKS + EXTRA_DISKS + 1) + (ds % STRIPE_DATA) / SUBSTRIPE_DATA
  }

  /**
   * Old-zone placement: the block's lane in 15-lane stripes, laid out over
   * the old disks; the stripe number is taken as `lane / 14`.
   */
  function OldZone(n: nat, chunk: nat, ds: nat, sector: nat): MapResult
    requires n >= 2 && chunk > 0
  {
    var oldDisks := n - EXTRA_DISKS;
    var lane := Wrap64(OldLane(ds));
    var gs := Div(lane, STRIPE_BLOCKS - EXTRA_DISKS);
    var data := LaneAddr(lane, oldDisks, chunk);
    var start := LaneAddr(Mul(gs, STRIPE_BLOCKS), oldDisks, chunk);
    var global := Mul(gs + 1, STRIPE_BLOCKS) - 1;
    var local := Mul(gs, STRIPE_BLOCKS) + ((ds % STRIPE_DATA) / SUBSTRIPE_DATA + 1) * (SUBSTRIPE_DATA + 1);
    MapResult(data.device, data.sector + sector % chunk,
              ParityPlaces([LaneSlot(local, oldDisks, chunk), LaneSlot(global, oldDisks, chunk), End],
                           start.device, start.sector, None))
  }

  /** New-zone placement: lane `lane` of the new disk, its syndromes on the old disks. */
  function NewZone(n: nat, chunk: nat, lane: nat, sector: nat): MapResult
    requires n >= 2 && chunk > 0
  {
    var oldDisks := n - EXTRA_DISKS;
    var start := LaneAddr(Mul(lane, STRIPE_BLOCKS), oldDisks, chunk);
    var global := Mul(lane + 1, STRIPE_BLOCKS) - 1;
    MapResult(oldDisks, Mul(lane, chunk) + sector % chunk,
              ParityPlaces([LaneSlot(global - E_BLOCKS - 1, oldDisks, chunk), LaneSlot(global, oldDisks, chunk), End],
                           start.device, start.sector, None))
  }

  /** The placement as an if/else on the zone. */
  function MapReference(n: nat, chunk: nat, len: nat, block: nat, sector: nat, dev: nat): MapResult
    requires n >= 2 && chunk > 0
  {
    var ext := ExtPlace(n, chunk, len);
    var ds := dev + Mul(n, block);
    if ExtMark(ds, ext) == 1 then OldZone(n, chunk, ds, sector) else NewZone(n, chunk, Wrap64(ds - ext), sector)
  }

  /** With the mark at 1 the masked arithmetic is the old-zone placement. */
  lemma MaskedOld(n: nat, chunk: nat, ext: nat, ds: nat, sector: nat)
    requires n >= 2 && chunk > 0
    ensures MaskedPlacement(n, chunk, ext, ds, 1, sector) == OldZone(n, chunk, ds, sector)
  {
    var i, vsPos := ds / STRIPE_DATA, ds % STRIPE_DATA;
    var globalGap := Mul(1, Mul(i, SUBSTRIPES + E_BLOCKS + EXTRA_DISKS + 1));
    var localGap := Mul(1, vsPos) / SUBSTRIPE_DATA;
    assert globalGap + localGap == OldLane(ds) - ds;
    var lanePos := Wrap64(ds + Mul(1, globalGap + localGap) - Mul(0, ext));
    assert lanePos == Wrap64(OldLane(ds));
    assert Masked(1, STRIPE_BLOCKS - EXTRA_DISKS, EXTRA_DISKS) == STRIPE_BLOCKS - EXTRA_DISKS;
    var laneDiv := Masked(1, n - EXTRA_DISKS, EXTRA_DISKS);
    assert laneDiv == n - EXTRA_DISKS;
    var gs := Div(lanePos, STRIPE_BLOCKS - EXTRA_DISKS);
    var gsPos := (gs + 1) * STRIPE_BLOCKS - 1;
    assert gsPos == Mul(gs + 1, STRIPE_BLOCKS) - 1;
    var vsLocal := vsPos / SUBSTRIPE_DATA + 1;
    var od := gsPos - STRIPE_BLOCKS + EXTRA_DISKS + 1 + vsLocal * (SUBSTRIPE_DATA + 1) - 1;
    assert od == Mul(gs, STRIPE_BLOCKS) + vsLocal * (SUBSTRIPE_DATA + 1);
    assert Masked(1, od, gsPos - E_BLOCKS - 1) == od;
    assert Mod(lanePos, laneDiv) + Mul(0, n - EXTRA_DISKS) == LaneAddr(lanePos, n - EXTRA_DISKS, chunk).device;
  }

  /** With the mark at 0 the masked arithmetic is the new-zone placement of lane `ds - ext_place`. */
  lemma MaskedNew(n: nat, chunk: nat, ext: nat, ds: nat, sector: nat)
    requires n >= 2 && chunk > 0
    ensures MaskedPlacement(n, chunk, ext, ds, 0, sector) == NewZone(n, chunk, Wrap64(ds - ext), sector)
  {
    var lane := Wrap64(ds - ext);
    assert Mul(0, ds % STRIPE_DATA) == 0 && Mul(1, ext) == ext && Mul(1, n - EXTRA_DISKS) == n - EXTRA_DISKS;
    assert Mul(0, Mul(ds / STRIPE_DATA, 5)) == 0;
    assert Masked(0, STRIPE_BLOCKS - EXTRA_DISKS, EXTRA_DISKS) == EXTRA_DISKS;
    assert Masked(0, n - EXTRA_DISKS, EXTRA_DISKS) == EXTRA_DISKS;
    DivModUnique(lane, 1, lane, 0);
  }

  /** The masked code computes the if/else reference. */
  lemma MapMatchesReference(n: nat, chunk: nat, len: nat, block: nat, sector: nat, dev: nat)
    requires n >= 2 && chunk > 0
    ensures Map(n, chunk, len, block, sector, dev) == MapReference(n, chunk, len, block, sector, dev)
  {
    var ext := ExtPlace(n, chunk, len);
    var ds := dev + Mul(n, block);
    if ExtMark(ds, ext) == 1 { MaskedOld(n, chunk, ext, ds, sector); } else { MaskedNew(n, chunk, ext, ds, sector); }
  }

  /**
   * Old-zone blocks land on an old disk; new-zone blocks land on the new
   * disk at lane `ds - ext_place`. Both syndromes are on old disks, the
   * list ends at index 2, the flag is never set, and the offset within
   * the chunk is kept.
   */
  lemma MapZones(n: nat, chunk: nat, len: nat, block: nat, sector: nat, dev: nat)
    requires n >= 2 && chunk > 0
    ensures var r, ds, ext := Map(n, chunk, len, block, sector, dev), dev + n * block, ExtPlace(n, chunk, len);
      && (ExtMark(ds, ext) == 1 ==> r.device < n - EXTRA_DISKS)
      && (ExtMark(ds, ext) == 0 ==> r.device == n - EXTRA_DISKS && r.sector / chunk == Wrap64(ds - ext))
      && (ExtMark(ds, ext) == 0 && ext <= ds < U64 ==> r.sector / chunk == ds - ext)
      && |r.parity.slots| == 3 && Terminated(r.parity.slots)
      && r.parity.slots[0].device < n - EXTRA_DISKS && r.parity.slots[1].device < n - EXTRA_DISKS
      && r.parity.lastBlock.None?
      && r.sector % chunk == sector % chunk
  {
    MapMatchesReference(n, chunk, len, block, sector, dev);
    var ds, ext := dev + n * block, ExtPlace(n, chunk, len);
    if ExtMark(ds, ext) == 1 {
      OffsetKept(Wrap64(OldLane(ds)) / (n - EXTRA_DISKS), chunk, sector);
    } else {
      OffsetKept(Wrap64(ds - ext), chunk, sector);
    }
  }
}
