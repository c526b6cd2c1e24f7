/**
 * The driver's address translation: a sector of the target becomes a
 * (block, lane, sector) triple by cutting the target offset into chunks
 * dealt round-robin over the devices (insane_map_sector), and a discard or
 * write-same range is clipped to the part one device holds
 * (insane_map_range_sector, insane_map_range).
 */
module SectorMap {
  import opened Arith
  import opened Bits
  import opened InsaneH

  /** 2^32: `bi_size` is a 32-bit unsigned byte count. */
  const U32: nat := 0x1_0000_0000

  /**
   * The shift fields of a context stand for what they replace: the chunk
   * size is `2^chunk_size_shift`, and a non-negative `ndev_shift` is used
   * only for a power-of-two device count, as its logarithm.
   */
  predicate Shifts(ctx: Context)
  {
    && ctx.ndev > 0 && ctx.chunkSize > 0
    && ctx.chunkSize == Pow2(ctx.chunkShift)
    && (if ctx.ndevShift < 0 then !IsPow2(ctx.ndev) else ctx.ndev == Pow2(ctx.ndevShift as nat))
  }

  /** The outputs of insane_map_sector: the block on the device, the device (lane offset) and the sector. */
  datatype SectorPlace = SectorPlace(block: nat, lane: nat, sector: nat)

  /** `dm_target_offset`: the sector's offset from the target start, as a `sector_t`. */
  function TargetOffset(ctx: Context, sector: nat): (off: nat)
    ensures off < U64
    ensures ctx.targetBegin <= sector < U64 ==> off == sector - ctx.targetBegin
  {
    Wrap64(sector - ctx.targetBegin)
  }

  /**
   * insane_map_sector: mask and shift by the chunk size, then either divide
   * by the device count or, when it is a power of two, mask and shift by it.
   */
  function MapSector(ctx: Context, sector: nat): SectorPlace
    requires ctx.ndev > 0 && ctx.chunkSize > 0
  {
    var off := TargetOffset(ctx, sector);
    var chunkOffset := And(off, ctx.chunkSize - 1);
    var chunk := Shr(off, ctx.chunkShift);
    var lane := if ctx.ndevShift < 0 then Mod(chunk, ctx.ndev) else And(chunk, ctx.ndev - 1);
    var block := if ctx.ndevShift < 0 then Div(chunk, ctx.ndev) else Shr(chunk, ctx.ndevShift as nat);
    SectorPlace(block, lane, Wrap64(Shl(block, ctx.chunkShift) + chunkOffset))
  }

  /**
   * Both branches compute the division the comments describe: the chunk
   * number is offset / chunk_size, its lane is the chunk number modulo the
   * device count and its block the quotient; the sector is the block's first
   * sector plus the offset in the chunk.
   */
  lemma MapSectorDivides(ctx: Context, sector: nat)
    requires Shifts(ctx)
    ensures var off, c, n, m := TargetOffset(ctx, sector), ctx.chunkSize, ctx.ndev, MapSector(ctx, sector);
      && m.lane == Mod(Div(off, c), n) && m.block == Div(Div(off, c), n)
      && m.sector == Mul(m.block, c) + Mod(off, c)
  {
    var off, c, n := TargetOffset(ctx, sector), ctx.chunkSize, ctx.ndev;
    AndLowMask(off, ctx.chunkShift);
    ShrDiv(off, ctx.chunkShift);
    var chunk := Div(off, c);
    if ctx.ndevShift >= 0 {
      AndLowMask(chunk, ctx.ndevShift as nat);
      ShrDiv(chunk, ctx.ndevShift as nat);
    }
    var block := Div(chunk, n);
    ShlMul(block, ctx.chunkShift);
    BlockStartFits(off, c, n);
  }

  /** The first sector of the block, plus the offset in the chunk, is at most the target offset. */
  lemma BlockStartFits(off: nat, c: nat, n: nat)
    requires c > 0 && n > 0
    ensures Mul(Div(Div(off, c), n), c) + Mod(off, c) <= off
  {
    var chunk := Div(off, c);
    var block := Div(chunk, n);
    DivModSplit(chunk, n);
    MulAtLeast(n, block);
    assert block <= chunk;
    MulLe(block, chunk, c);
    DivModSplit(off, c);
  }

  /**
   * The translation is one-to-one: the device is below the count, the
   * sector lies in the block's chunk, and block, device and the offset in the
   * chunk give the target offset back.
   */
  lemma MapSectorInverse(ctx: Context, sector: nat)
    requires Shifts(ctx)
    ensures var off, c, n, m := TargetOffset(ctx, sector), ctx.chunkSize, ctx.ndev, MapSector(ctx, sector);
      && m.lane < n && Div(m.sector, c) == m.block && Mod(m.sector, c) == Mod(off, c)
      && off == Mul(Mul(m.block, n) + m.lane, c) + Mod(m.sector, c)
  {
    var off, c, n, m := TargetOffset(ctx, sector), ctx.chunkSize, ctx.ndev, MapSector(ctx, sector);
    MapSectorDivides(ctx, sector);
    var chunk := Div(off, c);
    DivModUnique(m.sector, c, m.block, Mod(off, c));
    DivModSplit(chunk, n);
    DivModSplit(off, c);
  }

  // ---------------------------------------------------------------------
  // Range clipping

  /**
   * insane_map_range_sector: the translated sector when it lies on the
   * target device; otherwise its chunk start (`& ~(chunk_size - 1)`), one
   * chunk further when the target device precedes the sector's device.
   */
  function MapRangeSector(ctx: Context, sector: nat, target: nat): nat
    requires ctx.ndev > 0 && 0 < ctx.chunkSize < U64
  {
    var m := MapSector(ctx, sector);
    if m.lane == target then m.sector
    else
      Pow2Of64();
      var down := And(m.sector, Not(ctx.chunkSize - 1, 64));
      if target < m.lane then Wrap64(down + ctx.chunkSize) else down
  }

  /** The device target offset `x` lies on. */
  function LaneOf(x: nat, n: nat, c: nat): nat
    requires n > 0 && c > 0
  {
    Mod(Div(x, c), n)
  }

  /** How many of the target offsets below `k` lie on device `t`. */
  function OnDevice(k: nat, t: nat, n: nat, c: nat): nat
    requires n > 0 && c > 0
  {
    if k == 0 then 0 else OnDevice(k - 1, t, n, c) + (if LaneOf(k - 1, n, c) == t then 1 else 0)
  }

  /**
   * The same count in closed form: a chunk per earlier row, plus in the
   * offset's own row a whole chunk when device `t` comes first and the part
   * of the chunk before the offset when it is the offset's device.
   */
  function Before(x: nat, t: nat, n: nat, c: nat): nat
    requires n > 0 && c > 0
  {
    var lane := LaneOf(x, n, c);
    Mul(Div(Div(x, c), n), c) + (if t < lane then c else if t == lane then Mod(x, c) else 0)
  }

  /** `Before` at an offset given by its row, device and offset in the chunk. */
  lemma BeforeAt(b: nat, l: nat, s: nat, t: nat, n: nat, c: nat)
    requires l < n && s < c
    ensures var x := Mul(Mul(b, n) + l, c) + s;
      Before(x, t, n, c) == Mul(b, c) + (if t < l then c else if t == l then s else 0)
  {
    var x := Mul(Mul(b, n) + l, c) + s;
    DivModUnique(x, c, Mul(b, n) + l, s);
    DivModUnique(Mul(b, n) + l, n, b, l);
  }

  /** Moving one offset on adds one exactly when that offset lies on `t`. */
  lemma BeforeStep(x: nat, t: nat, n: nat, c: nat)
    requires n > 0 && c > 0 && t < n
    ensures Before(x + 1, t, n, c) == Before(x, t, n, c) + (if LaneOf(x, n, c) == t then 1 else 0)
  {
    var chunk, s := Div(x, c), Mod(x, c);
    var b, l := Div(chunk, n), Mod(chunk, n);
    DivModSplit(x, c);
    DivModSplit(chunk, n);
    var k := Mul(b, n) + l;
    assert x == Mul(k, c) + s;
    assert LaneOf(x, n, c) == l;
    BeforeAt(b, l, s, t, n, c);
    var y := x + 1;
    if s + 1 < c {
      assert y == Mul(k, c) + (s + 1);
      BeforeAt(b, l, s + 1, t, n, c);
    } else if l + 1 < n {
      NextChunk(k, c);
      assert y == Mul(Mul(b, n) + (l + 1), c) + 0;
      BeforeAt(b, l + 1, 0, t, n, c);
    } else {
      NextChunk(k, c);
      NextRow(b, n);
      assert y == Mul(Mul(b + 1, n) + 0, c) + 0;
      BeforeAt(b + 1, 0, 0, t, n, c);
      NextRow(b, c);
    }
  }

  /** The offset after the last one of a chunk starts the next chunk. */
  lemma NextChunk(k: nat, c: nat)
    ensures Mul(k, c) + c == Mul(k + 1, c)
  {
  }

  lemma NextRow(b: nat, n: nat)
    ensures Mul(b, n) + n == Mul(b + 1, n) + 0
  {
  }

  /** The closed form counts the offsets on `t`. */
  lemma {:induction false} BeforeCounts(x: nat, t: nat, n: nat, c: nat)
    requires n > 0 && c > 0 && t < n
    ensures Before(x, t, n, c) == OnDevice(x, t, n, c)
  {
    if x == 0 {
      DivModUnique(0, c, 0, 0);
      DivModUnique(0, n, 0, 0);
      assert Mul(0, c) == 0;
    } else {
      BeforeCounts(x - 1, t, n, c);
      BeforeStep(x - 1, t, n, c);
    }
  }

  /**
   * The mapped sector of a range end is the number of target offsets
   * before it that lie on the target device: on that device, the sectors
   * of the target below the end are exactly those below the mapped sector.
   */
  lemma MapRangeSectorCounts(ctx: Context, sector: nat, target: nat)
    requires Shifts(ctx) && ctx.chunkSize < U64 && target < ctx.ndev
    ensures MapRangeSector(ctx, sector, target)
         == OnDevice(TargetOffset(ctx, sector), target, ctx.ndev, ctx.chunkSize)
  {
    var off, c, n, m := TargetOffset(ctx, sector), ctx.chunkSize, ctx.ndev, MapSector(ctx, sector);
    MapSectorInverse(ctx, sector);
    MapSectorDivides(ctx, sector);
    BeforeCounts(off, target, n, c);
    if m.lane != target {
      RoundDown(ctx, m.sector);
      DivModSplit(m.sector, c);
      if target < m.lane {
        NextChunk(m.block, c);
        MulAtLeast(n, m.block);
        MulLe(m.block + 1, Mul(m.block, n) + m.lane, c);
      }
    }
  }

  /** `x & ~(chunk_size - 1)` in 64 bits is `x` rounded down to its chunk. */
  lemma RoundDown(ctx: Context, x: nat)
    requires Shifts(ctx) && ctx.chunkSize < U64 && x < U64
    ensures Pow2(64) == U64 && And(x, Not(ctx.chunkSize - 1, 64)) == x - x % ctx.chunkSize
  {
    Pow2Of64();
    if ctx.chunkShift > 64 { Pow2Le(64, ctx.chunkShift); }
    AndHighMask(x, 64, ctx.chunkShift);
  }

  /** The counts only grow, and grow across `[a, b)` exactly when some offset there lies on `t`. */
  lemma {:induction false} OnDeviceRange(a: nat, b: nat, t: nat, n: nat, c: nat)
    requires n > 0 && c > 0 && a <= b
    ensures OnDevice(a, t, n, c) <= OnDevice(b, t, n, c)
    ensures OnDevice(a, t, n, c) < OnDevice(b, t, n, c) <==> exists x :: a <= x < b && LaneOf(x, n, c) == t
  {
    if a < b {
      OnDeviceRange(a, b - 1, t, n, c);
      if LaneOf(b - 1, n, c) != t {
        forall x | a <= x < b && LaneOf(x, n, c) == t ensures a <= x < b - 1 { }
      }
    }
  }

  /** The part of a discard or write-same bio that device `target` holds, or none. */
  datatype RangePlace = Remapped(device: nat, sector: nat, bytes: nat) | Submitted

  /**
   * insane_map_range: clip both ends of the bio to the target device and
   * remap the bio there when the clipped range is not empty; otherwise the
   * bio is completed at once. The new size is in bytes, in 32 bits.
   */
  function MapRange(ctx: Context, sector: nat, sectors: nat, target: nat): RangePlace
    requires ctx.ndev > 0 && 0 < ctx.chunkSize < U64
  {
    var begin := MapRangeSector(ctx, sector, target);
    var end := MapRangeSector(ctx, Wrap64(sector + sectors), target);
    if begin < end then Remapped(target, begin, ((end - begin) * 512) % U32) else Submitted
  }

  /**
   * For a range inside the target that does not wrap, the device gets a
   * bio exactly when some sector of the range lies on it, and then the bio
   * starts at the first of those sectors on the device and covers as many
   * sectors as the range has on that device.
   */
  lemma MapRangeClips(ctx: Context, sector: nat, sectors: nat, target: nat)
    requires Shifts(ctx) && ctx.chunkSize < U64 && target < ctx.ndev
    requires ctx.targetBegin <= sector && sector + sectors < U64
    ensures var r, o, n, c := MapRange(ctx, sector, sectors, target), sector - ctx.targetBegin, ctx.ndev, ctx.chunkSize;
      && (r.Remapped? <==> exists x :: o <= x < o + sectors && LaneOf(x, n, c) == target)
      && (r.Remapped? ==>
            && r.device == target && r.sector == OnDevice(o, target, n, c)
            && r.bytes == ((OnDevice(o + sectors, target, n, c) - r.sector) * 512) % U32)
  {
    var o, n, c := sector - ctx.targetBegin, ctx.ndev, ctx.chunkSize;
    MapRangeSectorCounts(ctx, sector, target);
    MapRangeSectorCounts(ctx, sector + sectors, target);
    OnDeviceRange(o, o + sectors, target, n, c);
  }
}
