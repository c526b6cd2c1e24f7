/**
 * insane_map for an ordinary read or write: the sector is translated to
 * (block, lane, sector), the algorithm places the data block, and a write
 * updates the stripe's syndromes. In sequential mode the syndromes are
 * written when the write crosses a chunk boundary of the stripe's last data
 * block (insane_seq_syndromes); in every other mode the old data is read
 * back and every syndrome read and rewritten (insane_finish_syndromes).
 * The syndrome I/O is recorded in a trace; its contents are not computed.
 */
module WritePath {
  import opened Wrappers
  import opened Arith
  import opened Bits
  import opened InsaneH
  import opened Trace
  import opened Schemes
  import opened SectorMap
  import Raid6
  import ElegantRebuilt

  /** A read or write bio: its start sector, its length `bi_size` in bytes, and its direction. */
  datatype Bio = Bio(sector: nat, size: nat, write: bool)

  /** A remapped bio: the device and sector it now addresses, and the syndrome I/O issued on its behalf. */
  datatype MappedBio = MappedBio(device: nat, sector: nat, io: seq<Io>)

  // ---------------------------------------------------------------------
  // insane_seq_syndromes

  /**
   * The write of syndrome `k`: its slot's device and sector. The end marker
   * indexes the device table at -1, and an entry past the list is unset;
   * both are read as they are.
   */
  function SeqWrite(slots: seq<Slot>, k: nat): Io
  {
    if k < |slots| && slots[k].Place? then Write(slots[k].device, slots[k].sector) else Garbage
  }

  /** The first `j` syndrome writes of the sequential-mode loop. */
  function SeqWrites(slots: seq<Slot>, j: nat): (io: seq<Io>)
    ensures |io| == j
    ensures forall k :: 0 <= k < j ==> io[k] == SeqWrite(slots, k)
  {
    if j == 0 then [] else SeqWrites(slots, j - 1) + [SeqWrite(slots, j - 1)]
  }

  /** The bio starting at `sector` and reaching `size` further ends in another chunk. */
  predicate CrossesChunk(sector: nat, size: nat, chunk: nat)
    requires chunk > 0
  {
    Div(sector, chunk) != Div(Wrap64(sector + size), chunk)
  }

  /**
   * insane_seq_syndromes: when the chunk number of the remapped sector
   * differs from that of the sector plus the bio's byte count, all
   * `p_blocks` syndromes are written; otherwise nothing is issued.
   */
  function SeqSyndromesSpec(ctx: Context, sector: nat, size: nat, slots: seq<Slot>): seq<Io>
    requires ctx.chunkSize > 0
  {
    if CrossesChunk(sector, size, ctx.chunkSize) then SeqWrites(slots, ctx.alg.pBlocks) else []
  }

  /** insane_seq_syndromes, with its loop over the syndromes. */
  method SeqSyndromes(ctx: Context, sector: nat, size: nat, slots: seq<Slot>) returns (io: seq<Io>)
    requires ctx.chunkSize > 0
    ensures io == SeqSyndromesSpec(ctx, sector, size, slots)
  {
    io := [];
    var currentBlock := Div(sector, ctx.chunkSize);
    var nextBlock := Div(Wrap64(sector + size), ctx.chunkSize);
    if currentBlock != nextBlock {
      var counter := 0;
      while counter < ctx.alg.pBlocks
        invariant counter <= ctx.alg.pBlocks
        invariant io == SeqWrites(slots, counter)
      {
        if counter < |slots| && slots[counter].Place? {
          io := io + [Write(slots[counter].device, slots[counter].sector)];
        } else {
          io := io + [Garbage];
        }
        counter := counter + 1;
      }
    }
  }

  // ---------------------------------------------------------------------
  // insane_finish_syndromes

  /**
   * The read and write of every syndrome from slot `k` on, stopping at the
   * end marker or after `p` slots; an unset slot past the list is read as
   * it is and the model follows the loop no further.
   */
  function SyndromeUpdates(slots: seq<Slot>, k: nat, p: nat): seq<Io>
    decreases p - k
  {
    if k >= p then []
    else if k >= |slots| then [Garbage]
    else match slots[k]
      case End => []
      case Place(d, s) => [Read(d, s), Write(d, s)] + SyndromeUpdates(slots, k + 1, p)
  }

  /** The chunk start of `sector`: `(sector / chunk_size) << chunk_size_shift`, as a `sector_t`. */
  function AlignedSector(ctx: Context, sector: nat): nat
    requires ctx.chunkSize > 0
  {
    Wrap64(Shl(Div(sector, ctx.chunkSize), ctx.chunkShift))
  }

  /**
   * insane_finish_syndromes: the old data of the chunk is read from the
   * data device, then each syndrome is read and written.
   */
  function FinishSyndromesSpec(ctx: Context, device: nat, sector: nat, slots: seq<Slot>): seq<Io>
    requires ctx.chunkSize > 0
  {
    [Read(device, AlignedSector(ctx, sector))] + SyndromeUpdates(slots, 0, ctx.alg.pBlocks)
  }

  /** insane_finish_syndromes, with its loop over the syndromes. */
  method FinishSyndromes(ctx: Context, device: nat, sector: nat, slots: seq<Slot>) returns (io: seq<Io>)
    requires ctx.chunkSize > 0
    ensures io == FinishSyndromesSpec(ctx, device, sector, slots)
  {
    var aligned := Div(sector, ctx.chunkSize);
    aligned := Wrap64(Shl(aligned, ctx.chunkShift));
    io := [Read(device, aligned)];
    var p := ctx.alg.pBlocks;
    var counter := 0;
    while counter < p
      invariant counter <= p
      invariant io + SyndromeUpdates(slots, counter, p) == FinishSyndromesSpec(ctx, device, sector, slots)
      decreases p - counter
    {
      if counter >= |slots| {
        io := io + [Garbage];
        return;
      }
      if slots[counter].End? {
        return;
      }
      var d, s := slots[counter].device, slots[counter].sector;
      assert SyndromeUpdates(slots, counter, p) == [Read(d, s), Write(d, s)] + SyndromeUpdates(slots, counter + 1, p);
      assert (io + [Read(d, s), Write(d, s)]) + SyndromeUpdates(slots, counter + 1, p)
          == io + ([Read(d, s), Write(d, s)] + SyndromeUpdates(slots, counter + 1, p));
      io := io + [Read(d, s), Write(d, s)];
      counter := counter + 1;
    }
  }

  // ---------------------------------------------------------------------
  // insane_map

  /**
   * The syndrome I/O of a write placed at `r`: in sequential mode only a
   * block flagged as its stripe's last issues any (an unset flag is read as
   * it is); in any other mode every write updates its syndromes.
   */
  function WriteIo(ctx: Context, size: nat, r: MapResult): seq<Io>
    requires ctx.chunkSize > 0
  {
    if ctx.ioPattern == SEQUENTIAL then
      match r.parity.lastBlock
      case None => [Garbage]
      case Some(last) => if last then SeqSyndromesSpec(ctx, r.sector, size, r.parity.slots) else []
    else FinishSyndromesSpec(ctx, r.device, r.sector, r.parity.slots)
  }

  /** insane_map for a bio that is neither a flush, a discard nor a write-same. */
  function MapBio(ctx: Context, bio: Bio): Call<MappedBio>
    requires ctx.ndev > 0 && ctx.chunkSize > 0
  {
    var m := MapSector(ctx, bio.sector);
    match MapOf(ctx, m.block, m.sector, m.lane)
    case NullPointer => NullPointer
    case OutsideModel => OutsideModel
    case Done(r) => Done(MappedBio(r.device, r.sector, if bio.write then WriteIo(ctx, bio.size, r) else []))
  }

  /** insane_map: translate, place, and on a write dispatch the syndrome update. */
  method Map(ctx: Context, bio: Bio) returns (result: Call<MappedBio>)
    requires ctx.ndev > 0 && ctx.chunkSize > 0
    ensures result == MapBio(ctx, bio)
  {
    var m := MapSector(ctx, bio.sector);
    var call := MapOf(ctx, m.block, m.sector, m.lane);
    if call.NullPointer? {
      return NullPointer;
    } else if call.OutsideModel? {
      return OutsideModel;
    }
    var r := call.value;
    var io := [];
    if bio.write {
      if ctx.ioPattern == SEQUENTIAL {
        if r.parity.lastBlock.None? {
          io := [Garbage];
        } else if r.parity.lastBlock.value {
          io := SeqSyndromes(ctx, r.sector, bio.size, r.parity.slots);
        }
      } else {
        io := FinishSyndromes(ctx, r.device, r.sector, r.parity.slots);
      }
    }
    return Done(MappedBio(r.device, r.sector, io));
  }

  // ---------------------------------------------------------------------
  // Properties

  /** A read is only remapped: it issues no syndrome I/O. */
  lemma ReadsIssueNothing(ctx: Context, bio: Bio)
    requires ctx.ndev > 0 && ctx.chunkSize > 0 && !bio.write && MapBio(ctx, bio).Done?
    ensures MapBio(ctx, bio).value.io == []
    ensures var m := MapSector(ctx, bio.sector); var r := MapOf(ctx, m.block, m.sector, m.lane).value;
      MapBio(ctx, bio).value.device == r.device && MapBio(ctx, bio).value.sector == r.sector
  {
  }

  /**
   * In sequential mode a write with a set flag issues I/O exactly when the
   * block is its stripe's last, the bio crosses a chunk boundary and there
   * are syndromes; that I/O is then one write per syndrome, at the slots of
   * a list holding at least `p_blocks` places.
   */
  lemma SequentialWriteIo(ctx: Context, size: nat, r: MapResult)
    requires ctx.chunkSize > 0 && ctx.ioPattern == SEQUENTIAL && r.parity.lastBlock.Some?
    ensures var io, p := WriteIo(ctx, size, r), ctx.alg.pBlocks;
      && (io != [] <==> r.parity.lastBlock.value && CrossesChunk(r.sector, size, ctx.chunkSize) && p > 0)
      && (io != [] ==> |io| == p)
      && (io != [] && Terminated(r.parity.slots) && p < |r.parity.slots| ==>
            Plain(io) && forall k :: 0 <= k < p ==> io[k] == Write(r.parity.slots[k].device, r.parity.slots[k].sector))
  {
  }

  /** The syndrome updates of a terminated list: a read and a write per place, up to the marker or `p` slots. */
  lemma {:induction false} SyndromeUpdatesOfTerminated(slots: seq<Slot>, k: nat, p: nat)
    requires Terminated(slots) && k <= |slots| - 1
    ensures var io, m := SyndromeUpdates(slots, k, p), Min(p, |slots| - 1);
      && |io| == 2 * (m - Min(k, m))
      && Plain(io)
      && forall j :: 0 <= j < m - Min(k, m) ==>
           io[2 * j] == Read(slots[k + j].device, slots[k + j].sector)
           && io[2 * j + 1] == Write(slots[k + j].device, slots[k + j].sector)
    decreases p - k
  {
    if k < p && k < |slots| - 1 {
      SyndromeUpdatesOfTerminated(slots, k + 1, p);
      var d, s := slots[k].device, slots[k].sector;
      var rest := SyndromeUpdates(slots, k + 1, p);
      var io := [Read(d, s), Write(d, s)] + rest;
      assert SyndromeUpdates(slots, k, p) == io;
      var m := Min(p, |slots| - 1);
      forall j | 0 <= j < m - Min(k, m)
        ensures io[2 * j] == Read(slots[k + j].device, slots[k + j].sector)
        ensures io[2 * j + 1] == Write(slots[k + j].device, slots[k + j].sector)
      {
        if j > 0 {
          assert io[2 * j] == rest[2 * (j - 1)];
          assert io[2 * j + 1] == rest[2 * (j - 1) + 1];
        }
      }
      PlainAppend([Read(d, s), Write(d, s)], rest);
    }
  }

  function Min(a: nat, b: nat): nat
  {
    if a < b then a else b
  }

  /**
   * Outside sequential mode a write reads the old data of its chunk on the
   * data device, then reads and writes each syndrome in list order,
   * stopping at the end marker or after `p_blocks`.
   */
  lemma RandomWriteIo(ctx: Context, size: nat, r: MapResult)
    requires Shifts(ctx) && ctx.ioPattern != SEQUENTIAL && Terminated(r.parity.slots)
    ensures var io, slots, m := WriteIo(ctx, size, r), r.parity.slots, Min(ctx.alg.pBlocks, |r.parity.slots| - 1);
      && |io| == 1 + 2 * m
      && Plain(io)
      && io[0] == Read(r.device, Wrap64(Mul(Div(r.sector, ctx.chunkSize), ctx.chunkSize)))
      && forall j :: 0 <= j < m ==>
           io[1 + 2 * j] == Read(slots[j].device, slots[j].sector)
           && io[2 + 2 * j] == Write(slots[j].device, slots[j].sector)
  {
    var slots, p := r.parity.slots, ctx.alg.pBlocks;
    SyndromeUpdatesOfTerminated(slots, 0, p);
    ShlMul(Div(r.sector, ctx.chunkSize), ctx.chunkShift);
    var rest := SyndromeUpdates(slots, 0, p);
    var io := [Read(r.device, AlignedSector(ctx, r.sector))] + rest;
    assert WriteIo(ctx, size, r) == io;
    var m := Min(p, |slots| - 1);
    forall j | 0 <= j < m
      ensures io[1 + 2 * j] == Read(slots[j].device, slots[j].sector)
      ensures io[2 + 2 * j] == Write(slots[j].device, slots[j].sector)
    {
      assert io[1 + 2 * j] == rest[2 * j];
      assert io[2 + 2 * j] == rest[2 * j + 1];
    }
    PlainAppend([Read(r.device, AlignedSector(ctx, r.sector))], rest);
  }

  /** The chunk start read back lies in the sector's chunk, on its first sector. */
  lemma AlignedIsChunkStart(x: nat, c: nat)
    requires 0 < c && x < U64
    ensures var a := Wrap64(Mul(Div(x, c), c)); a % c == 0 && a <= x < a + c
  {
    DivModSplit(x, c);
    DivModUnique(Mul(Div(x, c), c), c, Div(x, c), 0);
  }

  /**
   * A raid6 write in random mode issues five requests: the old data of the
   * chunk, then a read and a write of each of the row's two syndromes.
   */
  lemma Raid6RandomWrite(ctx: Context, bio: Bio)
    requires Shifts(ctx) && ctx.ndev >= 3 && ctx.alg.mapFn == Some(Scheme.Raid6) && ctx.alg.pBlocks == Raid6.P_BLOCKS
    requires ctx.ioPattern != SEQUENTIAL && bio.write
    ensures MapBio(ctx, bio).Done?
    ensures var io := MapBio(ctx, bio).value.io;
      && |io| == 5 && Plain(io)
      && io[1].device == io[2].device && io[3].device == io[4].device && io[1].device != io[3].device
      && io[1].Read? && io[2].Write? && io[3].Read? && io[4].Write?
  {
    var m := MapSector(ctx, bio.sector);
    var n := ctx.ndev;
    var r := Raid6.Map(n, ctx.chunkSize, ctx.ioPattern, m.block, m.sector, m.lane);
    Raid6.MapPlacesInRow(n, ctx.chunkSize, ctx.ioPattern, m.block, m.sector, m.lane);
    var y := ((m.lane + m.block * n) / (n - 2)) % n;
    Raid6.RowIsPermutation(n, y);
    RandomWriteIo(ctx, bio.size, r);
  }

  /**
   * elegant_rebuilt leaves `last_block` unset, so in sequential mode every
   * write reads it uninitialised.
   */
  lemma ElegantRebuiltSequentialWrite(ctx: Context, bio: Bio)
    requires ctx.ndev >= 2 && ctx.chunkSize > 0 && ctx.alg.mapFn == Some(Scheme.ElegantRebuilt)
    requires ctx.ioPattern == SEQUENTIAL && bio.write
    ensures MapBio(ctx, bio) == Done(MapBio(ctx, bio).value) && MapBio(ctx, bio).value.io == [Garbage]
  {
    var m := MapSector(ctx, bio.sector);
    ElegantRebuilt.MapZones(ctx.ndev, ctx.chunkSize, ctx.targetLen, m.block, m.sector, m.lane);
  }
}
