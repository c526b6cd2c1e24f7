/**
 * The shared declarations of the striping target: constants, the parity
 * list a mapping function fills, the recovery plan a recovery function
 * fills, the algorithm descriptor and the per-target context.
 */
module InsaneH {
  import opened Wrappers
  import opened Layout
  import opened Arith

  /** 2^64: `sector_t` and the other 64-bit unsigned quantities wrap at this value. */
  const U64: nat := 0x1_0000_0000_0000_0000

  /** The value an unsigned 64-bit variable holds after being assigned `x`. */
  function Wrap64(x: int): (r: nat)
    ensures r < U64
    ensures 0 <= x < U64 ==> r == x
    ensures -(U64 as int) <= x < 0 ==> r == x + U64
  {
    x % U64
  }

  const DM_IO_ERROR_THRESHOLD: nat := 15
  const MAX_SYNDROMES: nat := 64
  const ALG_NAME_LEN: nat := 20
  const SECTOR_SHIFT: nat := 9
  const PAGE_SIZE: nat := 4096

  /** The I/O patterns a target can be created with, by index. */
  const SEQUENTIAL: nat := 0
  const RANDOM: nat := 1
  const IO_PATTERN_NUM: nat := 2
  const IoPatterns: seq<string> := ["sequential", "random"]

  /** Error numbers, as positive values (the kernel returns their negation). */
  const ESRCH: nat := 3
  const EWOULDBLOCK: nat := 11
  const ENOMEM: nat := 12
  const EFAULT: nat := 14
  const EEXIST: nat := 17
  const EINVAL: nat := 22
  const EOPNOTSUPP: nat := 95

  /**
   * One entry of the syndrome list: a device and the sector the syndrome
   * occupies on it, or the end marker (device number -1).
   */
  datatype Slot = Place(device: nat, sector: nat) | End

  /** The device number C code reads from a slot. */
  function DeviceNumber(s: Slot): (d: int)
    ensures d >= -1
    ensures d == -1 <==> s.End?
  {
    if s.End? then -1 else s.device
  }

  /** A syndrome list ends at its first and only end marker. */
  predicate Terminated(slots: seq<Slot>)
  {
    |slots| >= 1 && slots[|slots| - 1].End? && forall k :: 0 <= k < |slots| - 1 ==> slots[k].Place?
  }

  /**
   * Where the syndromes of the stripe holding a data block live, where that
   * stripe starts, and whether the block is the stripe's last data block
   * (None where the mapping leaves the flag unset).
   */
  datatype ParityPlaces = ParityPlaces(slots: seq<Slot>, startDevice: nat, startSector: nat,
                                       lastBlock: Option<bool>)

  /** The result of a mapping function: the data block's device and sector, and its syndromes. */
  datatype MapResult = MapResult(device: nat, sector: nat, parity: ParityPlaces)

  /** A block address: device index and sector. */
  datatype Addr = Addr(device: nat, sector: nat)

  /**
   * A recovery plan: how many reads the caller issues, the blocks to read (sources),
   * and the write target. None stands for a field the planner never assigns.
   */
  datatype RecoverStripe = RecoverStripe(quantity: int, sources: seq<Addr>,
                                         writeDevice: Option<int>, writeSector: Option<nat>)

  /** Lane `lane` of the array, counted row by row over `n` devices of `chunk`-sector blocks. */
  function LaneAddr(lane: nat, n: nat, chunk: nat): (a: Addr)
    requires n > 0
    ensures a.device < n
  {
    Addr(lane % n, (lane / n) * chunk)
  }

  /** Distinct lanes are distinct blocks. */
  lemma LaneAddrInjective(l1: nat, l2: nat, n: nat, chunk: nat)
    requires n > 0 && chunk > 0 && l1 != l2
    ensures LaneAddr(l1, n, chunk) != LaneAddr(l2, n, chunk)
  {
    var q1, q2 := l1 / n, l2 / n;
    if l1 % n == l2 % n {
      assert l1 == q1 * n + l1 % n && l2 == q2 * n + l2 % n;
      if q1 < q2 { MulStrict(q1, q2, chunk); } else if q2 < q1 { MulStrict(q2, q1, chunk); }
    }
  }

  function LaneSlot(lane: nat, n: nat, chunk: nat): (s: Slot)
    requires n > 0
    ensures s.Place? && s.device < n
  {
    var a := LaneAddr(lane, n, chunk);
    Place(a.device, a.sector)
  }

  /**
   * The sequential-mode placement of the syndrome `k` lanes after the
   * stripe start: the device is `(start + k) mod n`, and the sector is the
   * start row's, or the next row's when the device wrapped below the start.
   */
  function SeqSlot(startDevice: nat, startSector: nat, k: nat, n: nat, chunk: nat): (s: Slot)
    requires n > 0
    ensures s.Place? && s.device < n
  {
    var d := (startDevice + k) % n;
    Place(d, if d < startDevice then startSector + chunk else startSector)
  }

  /**
   * The sequential-mode rule "next row when the device wrapped" finds the
   * lane that lies `k` lanes after the stripe start whenever `k < n`, that
   * is, when the stripe's syndromes span at most two rows.
   */
  lemma SeqSlotIsLaneSlot(base: nat, k: nat, n: nat, chunk: nat)
    requires 0 < n && k < n
    ensures SeqSlot(base % n, (base / n) * chunk, k, n, chunk) == LaneSlot(base + k, n, chunk)
  {
    var q, sd := base / n, base % n;
    assert base == q * n + sd;
    var d := (sd + k) % n;
    if sd + k < n {
      DivModUnique(sd + k, n, 0, sd + k);
      DivModUnique(base + k, n, q, sd + k);
      assert d == sd + k && d >= sd;
    } else {
      assert (q + 1) * n == q * n + n;
      DivModUnique(sd + k, n, 1, sd + k - n);
      DivModUnique(base + k, n, q + 1, sd + k - n);
      assert d == sd + k - n && d < sd;
      assert (q + 1) * chunk == q * chunk + chunk;
    }
  }

  // ---------------------------------------------------------------------
  // The read lists of the table-driven recovery planners

  /** The block addresses of lanes `idx` of the stripe whose first lane is `base`. */
  function LaneReads(idx: seq<nat>, base: nat, n: nat, chunk: nat): (r: seq<Addr>)
    requires n > 0
    ensures |r| == |idx|
    ensures forall k :: 0 <= k < |idx| ==> r[k] == LaneAddr(base + idx[k], n, chunk)
  {
    seq(|idx|, k requires 0 <= k < |idx| => LaneAddr(base + idx[k], n, chunk))
  }

  /** Reading one more lane appends its address. */
  lemma LaneReadsAppend(idx: seq<nat>, i: nat, base: nat, n: nat, chunk: nat)
    requires n > 0
    ensures LaneReads(idx + [i], base, n, chunk) == LaneReads(idx, base, n, chunk) + [LaneAddr(base + i, n, chunk)]
  {
  }

  /**
   * Reads of distinct lanes other than `skip` are distinct blocks, none of
   * them the block of lane `skip`.
   */
  lemma LaneReadsDistinct(idx: seq<nat>, base: nat, n: nat, chunk: nat, skip: nat)
    requires n > 0 && chunk > 0
    requires forall a, c :: 0 <= a < c < |idx| ==> idx[a] < idx[c]
    requires skip !in idx
    ensures var r := LaneReads(idx, base, n, chunk);
      && (forall k :: 0 <= k < |r| ==> r[k] != LaneAddr(base + skip, n, chunk))
      && (forall a, c :: 0 <= a < c < |r| ==> r[a] != r[c])
  {
    var r := LaneReads(idx, base, n, chunk);
    forall k | 0 <= k < |r| ensures r[k] != LaneAddr(base + skip, n, chunk) {
      LaneAddrInjective(base + idx[k], base + skip, n, chunk);
    }
    forall a, c | 0 <= a < c < |r| ensures r[a] != r[c] {
      LaneAddrInjective(base + idx[a], base + idx[c], n, chunk);
    }
  }

  /** The plan reads `quantity` blocks, all distinct, and never the block `lost` it rebuilds. */
  predicate ReadsDistinctBlocks(plan: RecoverStripe, lost: Addr)
  {
    && plan.quantity == |plan.sources|
    && (forall k :: 0 <= k < |plan.sources| ==> plan.sources[k] != lost)
    && (forall a, c :: 0 <= a < c < |plan.sources| ==> plan.sources[a] != plan.sources[c])
  }

  /** A plan that reads an ascending list of lanes without `skip` reads distinct blocks, never that of `skip`. */
  lemma PlanReadsDistinct(plan: RecoverStripe, idx: seq<nat>, base: nat, n: nat, chunk: nat, skip: nat)
    requires n > 0 && chunk > 0
    requires plan.sources == LaneReads(idx, base, n, chunk) && plan.quantity == |idx|
    requires forall a, c :: 0 <= a < c < |idx| ==> idx[a] < idx[c]
    requires skip !in idx
    ensures ReadsDistinctBlocks(plan, LaneAddr(base + skip, n, chunk))
  {
    LaneReadsDistinct(idx, base, n, chunk, skip);
  }

  /** Block `dev` of row `block`, with the lanes of the array numbered row by row over `n` devices. */
  function ArrayLane(block: nat, n: nat, dev: nat): nat
  {
    Mul(block, n) + dev
  }

  /** Lane `dev` of row `block` is the block at sector `block * chunk` of device `dev`. */
  lemma LostBlockAddr(block: nat, dev: nat, n: nat, chunk: nat)
    requires dev < n
    ensures LaneAddr(ArrayLane(block, n, dev), n, chunk) == Addr(dev, Mul(block, chunk))
  {
    DivModUnique(block * n + dev, n, block, dev);
  }

  /**
   * The loop that plans the rebuild of a global syndrome: read every lane
   * of the stripe whose role entry is below 16.
   */
  method ReadLowLanes(s: seq<byte>, base: nat, n: nat, chunk: nat) returns (sources: seq<Addr>)
    requires n > 0
    ensures sources == LaneReads(Where(s, |s|, IsLow), base, n, chunk)
  {
    sources := [];
    for i := 0 to |s|
      invariant sources == LaneReads(Where(s, i, IsLow), base, n, chunk)
    {
      WhereStep(s, i, IsLow);
      if s[i] < 16 {
        LaneReadsAppend(Where(s, i, IsLow), i, base, n, chunk);
        sources := sources + [LaneAddr(base + i, n, chunk)];
      } else {
        assert Where(s, i, IsLow) + [] == Where(s, i, IsLow);
      }
    }
  }

  /** The lanes below `i` whose entry `| 0xc0` equals lane `b`'s, without `b` itself, in order. */
  function GroupPrefix(s: seq<byte>, b: nat, i: nat): seq<nat>
    requires b < |s| && i <= |s|
  {
    if i == 0 then []
    else GroupPrefix(s, b, i - 1) + (if OrC0(s[i - 1]) == OrC0(s[b]) && i - 1 != b then [i - 1] else [])
  }

  /** Those lanes are the group's lanes below `i`, less `b`. */
  lemma {:induction false} GroupPrefixIsExcept(s: seq<byte>, b: nat, i: nat)
    requires b < |s| && i <= |s|
    ensures GroupPrefix(s, b, i) == Except(Where(s, i, HasRole(OrC0(s[b]))), b)
  {
    if i > 0 {
      GroupPrefixIsExcept(s, b, i - 1);
      ExceptWhereStep(s, OrC0(s[b]), b, i - 1);
    }
  }

  /** One more entry extends the group's lanes, less `b`, by its index exactly when it is another lane of the group. */
  lemma ExceptWhereStep(s: seq<byte>, role: byte, b: nat, i: nat)
    requires i < |s|
    ensures Except(Where(s, i + 1, HasRole(role)), b)
         == Except(Where(s, i, HasRole(role)), b) + (if OrC0(s[i]) == role && i != b then [i] else [])
  {
    var w := Where(s, i, HasRole(role));
    WhereStep(s, i, HasRole(role));
    if OrC0(s[i]) == role {
      ExceptAppend(w, i, b);
    } else {
      assert w + [] == w;
    }
  }

  /**
   * The loop that plans the rebuild of any other lane `b`: read every other
   * lane whose entry `| 0xc0` equals lane `b`'s. It also returns its
   * counter, which the planners go on to use.
   */
  method ReadGroupLanes(s: seq<byte>, b: nat, base: nat, n: nat, chunk: nat) returns (sources: seq<Addr>, i: nat)
    requires n > 0 && b < |s|
    ensures sources == LaneReads(GroupPrefix(s, b, |s|), base, n, chunk) && i == |s|
  {
    var substripe := OrC0(s[b]);
    sources := [];
    i := 0;
    while i < |s|
      invariant i <= |s|
      invariant sources == LaneReads(GroupPrefix(s, b, i), base, n, chunk)
    {
      var pattern := OrC0(s[i]);
      if pattern == substripe && i != b {
        LaneReadsAppend(GroupPrefix(s, b, i), i, base, n, chunk);
        sources := sources + [LaneAddr(base + i, n, chunk)];
      } else {
        assert GroupPrefix(s, b, i) + [] == GroupPrefix(s, b, i);
      }
      i := i + 1;
    }
  }

  /** The placement algorithms a descriptor can point at. */
  datatype Scheme = Raid6 | Raid7 | Raid6e | Elegant | ElegantDegraded | ElegantRebuilt
                  | Lrc | Hashed(template: CheckedTemplate)

  /**
   * An algorithm descriptor. `mapFn`, `configureFn` and `recoverFn` name the
   * scheme whose function the corresponding pointer calls; None is a null
   * pointer.
   */
  datatype Algorithm = Algorithm(name: string, ndisks: nat, stripeBlocks: nat,
                                 pBlocks: nat, eBlocks: nat, mapFn: Option<Scheme>,
                                 configureFn: Option<Scheme>, recoverFn: Option<Scheme>)

  /**
   * A constructed target: device count and `ndev_shift` (-1 unless the count
   * is a power of two), chunk size in sectors and its shift, the I/O
   * pattern, the disk being recovered, the per-device width, the target's
   * start and length, and the configured algorithm.
   */
  datatype Context = Context(ndev: nat, ndevShift: int, chunkSize: nat, chunkShift: nat,
                             ioPattern: nat, recoveringDisk: nat, devWidth: nat,
                             targetBegin: nat, targetLen: nat, alg: Algorithm)
}
