/**
 * RAID-6 placement: rows of N blocks, N-2 data blocks and two syndromes
 * per row, the pair of syndromes moving one device to the left on every
 * row so that N consecutive rows form a rotating square.
 */
module Raid6 {
  import opened Wrappers
  import opened InsaneH
  import opened Arith

  const P_BLOCKS: nat := 2
  const E_BLOCKS: nat := 0

  /** The descriptor; `ndisks` and `stripe_blocks` are filled in by `Configure`. */
  const Descriptor: Algorithm :=
    Algorithm("raid6", 0, 0, P_BLOCKS, E_BLOCKS, Some(Scheme.Raid6), Some(Scheme.Raid6), Some(Scheme.Raid6))

  /** The device of the second syndrome (device_number[1]) in a row of rotation `y`. */
  function SyndromeQ(n: nat, y: nat): nat
    requires y < n
  {
    n - 1 - y
  }

  /** The device of the first syndrome (device_number[0]): left of the second, or the last device. */
  function SyndromeP(n: nat, y: nat): (d: nat)
    requires y < n
    ensures d < n
    ensures n >= 2 ==> d != SyndromeQ(n, y)
  {
    if y < n - 1 then SyndromeQ(n, y) - 1 else n - 1
  }

  /** How many devices below `d` hold data in a row of rotation `y`. */
  function DataBelow(n: nat, y: nat, d: nat): int
    requires y < n
  {
    d - (if SyndromeP(n, y) < d then 1 else 0) - (if SyndromeQ(n, y) < d then 1 else 0)
  }

  /**
   * The number of syndromes to the left of data block `p` in a row of
   * rotation `y`: none above the diagonal, one in the last row of the
   * square, two elsewhere.
   */
  function LocalGap(n: nat, p: nat, y: nat): nat
  {
    if p + y < n - 2 then 0 else if y == n - 1 then 1 else 2
  }

  /**
   * The device of the `p`-th data block of a row: the data blocks fill the
   * non-syndrome devices from left to right.
   */
  function DataDevice(n: nat, y: nat, p: nat): (d: nat)
    requires n >= 3 && y < n && p < n - 2
    ensures d < n && d != SyndromeP(n, y) && d != SyndromeQ(n, y)
    ensures DataBelow(n, y, d) == p
  {
    p + LocalGap(n, p, y)
  }

  /**
   * Every row is a permutation of the devices: the data devices increase
   * with `p`, the two syndromes are distinct, and every device that is not
   * a syndrome holds the data block its rank names.
   */
  lemma RowIsPermutation(n: nat, y: nat)
    requires n >= 3 && y < n
    ensures SyndromeP(n, y) != SyndromeQ(n, y)
    ensures forall p1, p2 :: 0 <= p1 < p2 < n - 2 ==> DataDevice(n, y, p1) < DataDevice(n, y, p2)
    ensures forall d :: 0 <= d < n && d != SyndromeP(n, y) && d != SyndromeQ(n, y) ==>
      0 <= DataBelow(n, y, d) < n - 2 && DataDevice(n, y, DataBelow(n, y, d)) == d
  {
  }

  /**
   * algorithm_raid6: data block `device + block * N` is the `p`-th data
   * block of row `lane`; it lands on that row, on the `p`-th data device,
   * at the same offset within its chunk, and both syndromes sit in the
   * same row. In sequential mode the last data block of the row, and only
   * it, is flagged.
   */
  function Map(n: nat, chunk: nat, pattern: nat, block: nat, sector: nat, dev: nat): MapResult
    requires n >= 3 && chunk > 0
  {
    var dataBlock: nat := dev + block * n;
    var lane := Div(dataBlock, n - 2);
    var position := Mod(dataBlock, n - 2);
    var y := Mod(lane, n);
    var localGap := LocalGap(n, position, y);
    var remapped := dataBlock + localGap + 2 * lane;
    var device := Mod(remapped, n);
    var row := Div(remapped, n);
    var lastBlock := pattern == SEQUENTIAL && device + (2 - localGap) == n - 1;
    var blockStart := row * chunk;
    var q := n - 1 - y;
    var p := if y < n - 1 then q - 1 else n - 1;
    MapResult(device, blockStart + Mod(sector, chunk),
              ParityPlaces([Place(p, blockStart), Place(q, blockStart), End], 0, blockStart, Some(lastBlock)))
  }

  /**
   * algorithm_raid6: data block `device + block * N` is the `p`-th data
   * block of row `lane`; it lands on that row, on the `p`-th data device,
   * at the same offset within its chunk, and both syndromes sit in the
   * same row. In sequential mode the last data block of the row, and only
   * it, is flagged.
   */
  lemma MapPlacesInRow(n: nat, chunk: nat, pattern: nat, block: nat, sector: nat, dev: nat)
    requires n >= 3 && chunk > 0
    ensures var r := Map(n, chunk, pattern, block, sector, dev);
      var db := dev + block * n;
      var lane, p := db / (n - 2), db % (n - 2);
      var y := lane % n;
      && r.device == DataDevice(n, y, p)
      && r.sector == lane * chunk + sector % chunk
      && r.parity.slots == [Place(SyndromeP(n, y), lane * chunk), Place(SyndromeQ(n, y), lane * chunk), End]
      && r.parity.startDevice == 0 && r.parity.startSector == lane * chunk
      && r.parity.lastBlock == Some(pattern == SEQUENTIAL && p == n - 3)
  {
    var db := dev + block * n;
    var lane, p := db / (n - 2), db % (n - 2);
    var y := lane % n;
    var gap := LocalGap(n, p, y);
    assert p < n - 2 && y < n;
    RowPosition(db, n, lane, p, gap);
    LastBlockIff(n, p, y);
  }

  /** The sequential-mode test `device + (2 - local_gap) == N - 1` holds for the last data block only. */
  lemma LastBlockIff(n: nat, p: nat, y: nat)
    requires n >= 3 && y < n && p < n - 2
    ensures (p + LocalGap(n, p, y) + (2 - LocalGap(n, p, y)) == n - 1) == (p == n - 3)
  {
  }

  /** `data_block + local_gap + 2 * lane` is column `p + local_gap` of row `lane`. */
  lemma RowPosition(db: nat, n: nat, lane: nat, p: nat, gap: nat)
    requires n >= 3 && lane == db / (n - 2) && p == db % (n - 2) && p + gap < n
    ensures (db + gap + 2 * lane) % n == p + gap && (db + gap + 2 * lane) / n == lane
  {
    assert db == lane * (n - 2) + p;
    Distribute(lane, n - 2, 2);
    DivModUnique(db + gap + 2 * lane, n, lane, p + gap);
  }

  // ---------------------------------------------------------------------
  // Recovery

  /** The first device the recovery loop looks at: `(N - block) mod N`, computed in u64. */
  function FirstDevice(n: nat, block: nat): nat
    requires n >= 1
  {
    Mod(Wrap64(n - block), n)
  }

  /** The `k`-th device read: the devices from `FirstDevice` on, cyclically, skipping `skip`. */
  function ReadDevice(n: nat, block: nat, skip: nat, k: nat): nat
    requires n >= 1
  {
    var start := FirstDevice(n, block);
    var off := Mod(skip - start, n);
    Mod(start + k + (if k >= off then 1 else 0), n)
  }

  /** The plan raid6_recover fills: N-2 reads, all in row `block`; the write target is never set. */
  function RecoverPlan(n: nat, chunk: nat, block: nat, dev: nat): RecoverStripe
    requires n >= 1
  {
    var skip := Mod(block + dev, n);
    RecoverStripe(n - 2, seq(if n >= 2 then n - 2 else 0, (k: nat) => Addr(ReadDevice(n, block, skip, k), Mul(block, chunk))),
                  None, None)
  }

  /**
   * raid6_recover: walk the devices cyclically from `(N - block) mod N`,
   * reading every one except `(block + device) mod N`, until N-2 reads
   * are recorded.
   */
  method Recover(n: nat, chunk: nat, block: nat, dev: nat) returns (plan: RecoverStripe)
    requires n >= 1
    ensures plan == RecoverPlan(n, chunk, block, dev)
  {
    var blockPlace := Mod(block + dev, n);
    var start := FirstDevice(n, block);
    var sector := Mul(block, chunk);
    var device := start;
    ghost var off := Mod(blockPlace - start, n);
    ghost var steps := 0;
    var counter := 0;
    var sources: seq<Addr> := [];
    ghost var len := if n >= 2 then n - 2 else 0;
    ModSmall(start, n);
    while counter < n - 2
      invariant 0 <= steps <= n - 1 && 0 <= counter <= len
      invariant device == Mod(start + steps, n)
      invariant counter == steps - (if steps > off then 1 else 0)
      invariant |sources| == counter
      invariant forall k :: 0 <= k < counter ==> sources[k] == Addr(ReadDevice(n, block, blockPlace, k), sector)
      decreases n - 1 - steps
    {
      SkipsOnlyAt(start, blockPlace, steps, n);
      ModSucc(start + steps, n);
      assert Mod(device + 1, n) == Mod(start + steps + 1, n);
      if device != blockPlace {
        sources := sources + [Addr(device, sector)];
        counter := counter + 1;
      }
      device := Mod(device + 1, n);
      steps := steps + 1;
    }
    assert sources == RecoverPlan(n, chunk, block, dev).sources;
    plan := RecoverStripe(n - 2, sources, None, None);
  }

  /** The loop meets the skipped device exactly at step `(skip - start) mod N`. */
  lemma SkipsOnlyAt(start: nat, skip: nat, steps: nat, n: nat)
    requires 0 < n && start < n && skip < n && steps < n
    ensures ((start + steps) % n == skip) == (steps == (skip - start) % n)
  {
    var off := (skip - start) % n;
    if skip >= start {
      DivModUnique(skip - start, n, 0, skip - start);
    } else {
      DivModUnique(skip - start, n, -1, skip - start + n);
      DivModUnique(start + off, n, 1, skip);
    }
    ModSmall(skip, n);
    assert (start + off) % n == skip;
    if steps != off { ModInjective(start, steps, off, n); }
  }

  /**
   * The plan reads N-2 distinct devices, none of them the block's own place
   * `(block + device) mod N`, all at sector `block * chunk_size`.
   */
  lemma RecoverPlanReads(n: nat, chunk: nat, block: nat, dev: nat)
    requires n >= 3
    ensures var plan := RecoverPlan(n, chunk, block, dev);
      && plan.quantity == n - 2 == |plan.sources|
      && plan.writeDevice.None?
      && (forall k :: 0 <= k < |plan.sources| ==>
            plan.sources[k].device < n && plan.sources[k].device != (block + dev) % n
            && plan.sources[k].sector == block * chunk)
      && (forall k1, k2 :: 0 <= k1 < k2 < |plan.sources| ==> plan.sources[k1].device != plan.sources[k2].device)
  {
    var plan := RecoverPlan(n, chunk, block, dev);
    var skip := (block + dev) % n;
    forall k | 0 <= k < |plan.sources| ensures plan.sources[k].device != skip {
      ReadDeviceSkips(n, block, skip, k);
    }
    forall k1, k2 | 0 <= k1 < k2 < |plan.sources| ensures plan.sources[k1].device != plan.sources[k2].device {
      ReadDeviceInjective(n, block, skip, k1, k2);
    }
  }

  /** The recovery walk never reads the skipped device. */
  lemma ReadDeviceSkips(n: nat, block: nat, skip: nat, k: nat)
    requires n >= 3 && skip < n && k < n - 2
    ensures ReadDevice(n, block, skip, k) != skip
  {
    var start := FirstDevice(n, block);
    var off := (skip - start) % n;
    var k' := k + (if k >= off then 1 else 0);
    if (start + k') % n == skip { SkipsOnlyAt(start, skip, k', n); }
  }

  /** The recovery walk reads each device at most once. */
  lemma ReadDeviceInjective(n: nat, block: nat, skip: nat, k1: nat, k2: nat)
    requires n >= 3 && skip < n && k1 < k2 < n - 2
    ensures ReadDevice(n, block, skip, k1) != ReadDevice(n, block, skip, k2)
  {
    var start := FirstDevice(n, block);
    var off := (skip - start) % n;
    var a := k1 + (if k1 >= off then 1 else 0);
    var b := k2 + (if k2 >= off then 1 else 0);
    ModInjective(start, a, b, n);
  }

  /** The read list fits the 64-entry arrays of `recover_stripe` only while N <= 66. */
  lemma RecoverPlanFits(n: nat, chunk: nat, block: nat, dev: nat)
    requires n >= 3
    ensures |RecoverPlan(n, chunk, block, dev).sources| <= MAX_SYNDROMES <==> n <= 66
  {
  }
}
