/**
 * RAID-7 placement: rows of N blocks, N-3 data blocks and three syndromes
 * per row; the three syndromes move one device to the left on every row,
 * wrapping round the right edge, so that N consecutive rows form a square.
 */
module Raid7 {
  import opened Wrappers
  import opened InsaneH
  import opened Arith

  const P_BLOCKS: nat := 3
  const E_BLOCKS: nat := 0

  /** The descriptor; it has no recovery function. */
  const Descriptor: Algorithm :=
    Algorithm("raid7", 0, 0, P_BLOCKS, E_BLOCKS, Some(Scheme.Raid7), Some(Scheme.Raid7), None)

  /** The device of the third syndrome (device_number[2]) in a row of rotation `y`. */
  function Syndrome2(n: nat, y: nat): nat
    requires y < n
  {
    n - 1 - y
  }

  /** device_number[1]: left of the third syndrome, wrapping past device 0. */
  function Syndrome1(n: nat, y: nat): nat
    requires n >= 4 && y < n
  {
    if y == n - 1 then n - 1 else if y == n - 2 then 0 else Syndrome2(n, y) - 1
  }

  /** device_number[0]: two left of the third syndrome, wrapping past device 0. */
  function Syndrome0(n: nat, y: nat): nat
    requires n >= 4 && y < n
  {
    if y == n - 1 then n - 2 else if y == n - 2 then n - 1 else Syndrome2(n, y) - 2
  }

  predicate IsSyndrome(n: nat, y: nat, d: nat)
    requires n >= 4 && y < n
  {
    d == Syndrome0(n, y) || d == Syndrome1(n, y) || d == Syndrome2(n, y)
  }

  /** How many devices below `d` hold data in a row of rotation `y`. */
  function DataBelow(n: nat, y: nat, d: nat): int
    requires n >= 4 && y < n
  {
    d - (if Syndrome0(n, y) < d then 1 else 0) - (if Syndrome1(n, y) < d then 1 else 0)
      - (if Syndrome2(n, y) < d then 1 else 0)
  }

  /**
   * The number of syndromes left of data block `p` in a row of rotation
   * `y`: none above the diagonal, one or two in the last two rows of the
   * square, three elsewhere.
   */
  function LocalGap(n: nat, p: nat, y: nat): nat
  {
    if p + y < n - 3 then 0 else if y == n - 1 then 1 else if y == n - 2 then 2 else 3
  }

  /** The device of the `p`-th data block of a row: the data fill the non-syndrome devices in order. */
  function DataDevice(n: nat, y: nat, p: nat): (d: nat)
    requires n >= 4 && y < n && p < n - 3
    ensures d < n && !IsSyndrome(n, y, d)
    ensures DataBelow(n, y, d) == p
  {
    p + LocalGap(n, p, y)
  }

  /**
   * Every row is a permutation of the devices: three distinct syndromes,
   * data devices increasing with `p`, and every other device holding the
   * data block its rank names.
   */
  lemma RowIsPermutation(n: nat, y: nat)
    requires n >= 4 && y < n
    ensures Syndrome0(n, y) < n && Syndrome1(n, y) < n && Syndrome2(n, y) < n
    ensures Syndrome0(n, y) != Syndrome1(n, y) && Syndrome1(n, y) != Syndrome2(n, y)
      && Syndrome0(n, y) != Syndrome2(n, y)
    ensures forall p1, p2 :: 0 <= p1 < p2 < n - 3 ==> DataDevice(n, y, p1) < DataDevice(n, y, p2)
    ensures forall d :: 0 <= d < n && !IsSyndrome(n, y, d) ==>
      0 <= DataBelow(n, y, d) < n - 3 && DataDevice(n, y, DataBelow(n, y, d)) == d
  {
  }

  /** algorithm_raid7. */
  function Map(n: nat, chunk: nat, pattern: nat, block: nat, sector: nat, dev: nat): MapResult
    requires n >= 4 && chunk > 0
  {
    var dataBlock: nat := dev + block * n;
    var lane := Div(dataBlock, n - P_BLOCKS);
    var position := Mod(dataBlock, n - P_BLOCKS);
    var y := Mod(lane, n);
    var localGap := LocalGap(n, position, y);
    var remapped := dataBlock + localGap + 3 * lane;
    var device := Mod(remapped, n);
    var row := Div(remapped, n);
    var lastBlock := pattern == SEQUENTIAL && device + (3 - localGap) == n - 1;
    var blockStart := row * chunk;
    var d2 := n - 1 - y;
    var d1 := if y == n - 1 then n - 1 else if y == n - 2 then 0 else d2 - 1;
    var d0 := if y == n - 1 then n - 2 else if y == n - 2 then n - 1 else d2 - 2;
    MapResult(device, blockStart + Mod(sector, chunk),
              ParityPlaces([Place(d0, blockStart), Place(d1, blockStart), Place(d2, blockStart), End],
                           0, blockStart, Some(lastBlock)))
  }

  /**
   * algorithm_raid7: data block `device + block * N` is the `p`-th data
   * block of row `lane`; it lands on that row at the `p`-th data device
   * with its offset within the chunk kept, the three syndromes sit in the
   * same row, and in sequential mode exactly the last data block of the
   * row is flagged.
   */
  lemma MapPlacesInRow(n: nat, chunk: nat, pattern: nat, block: nat, sector: nat, dev: nat)
    requires n >= 4 && chunk > 0
    ensures var r := Map(n, chunk, pattern, block, sector, dev);
      var db := dev + block * n;
      var lane, p := db / (n - 3), db % (n - 3);
      var y := lane % n;
      && r.device == DataDevice(n, y, p)
      && r.sector == lane * chunk + sector % chunk
      && r.parity.slots == [Place(Syndrome0(n, y), lane * chunk), Place(Syndrome1(n, y), lane * chunk),
                            Place(Syndrome2(n, y), lane * chunk), End]
      && r.parity.startDevice == 0 && r.parity.startSector == lane * chunk
      && r.parity.lastBlock == Some(pattern == SEQUENTIAL && p == n - 4)
  {
    var db := dev + block * n;
    var lane, p := db / (n - 3), db % (n - 3);
    var y := lane % n;
    var gap := LocalGap(n, p, y);
    assert p < n - 3 && y < n;
    RowPosition(db, n, lane, p, gap);
  }

  /** `data_block + local_gap + 3 * lane` is column `p + local_gap` of row `lane`. */
  lemma RowPosition(db: nat, n: nat, lane: nat, p: nat, gap: nat)
    requires n >= 4 && lane == db / (n - 3) && p == db % (n - 3) && p + gap < n
    ensures (db + gap + 3 * lane) % n == p + gap && (db + gap + 3 * lane) / n == lane
  {
    assert db == lane * (n - 3) + p;
    Distribute(lane, n - 3, 3);
    DivModUnique(db + gap + 3 * lane, n, lane, p + gap);
  }
}
