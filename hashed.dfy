/**
 * The hashed layout: every stripe is the starting scheme of a template
 * shuffled by a Fisher-Yates pass seeded with the stripe's number, and the
 * mapping and recovery functions read the roles of the lanes from that
 * shuffled table. The template (the generated constants and starting
 * scheme) is a parameter; `ValidTemplate` says what it must satisfy.
 */
module Hashed {
  import opened Wrappers
  import opened Layout
  import opened InsaneH
  import opened Arith

  /** The multiplier, increment and modulus of linear_random. */
  const LCG_A: nat := 4096
  const LCG_C: nat := 150889
  const LCG_M: nat := 714025

  /** The descriptor of a template; `configure` fills in `ndisks`. */
  function Descriptor(t: CheckedTemplate): (a: Algorithm)
    ensures a.name == "hashed" && a.ndisks == 0 && a.mapFn == a.configureFn == a.recoverFn == Some(Scheme.Hashed(t))
    ensures a.stripeBlocks == a.pBlocks + a.eBlocks + StripeData(t)
  {
    Algorithm("hashed", 0, StripeLength(t), t.substripes + t.globalS, t.eBlocks,
              Some(Scheme.Hashed(t)), Some(Scheme.Hashed(t)), Some(Scheme.Hashed(t)))
  }

  // ---------------------------------------------------------------------
  // The shuffle

  /**
   * linear_random: one step of the generator, in u64 arithmetic. The
   * product wraps only for a seed of at least 2^64 / 4096; every value the
   * generator itself produces is below the modulus, where it does not.
   */
  function LinearRandom(seed: nat): (r: nat)
  {
    Mod(Wrap64(LCG_A * seed + LCG_C), LCG_M)
  }

  /** Below the modulus the product does not wrap, and every drawn value is below the modulus again. */
  lemma LinearRandomRange(seed: nat)
    ensures LinearRandom(seed) < LCG_M
    ensures seed < LCG_M ==> LinearRandom(seed) == (LCG_A * seed + LCG_C) % LCG_M
  {
  }

  /** `s` with entries `i` and `j` exchanged. */
  function Swap(s: seq<byte>, i: nat, j: nat): (r: seq<byte>)
    requires i < |s| && j < |s|
    ensures |r| == |s|
    ensures r[i] == s[j] && r[j] == s[i]
    ensures forall k :: 0 <= k < |s| && k != i && k != j ==> r[k] == s[k]
  {
    s[i := s[j]][j := s[i]]
  }

  /** Exchanging two entries keeps the entries. */
  lemma SwapPermutes(s: seq<byte>, i: nat, j: nat)
    requires i < |s| && j < |s|
    ensures multiset(Swap(s, i, j)) == multiset(s)
  {
  }

  /**
   * The Fisher-Yates pass from position `i` down to position 1 with
   * generator state `rnd`: each step draws the next value and swaps entry
   * `i` with the entry at that value modulo `i + 1`.
   */
  function ShuffleFrom(s: seq<byte>, rnd: nat, i: nat): (r: seq<byte>)
    requires i < |s|
    ensures |r| == |s|
    decreases i
  {
    if i == 0 then s
    else
      var next := LinearRandom(rnd);
      ShuffleFrom(Swap(s, i, Mod(next, i + 1)), next, i - 1)
  }

  /** fisher_yates_randomizing of `s` with seed `hash`. */
  function Shuffled(hash: nat, s: seq<byte>): (r: seq<byte>)
    ensures |r| == |s|
  {
    if s == [] then s else ShuffleFrom(s, hash, |s| - 1)
  }

  /** The pass only rearranges the entries. */
  lemma {:induction false} ShuffleFromPermutes(s: seq<byte>, rnd: nat, i: nat)
    requires i < |s|
    ensures multiset(ShuffleFrom(s, rnd, i)) == multiset(s)
    decreases i
  {
    if i > 0 {
      var next := LinearRandom(rnd);
      SwapPermutes(s, i, Mod(next, i + 1));
      ShuffleFromPermutes(Swap(s, i, Mod(next, i + 1)), next, i - 1);
    }
  }

  /** A shuffled scheme holds the same entries as the scheme, as often. */
  lemma ShuffledPermutes(hash: nat, s: seq<byte>)
    ensures multiset(Shuffled(hash, s)) == multiset(s)
  {
    if s != [] {
      ShuffleFromPermutes(s, hash, |s| - 1);
    }
  }

  /** fisher_yates_randomizing, in place. */
  method FisherYates(hash: nat, a: array<byte>)
    modifies a
    ensures a[..] == Shuffled(hash, old(a[..]))
  {
    ghost var target := Shuffled(hash, a[..]);
    var rnd := hash;
    var i: int := a.Length - 1;
    while i > 0
      invariant -1 <= i < a.Length
      invariant i >= 0 ==> ShuffleFrom(a[..], rnd, i) == target
      invariant i < 0 ==> a[..] == target
    {
      ghost var current := a[..];
      ShuffleStep(current, rnd, i);
      rnd := LinearRandom(rnd);
      var j := Mod(rnd, i + 1);
      Exchange(a, i, j);
      assert a[..] == Swap(current, i, j);
      i := i - 1;
    }
  }

  /** One step of the pass: draw, swap, and continue one position lower. */
  lemma ShuffleStep(s: seq<byte>, rnd: nat, i: nat)
    requires 0 < i < |s|
    ensures ShuffleFrom(s, rnd, i)
         == ShuffleFrom(Swap(s, i, Mod(LinearRandom(rnd), i + 1)), LinearRandom(rnd), i - 1)
  {
  }

  /** The three assignments of one shuffle step: exchange entries `i` and `j`. */
  method Exchange(a: array<byte>, i: nat, j: nat)
    requires i < a.Length && j < a.Length
    modifies a
    ensures a[..] == Swap(old(a[..]), i, j)
  {
    var tmp := a[i];
    a[i] := a[j];
    a[j] := tmp;
  }

  // ---------------------------------------------------------------------
  // The tables of a stripe

  /** A shuffled scheme and the tables get_stripe derives from it (struct hashed_stripe). */
  datatype Stripe = Stripe(scheme: seq<byte>, data: seq<byte>, gs: seq<nat>, ls: seq<nat>,
                           eb: Option<nat>, offset: seq<nat>, ldb: Option<nat>)

  /** The last data lane below `n` other than lane 0, which the search never examines. */
  function LastData(s: seq<byte>, n: nat): (r: Option<nat>)
    requires n <= |s|
    ensures r.Some? ==> 1 <= r.value < n && IsData(s[r.value])
    ensures r.Some? ==> forall i :: r.value < i < n ==> !IsData(s[i])
    ensures r.None? ==> forall i :: 1 <= i < n ==> !IsData(s[i])
  {
    if n <= 1 then None
    else if IsData(s[n - 1]) then Some(n - 1)
    else LastData(s, n - 1)
  }

  /**
   * The tables of a shuffled scheme: the group entries of the data lanes
   * in lane order, the lanes of the global syndromes, the lanes holding a
   * local-syndrome code (0xc0 to 0xcf), the last empty lane, all non-data
   * lanes in order, and the last data lane.
   */
  function Classify(s: seq<byte>): Stripe
  {
    Stripe(s, ValuesAt(s, DataSlots(s)), Where(s, |s|, IsGlobal), Where(s, |s|, IsLocal),
           LastIndexOf(s, |s|, EMPTY_BLOCK), NonDataSlots(s), LastData(s, |s|))
  }

  /** Reading the entry of one more lane appends it to the values read. */
  lemma ValuesAtAppend(s: seq<byte>, idx: seq<nat>, i: nat)
    requires i < |s| && forall k :: 0 <= k < |idx| ==> idx[k] < |s|
    ensures ValuesAt(s, idx + [i]) == ValuesAt(s, idx) + [s[i]]
  {
  }

  /** The classification loops of get_stripe. */
  method ClassifyLanes(s: seq<byte>) returns (st: Stripe)
    ensures st == Classify(s)
  {
    var data: seq<byte> := [];
    var gs: seq<nat> := [];
    var ls: seq<nat> := [];
    var eb: Option<nat> := None;
    var offset: seq<nat> := [];
    var i := 0;
    while i < |s|
      invariant i <= |s|
      invariant data == ValuesAt(s, Where(s, i, IsData))
      invariant gs == Where(s, i, IsGlobal) && ls == Where(s, i, IsLocal)
      invariant offset == Where(s, i, IsNonData) && eb == LastIndexOf(s, i, EMPTY_BLOCK)
    {
      WhereStep(s, i, IsData);
      WhereStep(s, i, IsNonData);
      WhereStep(s, i, IsLocal);
      WhereStep(s, i, IsGlobal);
      if s[i] < 0xc0 {
        ValuesAtAppend(s, Where(s, i, IsData), i);
        data := data + [s[i]];
      } else {
        offset := offset + [i];
        if s[i] < 0xd0 {
          ls := ls + [i];
        }
        if s[i] == 0xff {
          gs := gs + [i];
        }
        if s[i] == 0xee {
          eb := Some(i);
        }
      }
      i := i + 1;
    }
    assert s[..|s|] == s;
    var ldb: Option<nat> := None;
    var k: int := |s| - 1;
    while k > 0
      invariant -1 <= k < |s|
      invariant LastData(s, |s|) == LastData(s, k + 1)
    {
      if s[k] < 0xc0 {
        ldb := Some(k);
        break;
      }
      k := k - 1;
    }
    st := Stripe(s, data, gs, ls, eb, offset, ldb);
  }

  /** The stripe number `number` uses: the starting scheme shuffled with the number as seed, and its tables. */
  function StripeOf(t: Template, number: nat): Stripe
  {
    Classify(Shuffled(number, t.scheme))
  }

  /** get_stripe: copy the starting scheme, shuffle the copy in place and classify it. */
  method GetStripe(t: Template, number: nat) returns (st: Stripe)
    ensures st == StripeOf(t, number)
  {
    var random := new byte[|t.scheme|];
    for i := 0 to |t.scheme|
      invariant random[..i] == t.scheme[..i]
    {
      random[i] := t.scheme[i];
    }
    assert random[..] == t.scheme;
    FisherYates(number, random);
    st := ClassifyLanes(random[..]);
  }

  /** A role occurs as often in every stripe as in the starting scheme. */
  lemma RoleCount(t: Template, number: nat, p: byte -> bool)
    ensures |Where(StripeOf(t, number).scheme, |t.scheme|, p)| == Count(t.scheme, p)
  {
    var s := Shuffled(number, t.scheme);
    ShuffledPermutes(number, t.scheme);
    WhereCount(s, |s|, p);
    assert s[..|s|] == s;
    CountPermutation(s, t.scheme, p);
  }

  /**
   * Under a valid template the tables of every stripe have the sizes of the
   * fixed arrays of struct hashed_stripe: SUBSTRIPES * SUBSTRIPE_DATA group
   * entries, each naming a group below SUBSTRIPES; SUBSTRIPES local and
   * GLOBAL_S global syndrome lanes; SUBSTRIPES + E_BLOCKS + GLOBAL_S
   * non-data lanes; and an empty lane. Every entry keeps a known role.
   */
  lemma StripeCounts(t: CheckedTemplate, number: nat)
    ensures var st := StripeOf(t, number);
      && |st.scheme| == StripeLength(t)
      && |st.data| == |DataSlots(st.scheme)| == StripeData(t)
      && |st.ls| == t.substripes && |st.gs| == t.globalS
      && |st.offset| == StripeParity(t) && st.eb.Some?
      && (forall k :: 0 <= k < |st.data| ==> st.data[k] < t.substripes)
      && (forall i :: 0 <= i < |st.scheme| ==> KnownRole(st.scheme[i], t.substripes))
  {
    StripeSizes(t, number);
    StripeRoles(t, number);
    StripeGroups(t, number);
    StripeHasEmpty(t, number);
  }

  lemma StripeSizes(t: CheckedTemplate, number: nat)
    ensures var st := StripeOf(t, number);
      && |st.data| == |DataSlots(st.scheme)| == StripeData(t)
      && |st.ls| == t.substripes && |st.gs| == t.globalS && |st.offset| == StripeParity(t)
  {
    RoleCount(t, number, IsData);
    RoleCount(t, number, IsNonData);
    RoleCount(t, number, IsLocal);
    RoleCount(t, number, IsGlobal);
  }

  lemma StripeRoles(t: CheckedTemplate, number: nat)
    ensures var s := StripeOf(t, number).scheme;
      forall i :: 0 <= i < |s| ==> KnownRole(s[i], t.substripes)
  {
    ShuffledPermutes(number, t.scheme);
    PermutationKeeps(t.scheme, Shuffled(number, t.scheme), (v: byte) => KnownRole(v, t.substripes));
  }

  lemma StripeGroups(t: CheckedTemplate, number: nat)
    ensures var st := StripeOf(t, number);
      forall k :: 0 <= k < |st.data| ==> st.data[k] < t.substripes
  {
    StripeRoles(t, number);
  }

  lemma StripeHasEmpty(t: CheckedTemplate, number: nat)
    ensures StripeOf(t, number).eb.Some?
  {
    var s := Shuffled(number, t.scheme);
    RoleCount(t, number, IsEmpty);
    var empties := Where(s, |s|, IsEmpty);
    assert s[empties[0]] == EMPTY_BLOCK;
  }

  /** On a stripe of a valid template the test "below 16" selects exactly the data lanes. */
  lemma LowIsData(t: CheckedTemplate, number: nat)
    ensures var s := StripeOf(t, number).scheme; Where(s, |s|, IsLow) == DataSlots(s)
  {
    StripeRoles(t, number);
    var s := StripeOf(t, number).scheme;
    WhereSame(s, |s|, IsLow, IsData);
  }

  // ---------------------------------------------------------------------
  // Mapping

  /** The first lane of stripe `number`. */
  function StripeStart(t: Template, number: nat): nat
  {
    Mul(number, StripeLength(t))
  }

  /**
   * The lane, counted over the whole array, of data block `db`: the
   * `db mod D`-th data lane of stripe `db / D`, D the data blocks of a
   * stripe.
   */
  function DataLane(t: CheckedTemplate, db: nat): nat
  {
    var vs := Div(db, StripeData(t));
    StripeSizes(t, vs);
    StripeStart(t, vs) + DataSlots(StripeOf(t, vs).scheme)[Mod(db, StripeData(t))]
  }

  /** The sequential-mode placement of lanes `idx` of the stripe that starts at the given device and sector. */
  function SeqSlots(startDevice: nat, startSector: nat, idx: seq<nat>, n: nat, chunk: nat): (r: seq<Slot>)
    requires n > 0
    ensures |r| == |idx| && forall k :: 0 <= k < |idx| ==> r[k] == SeqSlot(startDevice, startSector, idx[k], n, chunk)
  {
    seq(|idx|, k requires 0 <= k < |idx| => SeqSlot(startDevice, startSector, idx[k], n, chunk))
  }

  /** The slots of lanes `idx` of the stripe whose first lane is `base`. */
  function LaneSlots(idx: seq<nat>, base: nat, n: nat, chunk: nat): (r: seq<Slot>)
    requires n > 0
    ensures |r| == |idx| && forall k :: 0 <= k < |idx| ==> r[k] == LaneSlot(base + idx[k], n, chunk)
  {
    seq(|idx|, k requires 0 <= k < |idx| => LaneSlot(base + idx[k], n, chunk))
  }

  /**
   * The syndromes of data block `pos` of stripe `vs`. In random mode: the
   * lane `ls[g]` for the block's group entry g (the table of local-syndrome
   * lanes is in lane order and is indexed by the group), then the global
   * syndrome lanes. In sequential mode: all local-syndrome lanes and then
   * all global ones, placed by the "next row once the device wrapped"
   * rule from the stripe's first lane. An end marker follows.
   */
  function Syndromes(st: Stripe, base: nat, n: nat, chunk: nat, pattern: nat, pos: nat): seq<Slot>
    requires n > 0 && pos < |st.data| && st.data[pos] < |st.ls|
  {
    if pattern == SEQUENTIAL then
      var start := LaneAddr(base, n, chunk);
      SeqSlots(start.device, start.sector, st.ls + st.gs, n, chunk) + [End]
    else [LaneSlot(base + st.ls[st.data[pos]], n, chunk)] + LaneSlots(st.gs, base, n, chunk) + [End]
  }

  /**
   * The last-block flag for a block placed on `device`: false in random
   * mode; in sequential mode whether `device` is that of the stripe's last
   * data lane, unknown when the stripe has no data lane after lane 0.
   */
  function LastFlag(st: Stripe, base: nat, n: nat, pattern: nat, device: nat): Option<bool>
    requires n > 0
  {
    if pattern != SEQUENTIAL then Some(false)
    else if st.ldb.None? then None
    else Some(device == (base % n + st.ldb.value) % n)
  }

  /**
   * The placement algorithm_hashed computes for chunk `block` of device
   * `dev` of the virtual device. Data block `db = dev + block * n` is the
   * `db mod D`-th data block of stripe `db / D`, whose roles are the
   * starting scheme shuffled with seed `db / D`; it goes to that stripe's
   * data lane of the same rank, keeping its offset in the chunk.
   */
  function MapSpec(t: CheckedTemplate, n: nat, chunk: nat, pattern: nat, block: nat, sector: nat, dev: nat): MapResult
    requires n > 0 && chunk > 0
  {
    MapOfDataBlock(t, n, chunk, pattern, dev + Mul(block, n), sector)
  }

  /** The placement of data block `db`: its data lane's address, and its stripe's syndrome list. */
  function MapOfDataBlock(t: CheckedTemplate, n: nat, chunk: nat, pattern: nat, db: nat, sector: nat): MapResult
    requires n > 0 && chunk > 0
  {
    var data := LaneAddr(DataLane(t, db), n, chunk);
    MapResult(data.device, data.sector + Mod(sector, chunk), ParityOf(t, n, chunk, pattern, db, data.device))
  }

  /** The syndrome list of data block `db`, placed on `device`, with the start of its stripe. */
  function ParityOf(t: CheckedTemplate, n: nat, chunk: nat, pattern: nat, db: nat, device: nat): ParityPlaces
    requires n > 0
  {
    var vs := Div(db, StripeData(t));
    StripeSizes(t, vs);
    StripeGroups(t, vs);
    var st := StripeOf(t, vs);
    var base := StripeStart(t, vs);
    var start := LaneAddr(base, n, chunk);
    ParityPlaces(Syndromes(st, base, n, chunk, pattern, Mod(db, StripeData(t))), start.device, start.sector,
                 LastFlag(st, base, n, pattern, device))
  }

  /** The sequential-mode loops of algorithm_hashed: the local syndromes, the global ones, the end marker. */
  method SequentialSlots(ls: seq<nat>, gs: seq<nat>, startDevice: nat, startSector: nat, n: nat, chunk: nat)
    returns (slots: seq<Slot>)
    requires n > 0
    ensures slots == SeqSlots(startDevice, startSector, ls + gs, n, chunk) + [End]
  {
    slots := [];
    for i := 0 to |ls|
      invariant slots == SeqSlots(startDevice, startSector, ls[..i], n, chunk)
    {
      var d := Mod(startDevice + ls[i], n);
      slots := slots + [Place(d, if d < startDevice then startSector + chunk else startSector)];
      assert ls[..i + 1] == ls[..i] + [ls[i]];
    }
    assert ls[..|ls|] == ls;
    for j := 0 to |gs|
      invariant slots == SeqSlots(startDevice, startSector, ls + gs[..j], n, chunk)
    {
      var d := Mod(startDevice + gs[j], n);
      slots := slots + [Place(d, if d < startDevice then startSector + chunk else startSector)];
      assert ls + gs[..j + 1] == ls + gs[..j] + [gs[j]];
    }
    assert gs[..|gs|] == gs;
    slots := slots + [End];
  }

  /** The random-mode loop of algorithm_hashed: the local syndrome, the global ones, the end marker. */
  method RandomSlots(local: nat, gs: seq<nat>, base: nat, n: nat, chunk: nat) returns (slots: seq<Slot>)
    requires n > 0
    ensures slots == [LaneSlot(local, n, chunk)] + LaneSlots(gs, base, n, chunk) + [End]
  {
    var a := LaneAddr(local, n, chunk);
    slots := [Place(a.device, a.sector)];
    for i := 0 to |gs|
      invariant slots == [LaneSlot(local, n, chunk)] + LaneSlots(gs[..i], base, n, chunk)
    {
      var g := LaneAddr(base + gs[i], n, chunk);
      slots := slots + [Place(g.device, g.sector)];
      assert gs[..i + 1] == gs[..i] + [gs[i]];
    }
    assert gs[..|gs|] == gs;
    slots := slots + [End];
  }

  /** The local-gap loop: step over every non-data lane at or before the running position. */
  method LocalGap(offset: seq<nat>, pos: nat) returns (gap: nat)
    ensures gap == GapFrom(pos, offset, 0)
  {
    gap := pos;
    var i := 0;
    while i < |offset|
      invariant 0 <= i <= |offset|
      invariant GapFrom(gap, offset, i) == GapFrom(pos, offset, 0)
    {
      if gap >= offset[i] {
        gap := gap + 1;
      }
      i := i + 1;
    }
  }

  /** Data blocks before the stripe, plus the non-data lanes of the stripes before it, give its first lane. */
  lemma StripeStartSplit(t: CheckedTemplate, vs: nat)
    ensures Mul(vs, StripeData(t)) + Mul(vs, StripeParity(t)) == StripeStart(t, vs)
  {
    assert vs * StripeData(t) + vs * StripeParity(t) == vs * (StripeData(t) + StripeParity(t));
  }

  /** The syndrome loops of algorithm_hashed for data block `pos` of the stripe `strp` whose first lane is `base`. */
  method PlaceSyndromes(strp: Stripe, base: nat, n: nat, chunk: nat, pattern: nat, pos: nat) returns (slots: seq<Slot>)
    requires n > 0 && pos < |strp.data| && strp.data[pos] < |strp.ls|
    ensures slots == Syndromes(strp, base, n, chunk, pattern, pos)
  {
    if pattern == SEQUENTIAL {
      var start := LaneAddr(base, n, chunk);
      slots := SequentialSlots(strp.ls, strp.gs, start.device, start.sector, n, chunk);
    } else {
      var group := strp.data[pos];
      var localParity := base + strp.ls[group];
      slots := RandomSlots(localParity, strp.gs, base, n, chunk);
    }
  }

  /** The lane_pos computation of algorithm_hashed: global gap, local gap, and the block's own number. */
  method LanePosition(t: CheckedTemplate, strp: Stripe, db: nat) returns (lanePos: nat)
    requires strp == StripeOf(t, Div(db, StripeData(t)))
    ensures lanePos == DataLane(t, db)
  {
    var vs := Div(db, StripeData(t));
    var pos := Mod(db, StripeData(t));
    StripeSizes(t, vs);
    var globalGap := Mul(vs, StripeParity(t));
    var localGap := LocalGap(strp.offset, pos);
    GapFindsDataSlot(strp.scheme, pos);
    StripeStartSplit(t, vs);
    DivModSplit(db, StripeData(t));
    lanePos := db + globalGap + localGap - pos;
  }

  /** The last-block computation of algorithm_hashed for a block placed on `device`. */
  method LastBlockFlag(strp: Stripe, base: nat, n: nat, pattern: nat, startDevice: nat, device: nat)
    returns (flag: Option<bool>)
    requires n > 0 && startDevice == base % n
    ensures flag == LastFlag(strp, base, n, pattern, device)
  {
    var lastBlock: Option<nat> := None;
    if pattern == SEQUENTIAL && strp.ldb.Some? {
      lastBlock := Some(Mod(startDevice + strp.ldb.value, n));
    }
    flag := Some(false);
    if pattern == SEQUENTIAL {
      if lastBlock.None? {
        flag := None;
      } else if device == lastBlock.value {
        flag := Some(true);
      }
    }
  }

  /** algorithm_hashed, step by step. */
  method Map(t: CheckedTemplate, n: nat, chunk: nat, pattern: nat, block: nat, sector: nat, dev: nat) returns (r: MapResult)
    requires n > 0 && chunk > 0
    ensures r == MapOfDataBlock(t, n, chunk, pattern, dev + Mul(block, n), sector)
  {
    var dataBlock := dev + Mul(block, n);
    var virtualStripe := Div(dataBlock, StripeData(t));
    var strp := GetStripe(t, virtualStripe);
    r := MapInStripe(t, strp, n, chunk, pattern, dataBlock, sector);
  }

  /** The placement part of algorithm_hashed for data block `db`, once its stripe is generated. */
  method MapInStripe(t: CheckedTemplate, strp: Stripe, n: nat, chunk: nat, pattern: nat, db: nat, sector: nat)
      returns (r: MapResult)
    requires n > 0 && chunk > 0 && strp == StripeOf(t, Div(db, StripeData(t)))
    ensures r == MapOfDataBlock(t, n, chunk, pattern, db, sector)
  {
    var lanePos := LanePosition(t, strp, db);
    var a := LaneAddr(lanePos, n, chunk);
    var parity := StripeSyndromes(t, strp, n, chunk, pattern, db, a.device);
    r := MapResult(a.device, a.sector + Mod(sector, chunk), parity);
  }

  /** The syndrome part of algorithm_hashed for data block `db` of the stripe `strp`, placed on `device`. */
  method StripeSyndromes(t: CheckedTemplate, strp: Stripe, n: nat, chunk: nat, pattern: nat, db: nat, device: nat)
    returns (parity: ParityPlaces)
    requires n > 0 && strp == StripeOf(t, Div(db, StripeData(t)))
    ensures parity == ParityOf(t, n, chunk, pattern, db, device)
  {
    var virtualStripe := Div(db, StripeData(t));
    StripeSizes(t, virtualStripe);
    StripeGroups(t, virtualStripe);
    var base := StripeStart(t, virtualStripe);
    var start := LaneAddr(base, n, chunk);
    var slots := PlaceSyndromes(strp, base, n, chunk, pattern, Mod(db, StripeData(t)));
    var flag := LastBlockFlag(strp, base, n, pattern, start.device, device);
    parity := ParityPlaces(slots, start.device, start.sector, flag);
  }

  /**
   * The lane of data block `db` lies in stripe `db / D`, on that stripe's
   * `db mod D`-th data lane, whose entry is the group entry the stripe's
   * tables list for the block.
   */
  lemma DataLaneInStripe(t: CheckedTemplate, db: nat)
    ensures var vs := Div(db, StripeData(t));
      var st := StripeOf(t, vs);
      var b := DataLane(t, db) % StripeLength(t);
      && DataLane(t, db) / StripeLength(t) == vs
      && Mod(db, StripeData(t)) < |DataSlots(st.scheme)|
      && b == DataSlots(st.scheme)[Mod(db, StripeData(t))]
      && IsData(st.scheme[b]) && st.scheme[b] == st.data[Mod(db, StripeData(t))]
  {
    var vs, pos := Div(db, StripeData(t)), Mod(db, StripeData(t));
    StripeSizes(t, vs);
    var st := StripeOf(t, vs);
    var slot := DataSlots(st.scheme)[pos];
    DivModUnique(DataLane(t, db), StripeLength(t), vs, slot);
  }

  /** Later data blocks get later lanes, so no two data blocks share a lane. */
  lemma DataLaneIncreasing(t: CheckedTemplate, db1: nat, db2: nat)
    requires db1 < db2
    ensures DataLane(t, db1) < DataLane(t, db2)
  {
    var d := StripeData(t);
    var vs1, vs2 := Div(db1, d), Div(db2, d);
    DivMonotone(db1, db2, d);
    StripeSizes(t, vs1);
    StripeSizes(t, vs2);
    if vs1 == vs2 {
      ModOrder(db1, db2, d);
    } else {
      RowBefore(vs1, vs2, StripeLength(t), DataSlots(StripeOf(t, vs1).scheme)[Mod(db1, d)]);
    }
  }

  /** A block is placed on the device and row of its data lane, at its own offset in the chunk. */
  lemma MapPlacesData(t: CheckedTemplate, n: nat, chunk: nat, pattern: nat, block: nat, sector: nat, dev: nat)
    requires n > 0 && chunk > 0
    ensures var r := MapSpec(t, n, chunk, pattern, block, sector, dev);
      var lane := DataLane(t, dev + Mul(block, n));
      r.device == lane % n && r.sector / chunk == lane / n && r.sector % chunk == sector % chunk
  {
    OffsetKept(DataLane(t, dev + Mul(block, n)) / n, chunk, sector);
  }

  /** The tables of a classified stripe list lanes of the stripe, and each lane has the role of its table. */
  lemma TableRoles(s: seq<byte>)
    ensures var st := Classify(s);
      && (forall k :: 0 <= k < |st.ls| ==> st.ls[k] < |s| && IsLocal(s[st.ls[k]]))
      && (forall k :: 0 <= k < |st.gs| ==> st.gs[k] < |s| && IsGlobal(s[st.gs[k]]))
  {
  }

  /**
   * Random mode: lane `ls[g]` of the stripe for the block's group entry g
   * (a local-syndrome lane by `TableRoles`, but since the table lists those
   * lanes in lane order, not necessarily group g's), then the global
   * syndrome lanes, then the end marker.
   */
  lemma RandomSyndromes(st: Stripe, base: nat, n: nat, chunk: nat, pattern: nat, pos: nat)
    requires n > 0 && pos < |st.data| && st.data[pos] < |st.ls| && pattern != SEQUENTIAL
    ensures var s := Syndromes(st, base, n, chunk, pattern, pos);
      var lane := st.ls[st.data[pos]];
      && |s| == |st.gs| + 2 && s[|s| - 1] == End
      && s[0] == LaneSlot(base + lane, n, chunk)
      && (forall k :: 0 <= k < |st.gs| ==> s[k + 1] == LaneSlot(base + st.gs[k], n, chunk))
  {
    var s := Syndromes(st, base, n, chunk, pattern, pos);
    var globals := LaneSlots(st.gs, base, n, chunk);
    assert s == [LaneSlot(base + st.ls[st.data[pos]], n, chunk)] + globals + [End];
    assert forall k :: 0 <= k < |st.gs| ==> s[k + 1] == globals[k];
  }

  /**
   * Sequential mode: the local syndrome lanes, then the global ones, each
   * placed from the stripe's first lane by the "next row once the device
   * wrapped" rule, then the end marker.
   */
  lemma SequentialSyndromes(st: Stripe, base: nat, n: nat, chunk: nat, pos: nat)
    requires n > 0 && pos < |st.data| && st.data[pos] < |st.ls|
    ensures var s := Syndromes(st, base, n, chunk, SEQUENTIAL, pos);
      var start := LaneAddr(base, n, chunk);
      && |s| == |st.ls| + |st.gs| + 1 && s[|s| - 1] == End
      && (forall k :: 0 <= k < |st.ls| ==> s[k] == SeqSlot(start.device, start.sector, st.ls[k], n, chunk))
      && (forall k :: 0 <= k < |st.gs| ==> s[|st.ls| + k] == SeqSlot(start.device, start.sector, st.gs[k], n, chunk))
  {
    var idx := st.ls + st.gs;
    assert forall k :: 0 <= k < |st.gs| ==> idx[|st.ls| + k] == st.gs[k];
  }

  /**
   * When every syndrome lies less than `n` lanes after the stripe's first
   * lane (so with at least as many devices as the stripe has lanes, by
   * `TableRoles`), the syndromes span at most two rows, and the
   * sequential-mode rule places every one on its own lane.
   */
  lemma SequentialSyndromesOnLanes(st: Stripe, base: nat, n: nat, chunk: nat, pos: nat)
    requires pos < |st.data| && st.data[pos] < |st.ls|
    requires n > 0
    requires forall k :: 0 <= k < |st.ls| ==> st.ls[k] < n
    requires forall k :: 0 <= k < |st.gs| ==> st.gs[k] < n
    ensures var s := Syndromes(st, base, n, chunk, SEQUENTIAL, pos);
      && |s| == |st.ls| + |st.gs| + 1
      && (forall k :: 0 <= k < |st.ls| + |st.gs| ==> s[k] == LaneSlot(base + (st.ls + st.gs)[k], n, chunk))
  {
    var idx := st.ls + st.gs;
    forall k | 0 <= k < |idx| ensures SeqSlot(base % n, (base / n) * chunk, idx[k], n, chunk) == LaneSlot(base + idx[k], n, chunk) {
      if k < |st.ls| {
        assert idx[k] == st.ls[k];
      } else {
        assert idx[k] == st.gs[k - |st.ls|];
      }
      SeqSlotIsLaneSlot(base, idx[k], n, chunk);
    }
  }

  /**
   * The last-block flag in sequential mode: set exactly when the block's
   * device is that of the stripe's last data lane.
   */
  lemma LastFlagLane(st: Stripe, base: nat, n: nat, device: nat)
    requires n > 0 && st.ldb.Some?
    ensures LastFlag(st, base, n, SEQUENTIAL, device) == Some(device == (base + st.ldb.value) % n)
  {
    ModAddMod(base, st.ldb.value, n);
  }

  // ---------------------------------------------------------------------
  // Recovery

  /** The other lanes of the stripe whose entry `| 0xc0` equals lane `b`'s: the rest of `b`'s group. */
  function GroupMates(s: seq<byte>, b: nat): (r: seq<nat>)
    requires b < |s|
    ensures forall k :: 0 <= k < |r| ==> r[k] < |s| && r[k] != b && OrC0(s[r[k]]) == OrC0(s[b])
  {
    var lanes := Where(s, |s|, HasRole(OrC0(s[b])));
    var r := Except(lanes, b);
    assert forall k :: 0 <= k < |r| ==> r[k] in lanes;
    r
  }

  /** The number of the stripe that holds array lane `lane`. */
  function LaneStripe(t: CheckedTemplate, lane: nat): nat
  {
    Div(lane, StripeLength(t))
  }

  /** The place of array lane `lane` in its stripe. */
  function LaneInStripe(t: CheckedTemplate, lane: nat): (b: nat)
    ensures b < |StripeOf(t, LaneStripe(t, lane)).scheme|
  {
    Mod(lane, StripeLength(t))
  }

  /**
   * The plan recover_hashed returns for lane `dev` of row `block`: the
   * stripe is regenerated from the lane's stripe number, and with b the
   * lane's place in it and eb the stripe's (last) empty lane,
   * - a global syndrome lane is rebuilt from the stripe's data lanes (the
   *   entries below 16) and written to device `dev - b + eb`, moved to
   *   `dev - b + eb + n` and one chunk lower (u64) when that is negative;
   * - the empty lane needs nothing and has no write target;
   * - any other lane is rebuilt from the other lanes of its group and
   *   written to device `(dev - b + eb + n) mod n` (u64 arithmetic); the
   *   next-row test compares the exhausted loop counter (the stripe
   *   length) with `dev`.
   * `Recover` shows the loops select these lanes.
   */
  function RecoverSpec(t: CheckedTemplate, n: nat, chunk: nat, block: nat, dev: nat): RecoverStripe
    requires n > 0
  {
    var lane := ArrayLane(block, n, dev);
    var number := LaneStripe(t, lane);
    var b := LaneInStripe(t, lane);
    StripeHasEmpty(t, number);
    var st := StripeOf(t, number);
    var base := StripeStart(t, number);
    var eb := st.eb.value;
    if b in st.gs then
      var wd := dev - b + eb;
      RecoverStripe(StripeLength(t) - t.globalS - t.substripes - t.eBlocks, LaneReads(DataSlots(st.scheme), base, n, chunk),
                    Some(if wd < 0 then wd + n else wd),
                    Some(if wd < 0 then Wrap64(Mul(block, chunk) - chunk) else Mul(block, chunk)))
    else if b == eb then
      RecoverStripe(0, [], Some(-1), None)
    else
      RecoverStripe(t.substripeData, LaneReads(GroupMates(st.scheme, b), base, n, chunk),
                    Some(Wrap64(dev - b + eb + n) % n),
                    Some(if StripeLength(t) < dev then Mul(block + 1, chunk) else Mul(block, chunk)))
  }

  /** The GLOBAL_S loop of recover_hashed: whether lane `b` is one of the global syndrome lanes `gs`. */
  method FindLane(gs: seq<nat>, b: nat) returns (found: bool)
    ensures found <==> b in gs
  {
    var i := 0;
    while i < |gs|
      invariant i <= |gs| && b !in gs[..i]
    {
      if b == gs[i] {
        return true;
      }
      assert gs[..i + 1] == gs[..i] + [gs[i]];
      i := i + 1;
    }
    assert gs[..i] == gs;
    return false;
  }

  /** The global-syndrome loop of recover_hashed: the lanes whose entry is below 16. */
  method ReadDataLanes(t: CheckedTemplate, strp: Stripe, number: nat, base: nat, n: nat, chunk: nat)
    returns (sources: seq<Addr>)
    requires n > 0 && strp == StripeOf(t, number)
    ensures sources == LaneReads(DataSlots(strp.scheme), base, n, chunk)
  {
    sources := ReadLowLanes(strp.scheme, base, n, chunk);
    LowIsData(t, number);
  }

  /** The group loop of recover_hashed, with its exhausted counter. */
  method ReadGroup(s: seq<byte>, b: nat, base: nat, n: nat, chunk: nat) returns (sources: seq<Addr>, i: nat)
    requires n > 0 && b < |s|
    ensures sources == LaneReads(GroupMates(s, b), base, n, chunk) && i == |s|
  {
    sources, i := ReadGroupLanes(s, b, base, n, chunk);
    GroupPrefixIsExcept(s, b, |s|);
  }

  /** recover_hashed, step by step. */
  method Recover(t: CheckedTemplate, n: nat, chunk: nat, block: nat, dev: nat) returns (plan: RecoverStripe)
    requires n > 0
    ensures plan == RecoverSpec(t, n, chunk, block, dev)
  {
    var stripeNumber := ArrayLane(block, n, dev);
    var blockInStripe := LaneInStripe(t, stripeNumber);
    stripeNumber := LaneStripe(t, stripeNumber);
    var strp := GetStripe(t, stripeNumber);
    StripeHasEmpty(t, stripeNumber);
    var base := StripeStart(t, stripeNumber);
    var gs := FindLane(strp.gs, blockInStripe);
    if gs {
      var sources := ReadDataLanes(t, strp, stripeNumber, base, n, chunk);
      var writeDevice := dev - blockInStripe + strp.eb.value;
      var writeSector := Mul(block, chunk);
      if writeDevice < 0 {
        writeDevice := writeDevice + n;
        writeSector := Wrap64(writeSector - chunk);
      }
      return RecoverStripe(StripeLength(t) - t.globalS - t.substripes - t.eBlocks, sources,
                           Some(writeDevice), Some(writeSector));
    }
    if blockInStripe == strp.eb.value {
      return RecoverStripe(0, [], Some(-1), None);
    }
    var sources, i := ReadGroup(strp.scheme, blockInStripe, base, n, chunk);
    var emptyDevice := Wrap64(dev - blockInStripe + strp.eb.value + n);
    var writeSector := if i < dev then Mul(block + 1, chunk) else Mul(block, chunk);
    plan := RecoverStripe(t.substripeData, sources, Some(Mod(emptyDevice, n)), Some(writeSector));
  }

  /** A lane is its stripe's first lane plus its place in the stripe. */
  lemma LaneSplit(t: CheckedTemplate, lane: nat)
    ensures StripeStart(t, LaneStripe(t, lane)) + LaneInStripe(t, lane) == lane
  {
    DivModSplit(lane, StripeLength(t));
  }

  /**
   * Rebuilding a global syndrome reads the stripe's data blocks, one per
   * data lane, as many as the plan's quantity says.
   */
  lemma RecoverGlobalReads(t: CheckedTemplate, n: nat, chunk: nat, block: nat, dev: nat)
    requires n > 0
    requires var lane := ArrayLane(block, n, dev);
      LaneInStripe(t, lane) in StripeOf(t, LaneStripe(t, lane)).gs
    ensures var plan := RecoverSpec(t, n, chunk, block, dev);
      var s := StripeOf(t, LaneStripe(t, ArrayLane(block, n, dev))).scheme;
      && plan.quantity == |plan.sources| == StripeData(t)
      && (forall k :: 0 <= k < |DataSlots(s)| ==> IsData(s[DataSlots(s)[k]]))
  {
    StripeSizes(t, LaneStripe(t, ArrayLane(block, n, dev)));
  }

  /**
   * Rebuilding a data lane or a local syndrome lane reads the
   * SUBSTRIPE_DATA other lanes of its group (`GroupMates`), as many as the
   * plan's quantity says.
   */
  lemma RecoverGroupReads(t: CheckedTemplate, n: nat, chunk: nat, block: nat, dev: nat)
    requires n > 0
    requires var lane := ArrayLane(block, n, dev);
      var st := StripeOf(t, LaneStripe(t, lane));
      var b := LaneInStripe(t, lane);
      b !in st.gs && st.eb != Some(b) && (IsData(st.scheme[b]) || IsLocal(st.scheme[b]))
    ensures var plan := RecoverSpec(t, n, chunk, block, dev);
      var s := StripeOf(t, LaneStripe(t, ArrayLane(block, n, dev))).scheme;
      var b := LaneInStripe(t, ArrayLane(block, n, dev));
      plan.quantity == |plan.sources| == |GroupMates(s, b)| == t.substripeData
  {
    var lane := ArrayLane(block, n, dev);
    var number := LaneStripe(t, lane);
    var s := StripeOf(t, number).scheme;
    var b := LaneInStripe(t, lane);
    StripeRoles(t, number);
    assert KnownRole(s[b], t.substripes);
    var g: nat := OrC0(s[b]) as nat - 0xc0;
    assert OrC0(s[b]) == LocalCode(g);
    GroupSize(t, number, g);
    MatesCount(s, b);
    assert |GroupMates(s, b)| == t.substripeData;
    StripeHasEmpty(t, number);
    var st := StripeOf(t, number);
    assert b !in st.gs && b != st.eb.value;
    var plan := RecoverSpec(t, n, chunk, block, dev);
    assert plan.sources == LaneReads(GroupMates(s, b), StripeStart(t, number), n, chunk);
  }

  /** A lane's group mates are its group's lanes less itself. */
  lemma MatesCount(s: seq<byte>, b: nat)
    requires b < |s|
    ensures |GroupMates(s, b)| == |Where(s, |s|, HasRole(OrC0(s[b])))| - 1
  {
    var lanes := Where(s, |s|, HasRole(OrC0(s[b])));
    WhereComplete(s, |s|, HasRole(OrC0(s[b])), b);
    ExceptLength(lanes, b);
  }

  /** Every group has SUBSTRIPE_DATA + 1 lanes in every stripe. */
  lemma GroupSize(t: CheckedTemplate, number: nat, g: nat)
    requires g < t.substripes
    ensures var s := StripeOf(t, number).scheme; |Where(s, |s|, HasRole(LocalCode(g)))| == t.substripeData + 1
  {
    RoleCount(t, number, HasRole(LocalCode(g)));
  }

  /**
   * With one empty block per stripe, a plan reads exactly `quantity`
   * blocks, all distinct, and never the block it rebuilds (lane `dev` of
   * row `block`).
   */
  lemma RecoverAvoidsLostBlock(t: CheckedTemplate, n: nat, chunk: nat, block: nat, dev: nat)
    requires n > 0 && chunk > 0 && dev < n && t.eBlocks == 1
    ensures ReadsDistinctBlocks(RecoverSpec(t, n, chunk, block, dev), Addr(dev, Mul(block, chunk)))
  {
    var lane := ArrayLane(block, n, dev);
    var number := LaneStripe(t, lane);
    var b := LaneInStripe(t, lane);
    var base := StripeStart(t, number);
    StripeHasEmpty(t, number);
    var st := StripeOf(t, number);
    var s := st.scheme;
    var plan := RecoverSpec(t, n, chunk, block, dev);
    LaneSplit(t, lane);
    LostBlockAddr(block, dev, n, chunk);
    assert LaneAddr(base + b, n, chunk) == Addr(dev, Mul(block, chunk));
    if b in st.gs {
      RecoverGlobalReads(t, n, chunk, block, dev);
      assert !IsData(s[b]);
      assert b !in DataSlots(s);
      PlanReadsDistinct(plan, DataSlots(s), base, n, chunk, b);
    } else if b != st.eb.value {
      OnlyEmptyLane(t, number, b);
      RecoverGroupReads(t, n, chunk, block, dev);
      var lanes := Where(s, |s|, HasRole(OrC0(s[b])));
      ExceptAscending(lanes, b);
      assert plan.sources == LaneReads(GroupMates(s, b), base, n, chunk);
      PlanReadsDistinct(plan, GroupMates(s, b), base, n, chunk, b);
    }
  }

  /**
   * With one empty block per stripe, a lane that is neither a global
   * syndrome lane nor the empty lane is a data lane or a local syndrome
   * lane.
   */
  lemma OnlyEmptyLane(t: CheckedTemplate, number: nat, b: nat)
    requires t.eBlocks == 1 && b < |StripeOf(t, number).scheme|
    requires b !in StripeOf(t, number).gs && StripeOf(t, number).eb != Some(b)
    ensures var s := StripeOf(t, number).scheme; IsData(s[b]) || IsLocal(s[b])
  {
    var st := StripeOf(t, number);
    var s := st.scheme;
    StripeRoles(t, number);
    StripeHasEmpty(t, number);
    RoleCount(t, number, IsEmpty);
    if IsGlobal(s[b]) {
      WhereComplete(s, |s|, IsGlobal, b);
    } else if IsEmpty(s[b]) {
      var empties := Where(s, |s|, IsEmpty);
      WhereComplete(s, |s|, IsEmpty, b);
      WhereComplete(s, |s|, IsEmpty, st.eb.value);
      assert false;
    }
  }

  /**
   * With at least as many devices as a stripe has lanes, rebuilding a
   * global syndrome that lies after the stripe's empty lane writes to the
   * block of that empty lane, on the previous row when the device count
   * wraps.
   */
  lemma GlobalWriteTarget(t: CheckedTemplate, n: nat, chunk: nat, block: nat, dev: nat)
    requires StripeLength(t) <= n && dev < n && Mul(block, chunk) < U64
    requires var lane := ArrayLane(block, n, dev);
      var st := StripeOf(t, LaneStripe(t, lane));
      var b := LaneInStripe(t, lane);
      b in st.gs && st.eb.Some? && st.eb.value < b
    ensures var lane := ArrayLane(block, n, dev);
      var target := LaneAddr(StripeStart(t, LaneStripe(t, lane)) + StripeOf(t, LaneStripe(t, lane)).eb.value, n, chunk);
      var plan := RecoverSpec(t, n, chunk, block, dev);
      plan.writeDevice == Some(target.device as int) && plan.writeSector == Some(target.sector)
  {
    var lane := ArrayLane(block, n, dev);
    var number := LaneStripe(t, lane);
    var b := LaneInStripe(t, lane);
    var eb := StripeOf(t, number).eb.value;
    var empty := StripeStart(t, number) + eb;
    LaneSplit(t, lane);
    var d := b - eb;
    assert empty + d == lane == block * n + dev;
    if dev >= d {
      DivModUnique(empty, n, block, dev - d);
    } else {
      assert block > 0;
      assert (block - 1) * n + n == block * n;
      DivModUnique(empty, n, block - 1, dev - d + n);
      assert (block - 1) * chunk == block * chunk - chunk;
    }
  }

  /**
   * When the empty lane lies after the global syndrome lane being rebuilt,
   * `dev - b + eb` is never reduced, and once it reaches `n` the write
   * target is not a device of the array.
   */
  lemma GlobalWriteOutOfRange(t: CheckedTemplate, n: nat, chunk: nat, block: nat, dev: nat)
    requires n > 0
    requires var lane := ArrayLane(block, n, dev);
      var st := StripeOf(t, LaneStripe(t, lane));
      var b := LaneInStripe(t, lane);
      b in st.gs && st.eb.Some? && dev + st.eb.value >= n + b
    ensures RecoverSpec(t, n, chunk, block, dev).writeDevice.value >= n
  {
  }

  /**
   * With at least as many devices as a stripe has lanes (and no u64
   * wrap-around), rebuilding any lane other than a global syndrome or the
   * empty lane writes to the device of the stripe's empty lane.
   */
  lemma GroupWriteDevice(t: CheckedTemplate, n: nat, chunk: nat, block: nat, dev: nat)
    requires StripeLength(t) <= n && n + n + StripeLength(t) < U64 && dev < n
    requires var lane := ArrayLane(block, n, dev);
      var st := StripeOf(t, LaneStripe(t, lane));
      var b := LaneInStripe(t, lane);
      b !in st.gs && st.eb.Some? && st.eb.value != b
    ensures var lane := ArrayLane(block, n, dev);
      RecoverSpec(t, n, chunk, block, dev).writeDevice
        == Some((StripeStart(t, LaneStripe(t, lane)) + StripeOf(t, LaneStripe(t, lane)).eb.value) % n)
  {
    var lane := ArrayLane(block, n, dev);
    var number := LaneStripe(t, lane);
    var b := LaneInStripe(t, lane);
    var eb := StripeOf(t, number).eb.value;
    var empty := StripeStart(t, number) + eb;
    LaneSplit(t, lane);
    assert empty + n == block * n + (dev - b + eb + n);
    RowsAway(empty, dev - b + eb + n, block, n);
  }

  /**
   * Map and recovery agree: the plan for the lane a data block was mapped
   * to regenerates the block's stripe and reads the other SUBSTRIPE_DATA
   * lanes of the block's group (`GroupMates`: those whose entry `| 0xc0`
   * is the data lane's, the group's local-syndrome code).
   */
  lemma RecoverOfDataLane(t: CheckedTemplate, n: nat, chunk: nat, db: nat)
    requires n > 0
    ensures var lane := DataLane(t, db);
      var s := StripeOf(t, LaneStripe(t, lane)).scheme;
      var b := LaneInStripe(t, lane);
      var plan := RecoverSpec(t, n, chunk, Div(lane, n), Mod(lane, n));
      && LaneStripe(t, lane) == Div(db, StripeData(t)) && IsData(s[b])
      && plan.quantity == |plan.sources| == t.substripeData
      && plan.sources == LaneReads(GroupMates(s, b), StripeStart(t, LaneStripe(t, lane)), n, chunk)
  {
    var lane := DataLane(t, db);
    var vs := Div(db, StripeData(t));
    DataLaneInStripe(t, db);
    var row, device := Div(lane, n), Mod(lane, n);
    DivModSplit(lane, n);
    var st := StripeOf(t, vs);
    var b := LaneInStripe(t, lane);
    StripeHasEmpty(t, vs);
    assert forall k :: 0 <= k < |st.gs| ==> st.gs[k] != b;
    assert st.scheme[st.eb.value] == EMPTY_BLOCK;
    RecoverGroupReads(t, n, chunk, row, device);
    assert RecoverSpec(t, n, chunk, row, device).sources == LaneReads(GroupMates(st.scheme, b), StripeStart(t, vs), n, chunk);
  }
}
