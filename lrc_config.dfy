/**
 * The layout tables of lrc_config.c: three groups of three data blocks
 * with a local syndrome each, one empty block and one global syndrome, as
 * a role table and the tables derived from it. They are the template the
 * hashed layout shuffles.
 */
module LrcConfig {
  import opened Wrappers
  import opened Layout
  import opened Hashed

  const SUBSTRIPES: nat := 3
  const SUBSTRIPE_DATA: nat := 3
  const E_BLOCKS: nat := 1
  const GLOBAL_S: nat := 1

  /** The role of every lane (lrc_scheme). */
  const SCHEME: seq<byte> := [0x0, 0x0, 0x0, 0xc0, 0x1, 0x1, 0x1, 0xc1, 0x2, 0x2, 0x2, 0xc2, 0xee, 0xff]
  /** The groups of the data lanes, in lane order (lrc_data). */
  const DATA: seq<byte> := [0x0, 0x0, 0x0, 0x1, 0x1, 0x1, 0x2, 0x2, 0x2]
  /** The lanes of the global syndromes (lrc_gs). */
  const GS: seq<nat> := [13]
  /** The lanes of the local syndromes (lrc_ls). */
  const LS: seq<nat> := [3, 7, 11]
  /** The empty lane (lrc_eb). */
  const EB: nat := 12
  /** The non-data lanes, ascending (lrc_offset). */
  const OFFSET: seq<nat> := [3, 7, 11, 12, 13]
  /** The last data lane (lrc_ldb). */
  const LDB: nat := 10

  /** The data lanes of the role table. */
  const DATA_LANES: seq<nat> := [0, 1, 2, 4, 5, 6, 8, 9, 10]

  /** The tables as a template. */
  const TEMPLATE: Template := Template(SUBSTRIPES, SUBSTRIPE_DATA, E_BLOCKS, GLOBAL_S, SCHEME)

  /** The array sizes of lrc_config.c: 14 = (3 + 1) * 3 + 1 + 1 lanes, 9 = 3 * 3 data lanes, 5 others. */
  lemma Sizes()
    ensures |SCHEME| == StripeLength(TEMPLATE) == 14
    ensures |DATA| == StripeData(TEMPLATE) == 9 && |OFFSET| == StripeParity(TEMPLATE) == 5
    ensures |LS| == SUBSTRIPES && |GS| == GLOBAL_S
  {
  }

  /** The data entries of lrc_scheme are nine: the lanes of DATA_LANES. */
  lemma DataCount()
    ensures Count(SCHEME, IsData) == 9 && DataSlots(SCHEME) == DATA_LANES
  {
    var r := DATA_LANES;
    assert forall k :: 0 <= k < |r| ==> r[k] < |SCHEME| && IsData(SCHEME[r[k]]);
    assert forall i :: 0 <= i < |SCHEME| && IsData(SCHEME[i]) ==> i in r;
    CountByList(SCHEME, IsData, r);
  }

  /** The other entries are five: the lanes lrc_offset lists. */
  lemma NonDataCount()
    ensures Count(SCHEME, IsNonData) == 5 && NonDataSlots(SCHEME) == OFFSET
  {
    var r := OFFSET;
    assert forall k :: 0 <= k < |r| ==> r[k] < |SCHEME| && IsNonData(SCHEME[r[k]]);
    assert forall i :: 0 <= i < |SCHEME| && IsNonData(SCHEME[i]) ==> i in r;
    CountByList(SCHEME, IsNonData, r);
  }

  /** Three entries are local syndromes: the lanes lrc_ls lists. */
  lemma LocalCount()
    ensures Count(SCHEME, IsLocal) == 3 && Where(SCHEME, |SCHEME|, IsLocal) == LS
  {
    var r := LS;
    assert forall k :: 0 <= k < |r| ==> r[k] < |SCHEME| && IsLocal(SCHEME[r[k]]);
    assert forall i :: 0 <= i < |SCHEME| && IsLocal(SCHEME[i]) ==> i in r;
    CountByList(SCHEME, IsLocal, r);
  }

  /** One entry is the global syndrome: the lane lrc_gs lists. */
  lemma GlobalCount()
    ensures Count(SCHEME, IsGlobal) == 1 && Where(SCHEME, |SCHEME|, IsGlobal) == GS
  {
    var r := GS;
    assert forall i :: 0 <= i < |SCHEME| && IsGlobal(SCHEME[i]) ==> i in r;
    CountByList(SCHEME, IsGlobal, r);
  }

  /** One entry is the empty block. */
  lemma EmptyCount()
    ensures Count(SCHEME, IsEmpty) == 1
  {
    var r := [EB];
    assert forall i :: 0 <= i < |SCHEME| && IsEmpty(SCHEME[i]) ==> i in r;
    CountByList(SCHEME, IsEmpty, r);
  }

  /** The lanes of group `g`: its three data lanes and its local syndrome. */
  lemma GroupCount(g: nat)
    requires g < SUBSTRIPES
    ensures Count(SCHEME, HasRole(LocalCode(g))) == SUBSTRIPE_DATA + 1
  {
    if g == 0 {
      GroupLanes(0xc0, [0, 1, 2, 3]);
    } else if g == 1 {
      GroupLanes(0xc1, [4, 5, 6, 7]);
    } else {
      GroupLanes(0xc2, [8, 9, 10, 11]);
    }
  }

  /** The lanes `r` are those of the group whose local syndrome is `code`. */
  lemma GroupLanes(code: byte, r: seq<nat>)
    requires forall k :: 0 < k < |r| ==> r[k - 1] < r[k]
    requires forall k :: 0 <= k < |r| ==> r[k] < |SCHEME| && OrC0(SCHEME[r[k]]) == code
    requires forall i :: 0 <= i < |SCHEME| && OrC0(SCHEME[i]) == code ==> i in r
    ensures Count(SCHEME, HasRole(code)) == |r|
  {
    CountByList(SCHEME, HasRole(code), r);
  }

  /** Every entry of the role table is one the hashed layout knows for three groups. */
  lemma KnownRoles()
    ensures forall i :: 0 <= i < |SCHEME| ==> KnownRole(SCHEME[i], SUBSTRIPES)
  {
  }

  /** The tables satisfy everything the hashed layout asks of a template. */
  lemma TemplateValid()
    ensures ValidTemplate(TEMPLATE)
  {
    Sizes();
    KnownRoles();
    assert Count(SCHEME, IsData) == StripeData(TEMPLATE) by { DataCount(); }
    assert Count(SCHEME, IsNonData) == StripeParity(TEMPLATE) by { NonDataCount(); }
    assert Count(SCHEME, IsLocal) == SUBSTRIPES by { LocalCount(); }
    assert Count(SCHEME, IsGlobal) == GLOBAL_S by { GlobalCount(); }
    assert Count(SCHEME, IsEmpty) == E_BLOCKS by { EmptyCount(); }
    forall g | 0 <= g < SUBSTRIPES
      ensures Count(SCHEME, HasRole(LocalCode(g))) == SUBSTRIPE_DATA + 1
    {
      GroupCount(g);
    }
  }

  /** The template, checked. */
  function Config(): (t: CheckedTemplate)
    ensures t.scheme == SCHEME
  {
    TemplateValid();
    TEMPLATE
  }

  /** EB is the last (and only) empty lane. */
  lemma EmptyLane()
    ensures LastIndexOf(SCHEME, |SCHEME|, EMPTY_BLOCK) == Some(EB)
  {
    assert SCHEME[13] != EMPTY_BLOCK && SCHEME[12] == EMPTY_BLOCK;
  }

  /** LDB is the last data lane. */
  lemma LastDataLane()
    ensures LastData(SCHEME, |SCHEME|) == Some(LDB)
  {
    assert IsData(SCHEME[10]);
    assert LastData(SCHEME, 11) == Some(LDB);
    assert !IsData(SCHEME[11]);
    assert LastData(SCHEME, 12) == Some(LDB);
    assert !IsData(SCHEME[12]);
    assert LastData(SCHEME, 13) == Some(LDB);
    assert !IsData(SCHEME[13]);
  }

  /** DATA holds the groups of the data lanes in lane order. */
  lemma DataGroups()
    ensures ValuesAt(SCHEME, DataSlots(SCHEME)) == DATA
  {
    DataCount();
    assert ValuesAt(SCHEME, DATA_LANES) == DATA;
  }

  /**
   * The derived tables are those get_stripe computes from the role table
   * itself: DATA is SCHEME without its 0xcN, 0xee and 0xff entries, in
   * order; LS and GS are the lanes of 0xc0..0xc2 and of 0xff in order; EB
   * is the lane of 0xee; OFFSET is the ascending list of all of those; LDB
   * is the last data lane.
   */
  lemma TablesAreClassified()
    ensures Classify(SCHEME) == Stripe(SCHEME, DATA, GS, LS, Some(EB), OFFSET, Some(LDB))
  {
    DataGroups();
    NonDataCount();
    LocalCount();
    GlobalCount();
    EmptyLane();
    LastDataLane();
  }

  /** LS[g] is the lane of group g's local syndrome. */
  lemma LocalSyndromeLanes()
    ensures forall g :: 0 <= g < SUBSTRIPES ==> SCHEME[LS[g]] == LocalCode(g)
  {
  }
}
