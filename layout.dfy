/**
 * Stripe templates: a stripe is a row of lanes, and each lane holds one
 * entry of a byte-coded scheme.  Entries below 0xc0 are data blocks whose
 * value is their group; 0xc0 | g is the local syndrome of group g; 0xee is
 * the empty (spare) block; 0xff is a global syndrome.  The LRC layout, the
 * hashed layout and the table generator all classify lanes this way.
 */
module Layout {
  import opened Wrappers
  import opened Arith

  type byte = x: int | 0 <= x < 0x100

  const LOCAL_BASE: byte := 0xc0
  const EMPTY_BLOCK: byte := 0xee
  const GLOBAL_SYNDROME: byte := 0xff

  predicate IsData(v: byte) { v < 0xc0 }
  predicate IsNonData(v: byte) { v >= 0xc0 }
  predicate IsLocal(v: byte) { 0xc0 <= v < 0xd0 }
  predicate IsGlobal(v: byte) { v == GLOBAL_SYNDROME }
  predicate IsEmpty(v: byte) { v == EMPTY_BLOCK }
  /** The test recovery of a global syndrome applies: "every entry below 16". */
  predicate IsLow(v: byte) { v < 16 }

  /** `v | 0xc0`: the local-syndrome code of the group `v` belongs to. */
  function OrC0(v: byte): (r: byte)
    ensures r >= 0xc0 && r % 64 == v % 64
    ensures IsLocal(v) ==> r == v
    ensures v < 16 ==> r == 0xc0 + v
  {
    0xc0 + v % 64
  }

  /** The local-syndrome code `0xc0 | g` of group `g`. */
  function LocalCode(g: nat): (v: byte)
    requires g < 16
    ensures IsLocal(v) && OrC0(v) == v
  {
    0xc0 + g
  }

  /** The entries that belong to the same group as a `v` with `OrC0(v) == role`. */
  function HasRole(role: byte): byte -> bool
  {
    (v: byte) => OrC0(v) == role
  }

  /** The ascending indices below `n` whose entry satisfies `p`. */
  function Where(s: seq<byte>, n: nat, p: byte -> bool): (r: seq<nat>)
    requires n <= |s|
    ensures |r| <= n
    ensures forall k :: 0 <= k < |r| ==> r[k] < n && p(s[r[k]])
    ensures forall a, b :: 0 <= a < b < |r| ==> r[a] < r[b]
  {
    if n == 0 then [] else Where(s, n - 1, p) + (if p(s[n - 1]) then [n - 1] else [])
  }

  /** One more entry extends the list by its index exactly when it satisfies `p`. */
  lemma WhereStep(s: seq<byte>, n: nat, p: byte -> bool)
    requires n < |s|
    ensures Where(s, n + 1, p) == Where(s, n, p) + (if p(s[n]) then [n] else [])
  {
  }

  /** Every index below `n` whose entry satisfies `p` is listed. */
  lemma {:induction false} WhereComplete(s: seq<byte>, n: nat, p: byte -> bool, i: nat)
    requires i < n <= |s| && p(s[i])
    ensures i in Where(s, n, p)
  {
    if i < n - 1 { WhereComplete(s, n - 1, p, i); }
  }

  /** An ascending list of indices below `n` holding exactly the indices whose entry satisfies `p`. */
  predicate ListsExactly(s: seq<byte>, n: nat, p: byte -> bool, r: seq<nat>)
    requires n <= |s|
  {
    && |r| <= n
    && (forall a, b :: 0 <= a < b < |r| ==> r[a] < r[b])
    && (forall k :: 0 <= k < |r| ==> k <= r[k] < n && p(s[r[k]]))
    && (forall i :: 0 <= i < n && p(s[i]) ==> i in r)
  }

  /** `Where` is the only such list. */
  lemma {:induction false} WhereUnique(s: seq<byte>, n: nat, p: byte -> bool, r: seq<nat>)
    requires n <= |s| && ListsExactly(s, n, p, r)
    ensures Where(s, n, p) == r
  {
    if n > 0 {
      var init := ListsExactlyInit(s, n, p, r);
      WhereUnique(s, n - 1, p, init);
    }
  }

  /** Dropping index `n - 1` from such a list gives the list for `n - 1`. */
  lemma ListsExactlyInit(s: seq<byte>, n: nat, p: byte -> bool, r: seq<nat>) returns (init: seq<nat>)
    requires 0 < n <= |s| && ListsExactly(s, n, p, r)
    ensures ListsExactly(s, n - 1, p, init)
    ensures r == init + (if p(s[n - 1]) then [n - 1] else [])
  {
    if p(s[n - 1]) {
      init := DropLast(s, n, p, r);
    } else {
      init := r;
      forall k | 0 <= k < |r| ensures r[k] < n - 1 {
        assert r[k] != n - 1;
      }
      if |r| > 0 {
        assert r[|r| - 1] < n - 1;
      }
    }
  }

  /** The case where entry `n - 1` satisfies `p`: it is the last index listed. */
  lemma DropLast(s: seq<byte>, n: nat, p: byte -> bool, r: seq<nat>) returns (init: seq<nat>)
    requires 0 < n <= |s| && ListsExactly(s, n, p, r) && p(s[n - 1])
    ensures ListsExactly(s, n - 1, p, init)
    ensures r == init + [n - 1]
  {
    assert n - 1 in r;
    TopIsLast(r, n - 1);
    init := r[..|r| - 1];
    assert forall i :: 0 <= i < n - 1 && p(s[i]) ==> i in r;
    DropTop(r, n - 1, n - 1);
    assert r == init + [r[|r| - 1]];
  }

  /** In an ascending list below `t + 1` that contains `t`, `t` is the last entry and all others are below it. */
  lemma TopIsLast(r: seq<nat>, t: nat)
    requires t in r
    requires forall a, b :: 0 <= a < b < |r| ==> r[a] < r[b]
    requires forall k :: 0 <= k < |r| ==> r[k] <= t
    ensures r[|r| - 1] == t
    ensures forall j :: 0 <= j < |r| - 1 ==> r[j] < t
  {
    var k :| 0 <= k < |r| && r[k] == t;
    AscendingLe(r, k, |r| - 1);
  }

  lemma AscendingLe(r: seq<nat>, a: nat, b: nat)
    requires a <= b < |r|
    requires forall i, j :: 0 <= i < j < |r| ==> r[i] < r[j]
    ensures r[a] <= r[b]
  {
    if a < b { assert r[a] < r[b]; }
  }

  /** Every index below `t` listed in `r` is listed before its last entry `t`. */
  lemma DropTop(r: seq<nat>, t: nat, m: nat)
    requires |r| > 0 && r[|r| - 1] == t && m <= t
    ensures forall i :: 0 <= i < m && i in r ==> i in r[..|r| - 1]
  {
    forall i | 0 <= i < m && i in r ensures i in r[..|r| - 1] {
      var j :| 0 <= j < |r| && r[j] == i;
      assert r[..|r| - 1][j] == i;
    }
  }

  /** Two tests that agree on the first `n` entries select the same indices. */
  lemma {:induction false} WhereSame(s: seq<byte>, n: nat, p: byte -> bool, q: byte -> bool)
    requires n <= |s|
    requires forall i :: 0 <= i < n ==> p(s[i]) == q(s[i])
    ensures Where(s, n, p) == Where(s, n, q)
  {
    if n > 0 { WhereSame(s, n - 1, p, q); }
  }

  /** The data lanes of a stripe, in lane order. */
  function DataSlots(s: seq<byte>): seq<nat>
  {
    Where(s, |s|, IsData)
  }

  /** The non-data lanes of a stripe, in lane order. */
  function NonDataSlots(s: seq<byte>): seq<nat>
  {
    Where(s, |s|, IsNonData)
  }

  /** `idx` without the index `skip`. */
  function Except(idx: seq<nat>, skip: nat): (r: seq<nat>)
    ensures |r| <= |idx|
    ensures forall i :: i in r <==> i in idx && i != skip
  {
    if idx == [] then []
    else Except(idx[..|idx| - 1], skip) + (if idx[|idx| - 1] == skip then [] else [idx[|idx| - 1]])
  }

  /** `Except` of a list grown by one index. */
  lemma ExceptAppend(idx: seq<nat>, i: nat, skip: nat)
    ensures Except(idx + [i], skip) == Except(idx, skip) + (if i == skip then [] else [i])
  {
    assert (idx + [i])[..|idx|] == idx;
  }

  /** `Except` drops exactly one occurrence when `skip` occurs once. */
  lemma {:induction false} ExceptLength(idx: seq<nat>, skip: nat)
    requires forall a, b :: 0 <= a < b < |idx| ==> idx[a] < idx[b]
    ensures skip in idx ==> |Except(idx, skip)| == |idx| - 1
    ensures skip !in idx ==> Except(idx, skip) == idx
  {
    if idx != [] {
      var init := idx[..|idx| - 1];
      ExceptLength(init, skip);
      assert idx == init + [idx[|idx| - 1]];
      if idx[|idx| - 1] == skip {
        assert skip !in init by {
          forall k | 0 <= k < |init| ensures init[k] != skip {
            assert idx[k] < idx[|idx| - 1];
          }
        }
      }
    }
  }

  /** Strictly ascending. */
  predicate Ascending(r: seq<nat>)
  {
    forall a, b :: 0 <= a < b < |r| ==> r[a] < r[b]
  }

  /** `Except` keeps an ascending list ascending. */
  lemma {:induction false} ExceptAscending(idx: seq<nat>, skip: nat)
    requires Ascending(idx)
    ensures Ascending(Except(idx, skip))
  {
    if idx != [] {
      var init := idx[..|idx| - 1];
      var last := idx[|idx| - 1];
      ExceptAscending(init, skip);
      var e := Except(init, skip);
      forall k | 0 <= k < |e| ensures e[k] < last {
        assert e[k] in init;
        var j :| 0 <= j < |init| && init[j] == e[k];
        assert idx[j] < idx[|idx| - 1];
      }
      if last != skip {
        var r := e + [last];
        assert Except(idx, skip) == r;
        forall a, b | 0 <= a < b < |r| ensures r[a] < r[b] {
          if b < |e| {
            assert r[a] == e[a] && r[b] == e[b];
          } else {
            assert r[a] == e[a] && r[b] == last;
          }
        }
      } else {
        assert Except(idx, skip) == e + [];
        assert e + [] == e;
      }
    }
  }

  /** The values stored at the given indices. */
  function ValuesAt(s: seq<byte>, idx: seq<nat>): (r: seq<byte>)
    requires forall k :: 0 <= k < |idx| ==> idx[k] < |s|
    ensures |r| == |idx| && forall k :: 0 <= k < |idx| ==> r[k] == s[idx[k]]
  {
    seq(|idx|, k requires 0 <= k < |idx| => s[idx[k]])
  }

  /** The last index below `n` whose entry is `v`, if any. */
  function LastIndexOf(s: seq<byte>, n: nat, v: byte): (r: Option<nat>)
    requires n <= |s|
    ensures r.Some? ==> r.value < n && s[r.value] == v
    ensures r.Some? ==> forall i :: r.value < i < n ==> s[i] != v
    ensures r.None? ==> forall i :: 0 <= i < n ==> s[i] != v
  {
    if n == 0 then None
    else if s[n - 1] == v then Some(n - 1)
    else LastIndexOf(s, n - 1, v)
  }

  // ---------------------------------------------------------------------
  // Counting

  /** The number of entries satisfying `p`. */
  function Count(s: seq<byte>, p: byte -> bool): (c: nat)
    ensures c <= |s|
  {
    if s == [] then 0 else Count(s[..|s| - 1], p) + (if p(s[|s| - 1]) then 1 else 0)
  }

  lemma {:induction false} WhereCount(s: seq<byte>, n: nat, p: byte -> bool)
    requires n <= |s|
    ensures |Where(s, n, p)| == Count(s[..n], p)
  {
    if n > 0 {
      WhereCount(s, n - 1, p);
      assert s[..n][..n - 1] == s[..n - 1];
    }
  }

  /** A list whose neighbours ascend is ascending. */
  lemma {:induction false} StepsAscending(r: seq<nat>)
    requires forall k :: 0 < k < |r| ==> r[k - 1] < r[k]
    ensures Ascending(r)
  {
    if |r| > 1 {
      var front := r[..|r| - 1];
      assert forall k :: 0 <= k < |front| ==> front[k] == r[k];
      StepsAscending(front);
      var last := |r| - 1;
      assert forall a :: 0 <= a < last ==> front[a] <= front[last - 1] && r[a] == front[a];
    }
  }

  /**
   * An index list whose neighbours ascend and that lists exactly the
   * entries satisfying `p` has their number as its length.
   */
  lemma CountByList(s: seq<byte>, p: byte -> bool, r: seq<nat>)
    requires forall k :: 0 < k < |r| ==> r[k - 1] < r[k]
    requires forall k :: 0 <= k < |r| ==> r[k] < |s| && p(s[r[k]])
    requires forall i :: 0 <= i < |s| && p(s[i]) ==> i in r
    ensures Count(s, p) == |r| && Where(s, |s|, p) == r
  {
    StepsAscending(r);
    AscendingBounds(r);
    if |r| > 0 {
      assert |r| - 1 <= r[|r| - 1] < |s|;
    }
    assert ListsExactly(s, |s|, p, r);
    WhereUnique(s, |s|, p, r);
    WhereCount(s, |s|, p);
    assert s[..|s|] == s;
  }

  /** An ascending list of naturals has each entry at least its index. */
  lemma {:induction false} AscendingBounds(r: seq<nat>)
    requires Ascending(r)
    ensures forall k :: 0 <= k < |r| ==> k <= r[k]
  {
    if |r| > 0 {
      var front := r[..|r| - 1];
      AscendingBounds(front);
      assert forall k :: 0 <= k < |front| ==> front[k] == r[k];
      if |r| > 1 {
        assert r[|r| - 2] < r[|r| - 1];
      }
    }
  }

  /** Counting distributes over concatenation. */
  lemma {:induction false} CountAppend(a: seq<byte>, b: seq<byte>, p: byte -> bool)
    ensures Count(a + b, p) == Count(a, p) + Count(b, p)
  {
    if b == [] {
      assert a + b == a;
    } else {
      var init := b[..|b| - 1];
      CountAppend(a, init, p);
      assert (a + b)[..|a + b| - 1] == a + init;
    }
  }

  /** Rearranging the entries does not change how many satisfy `p`. */
  lemma {:induction false} CountPermutation(s: seq<byte>, t: seq<byte>, p: byte -> bool)
    requires multiset(s) == multiset(t)
    ensures Count(s, p) == Count(t, p)
    decreases |s|
  {
    if s == [] {
      assert |t| == |multiset(t)| == 0;
    } else {
      var x := s[|s| - 1];
      assert x in multiset(t);
      var k :| 0 <= k < |t| && t[k] == x;
      RemoveMatching(s, t, k);
      CountPermutation(s[..|s| - 1], t[..k] + t[k + 1..], p);
      CountSplit(t, k, p);
    }
  }

  /** Taking the last entry off one side and an equal entry off the other keeps two rearrangements alike. */
  lemma RemoveMatching(s: seq<byte>, t: seq<byte>, k: nat)
    requires multiset(s) == multiset(t) && s != [] && k < |t| && t[k] == s[|s| - 1]
    ensures multiset(s[..|s| - 1]) == multiset(t[..k] + t[k + 1..])
  {
    var init: seq<byte>, front: seq<byte>, back: seq<byte> := s[..|s| - 1], t[..k], t[k + 1..];
    assert s == init + [s[|s| - 1]];
    assert t == front + [t[k]] + back;
    assert multiset(s) == multiset(init) + multiset{s[|s| - 1]};
    assert multiset(t) == multiset(front) + multiset{t[k]} + multiset(back);
    assert multiset(front + back) == multiset(front) + multiset(back);
    forall y: byte ensures multiset(init)[y] == multiset(front + back)[y] {
      assert multiset(s)[y] == multiset(t)[y];
    }
  }

  /** Counting with entry `k` taken out. */
  lemma CountSplit(t: seq<byte>, k: nat, p: byte -> bool)
    requires k < |t|
    ensures Count(t, p) == Count(t[..k] + t[k + 1..], p) + (if p(t[k]) then 1 else 0)
  {
    var front: seq<byte>, back: seq<byte>, upto: seq<byte> := t[..k], t[k + 1..], t[..k + 1];
    assert upto[..|upto| - 1] == front && upto[|upto| - 1] == t[k];
    assert Count(upto, p) == Count(front, p) + (if p(t[k]) then 1 else 0);
    assert upto + back == t;
    CountAppend(upto, back, p);
    CountAppend(front, back, p);
  }

  /** A property every entry has survives a rearrangement. */
  lemma PermutationKeeps(s: seq<byte>, t: seq<byte>, p: byte -> bool)
    requires multiset(s) == multiset(t)
    requires forall i :: 0 <= i < |s| ==> p(s[i])
    ensures forall i :: 0 <= i < |t| ==> p(t[i])
  {
    forall i | 0 <= i < |t| ensures p(t[i]) {
      assert t[i] in multiset(s);
      var k :| 0 <= k < |s| && s[k] == t[i];
    }
  }

  /** Data and non-data lanes split every prefix of a stripe. */
  lemma {:induction false} DataNonDataSplit(s: seq<byte>, n: nat)
    requires n <= |s|
    ensures |Where(s, n, IsData)| + |Where(s, n, IsNonData)| == n
  {
    if n > 0 { DataNonDataSplit(s, n - 1); }
  }

  /** The `p`-indices below `n` are a prefix of the `p`-indices below `m >= n`. */
  lemma {:induction false} WherePrefix(s: seq<byte>, n: nat, m: nat, p: byte -> bool)
    requires n <= m <= |s|
    ensures |Where(s, n, p)| <= |Where(s, m, p)|
    ensures Where(s, m, p)[..|Where(s, n, p)|] == Where(s, n, p)
  {
    if n < m {
      WherePrefix(s, n, m - 1, p);
      var w := Where(s, m - 1, p);
      assert Where(s, m, p)[..|w|] == w;
    }
  }

  /** The `k`-th `p`-index has exactly `k` `p`-indices below it. */
  lemma WhereRank(s: seq<byte>, p: byte -> bool, k: nat)
    requires k < |Where(s, |s|, p)|
    ensures |Where(s, Where(s, |s|, p)[k], p)| == k
  {
    var r := Where(s, |s|, p);
    WherePrefix(s, r[k], |s|, p);
    var w := Where(s, r[k], p);
    assert r[..|w|] == w;
    if |w| < k {
      WhereComplete(s, r[k], p, r[|w|]);
    }
  }

  // ---------------------------------------------------------------------
  // Skipping the non-data lanes

  /**
   * The local-gap loop shared by the LRC and hashed mappings: walk the
   * ascending list of non-data lanes and step over each one at or before
   * the running position.
   */
  function GapFrom(x: nat, offs: seq<nat>, k: nat): nat
    requires k <= |offs|
    decreases |offs| - k
  {
    if k == |offs| then x else GapFrom(if x >= offs[k] then x + 1 else x, offs, k + 1)
  }

  /**
   * Stepping over the non-data lanes turns a data index into the lane that
   * holds that data block: the `pos`-th data lane of the stripe.
   */
  lemma GapFindsDataSlot(s: seq<byte>, pos: nat)
    requires pos < |DataSlots(s)|
    ensures GapFrom(pos, NonDataSlots(s), 0) == DataSlots(s)[pos]
  {
    var o := NonDataSlots(s);
    var t := DataSlots(s)[pos];
    var m := |Where(s, t, IsNonData)|;
    WhereRank(s, IsData, pos);
    DataNonDataSplit(s, t);
    WherePrefix(s, t, |s|, IsNonData);
    forall j | 0 <= j < m ensures o[j] <= pos + j {
      GapBefore(s, pos, j);
    }
    forall j | m <= j < |o| ensures o[j] > t {
      GapAfter(s, pos, j);
    }
    GapWalk(pos, o, 0, m, t);
  }

  /**
   * The walk from `x0` over `o`: when the first `m` entries are each at or
   * below the running position and the rest lie beyond `x0 + m`, the walk
   * from step `k` at position `x0 + min(k, m)` ends at `x0 + m`.
   */
  lemma {:induction false} GapWalk(x0: nat, o: seq<nat>, k: nat, m: nat, t: nat)
    requires k <= |o| && m <= |o| && t == x0 + m
    requires forall j :: 0 <= j < m ==> o[j] <= x0 + j
    requires forall j :: m <= j < |o| ==> o[j] > t
    ensures GapFrom(x0 + (if k < m then k else m), o, k) == t
    decreases |o| - k
  {
    if k < |o| {
      GapWalk(x0, o, k + 1, m, t);
    }
  }

  /** A non-data lane before the target is at or below the running position. */
  lemma GapBefore(s: seq<byte>, pos: nat, k: nat)
    requires pos < |DataSlots(s)|
    requires k < |Where(s, DataSlots(s)[pos], IsNonData)|
    ensures k < |NonDataSlots(s)| && NonDataSlots(s)[k] <= pos + k
  {
    var o := NonDataSlots(s);
    var t := DataSlots(s)[pos];
    WherePrefix(s, t, |s|, IsNonData);
    var ok := o[k];
    WhereRank(s, IsNonData, k);
    WhereRank(s, IsData, pos);
    DataNonDataSplit(s, ok);
    if ok >= t {
      WherePrefix(s, t, ok, IsNonData);
    }
    WherePrefix(s, ok, t, IsData);
  }

  /** A non-data lane after the first `m` lies beyond the target. */
  lemma GapAfter(s: seq<byte>, pos: nat, k: nat)
    requires pos < |DataSlots(s)|
    requires |Where(s, DataSlots(s)[pos], IsNonData)| <= k < |NonDataSlots(s)|
    ensures NonDataSlots(s)[k] > DataSlots(s)[pos]
  {
    var o := NonDataSlots(s);
    var t := DataSlots(s)[pos];
    var ok := o[k];
    WhereRank(s, IsNonData, k);
    if ok <= t {
      assert ok != t;
      WherePrefix(s, ok + 1, t, IsNonData);
    }
  }

  // ---------------------------------------------------------------------
  // Stripe templates

  /**
   * The compile-time constants of a hashed layout: SUBSTRIPES groups of
   * SUBSTRIPE_DATA data blocks, each with one local syndrome, E_BLOCKS empty
   * blocks and GLOBAL_S global syndromes, and the starting scheme they are
   * permuted from.
   */
  datatype Template = Template(substripes: nat, substripeData: nat, eBlocks: nat,
                               globalS: nat, scheme: seq<byte>)

  /** Lanes per stripe: (SUBSTRIPE_DATA + 1) * SUBSTRIPES + E_BLOCKS + GLOBAL_S. */
  function StripeLength(t: Template): nat
  {
    (t.substripeData + 1) * t.substripes + t.eBlocks + t.globalS
  }

  /** The data blocks of a stripe: SUBSTRIPE_DATA * SUBSTRIPES. */
  function StripeData(t: Template): nat
  {
    Mul(t.substripeData, t.substripes)
  }

  /** The non-data lanes of a stripe: SUBSTRIPES + E_BLOCKS + GLOBAL_S. */
  function StripeParity(t: Template): nat
  {
    t.substripes + t.eBlocks + t.globalS
  }

  /**
   * The entries a generated scheme holds: the group of a data block (below
   * the number of groups), a group's local-syndrome code, the empty block
   * or the global syndrome.
   */
  predicate KnownRole(v: byte, groups: nat)
  {
    (IsData(v) && v < groups) || (IsLocal(v) && v < LOCAL_BASE + groups) || IsEmpty(v) || IsGlobal(v)
  }

  /** Between one and 16 groups of at least one data block each, and at least one empty block. */
  predicate TemplateBounds(t: Template)
    ensures TemplateBounds(t) ==> StripeData(t) > 0 && StripeLength(t) == StripeData(t) + StripeParity(t)
  {
    1 <= t.substripes <= 16 && t.substripeData >= 1 && t.eBlocks >= 1
  }

  /**
   * What the tables of a layout must satisfy for every array access of the
   * mapping and recovery code to stay inside its bounds: the scheme has one
   * entry per lane, every entry is a known role with its group below SUBSTRIPES, and each
   * role occurs as often as the constants say.
   */
  predicate ValidTemplate(t: Template)
  {
    && |t.scheme| == StripeLength(t)
    && TemplateBounds(t)
    && (forall i :: 0 <= i < |t.scheme| ==> KnownRole(t.scheme[i], t.substripes))
    && Count(t.scheme, IsData) == StripeData(t)
    && Count(t.scheme, IsLocal) == t.substripes
    && Count(t.scheme, IsGlobal) == t.globalS
    && Count(t.scheme, IsEmpty) == t.eBlocks
    && Count(t.scheme, IsNonData) == StripeParity(t)
    && (forall g :: 0 <= g < t.substripes ==> Count(t.scheme, HasRole(LocalCode(g))) == t.substripeData + 1)
  }

  /** A template that satisfies `ValidTemplate`. */
  type CheckedTemplate = t: Template | ValidTemplate(t) witness SmallestTemplate()

  /** One group of one data lane and its local syndrome, and one empty lane. */
  function SmallestTemplate(): (t: Template)
    ensures ValidTemplate(t)
  {
    var s: seq<byte> := [0x0, 0xc0, 0xee];
    assert s[..2] == [0x0, 0xc0] && s[..2][..1] == [0x0] && s[..2][..1][..0] == [];
    Template(1, 1, 1, 0, s)
  }
}
