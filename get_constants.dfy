/**
 * The table generator get_constants.py: it turns a scheme string such as
 * "111s1222s2333s3eg" (a digit d is a data block of group d - 1, "sK" the
 * local syndrome of group K - 1, "e" the empty block, anything else a
 * global syndrome) into the text of lrc_config.c.  Python strings are
 * `string`s, Python's `hex()` and `str()` are written out, and the
 * exceptions the script can raise are an `Outcome`.
 */
module GetConstants {
  import opened Wrappers
  import opened Layout
  import LrcConfig

  // ---------------------------------------------------------------------
  // Python roles

  /** The exceptions the generator can raise on a malformed scheme. */
  datatype PyError = IndexError | ValueError

  /** A Python computation: a value, or an exception. */
  datatype Outcome<T> = Value(value: T) | Raised(error: PyError)

  predicate IsDigit(c: char) { '0' <= c <= '9' }

  function DigitValue(c: char): (d: nat)
    requires IsDigit(c)
    ensures d < 10
  {
    (c as int) - ('0' as int)
  }

  function HexDigit(d: nat): char
    requires d < 16
  {
    if d < 10 then DecimalDigit(d) else ('a' as int + d - 10) as char
  }

  function DecimalDigit(d: nat): (c: char)
    requires d < 10
    ensures IsDigit(c) && DigitValue(c) == d
  {
    ('0' as int + d) as char
  }

  /** The lower-case hexadecimal digits of `n`, without leading zeros. */
  function HexDigits(n: nat): (r: string)
    ensures |r| >= 1
    decreases n
  {
    if n < 16 then [HexDigit(n)] else HexDigits(n / 16) + [HexDigit(n % 16)]
  }

  /** A string as `hex()` writes it: at least "0x" and one digit. */
  type HexEntry = s: string | |s| >= 3 witness "0x0"

  /** Python's `hex(n)`. */
  function Hex(n: int): HexEntry
  {
    if n < 0 then "-0x" + HexDigits(-n) else "0x" + HexDigits(n)
  }

  function DecimalDigits(n: nat): (r: string)
    ensures |r| >= 1
    decreases n
  {
    if n < 10 then [DecimalDigit(n)] else DecimalDigits(n / 10) + [DecimalDigit(n % 10)]
  }

  /** Python's `str(n)` for an integer. */
  function Str(n: int): string
  {
    if n < 0 then "-" + DecimalDigits(-n) else DecimalDigits(n)
  }

  function Strs(ns: seq<int>): (r: seq<string>)
    ensures |r| == |ns| && forall k :: 0 <= k < |ns| ==> r[k] == Str(ns[k])
  {
    seq(|ns|, k requires 0 <= k < |ns| => Str(ns[k]))
  }

  /** The number of times `c` occurs in `s` (Python's `s.count(c)`). */
  function CountChar(s: string, c: char): nat
  {
    if s == [] then 0 else (if s[0] == c then 1 else 0) + CountChar(s[1..], c)
  }

  lemma {:induction false} CountCharAppend(a: string, b: string, c: char)
    ensures CountChar(a + b, c) == CountChar(a, c) + CountChar(b, c)
  {
    if a == [] {
      assert a + b == b;
    } else {
      CountCharAppend(a[1..], b, c);
      assert (a + b)[0] == a[0] && (a + b)[1..] == a[1..] + b;
    }
  }

  /** The concatenation of `lines`, as `writelines` puts them into a file. */
  function Concat(lines: seq<string>): string
  {
    if lines == [] then "" else Concat(lines[..|lines| - 1]) + lines[|lines| - 1]
  }

  // ---------------------------------------------------------------------
  // get_hex_scheme

  /** `front` followed by the list `rest` computes, unless `rest` raised. */
  function Then<T>(front: seq<T>, rest: Outcome<seq<T>>): Outcome<seq<T>>
  {
    match rest
    case Value(v) => Value(front + v)
    case Raised(e) => Raised(e)
  }

  lemma ThenNothing<T>(rest: Outcome<seq<T>>)
    ensures Then([], rest) == rest
  {
    if rest.Value? {
      assert [] + rest.value == rest.value;
    }
  }

  lemma ThenThen<T>(a: seq<T>, b: seq<T>, rest: Outcome<seq<T>>)
    ensures Then(a + b, rest) == Then(a, Then(b, rest))
  {
    if rest.Value? {
      assert a + b + rest.value == a + (b + rest.value);
    }
  }

  /**
   * The role value of each token of `s`: a digit `d` stands for `d - 1`,
   * "s" or "S" and the digit `k` after it for `191 + k` (0xc0 | (k - 1)),
   * "e" or "E" for 0xee and any other character for 0xff.  An "s" at the
   * end raises IndexError, an "s" before a non-digit ValueError.
   */
  function Roles(s: string): (r: Outcome<seq<int>>)
    ensures r.Value? ==> |r.value| <= |s|
    ensures r.Value? ==> forall k :: 0 <= k < |r.value| ==> RoleValue(r.value[k])
    decreases |s|
  {
    if s == [] then Value([])
    else if IsDigit(s[0]) then Then([DigitValue(s[0]) - 1], Roles(s[1..]))
    else if s[0] == 's' || s[0] == 'S' then
      if |s| < 2 then Raised(IndexError)
      else if !IsDigit(s[1]) then Raised(ValueError)
      else Then([191 + DigitValue(s[1])], Roles(s[2..]))
    else if s[0] == 'e' || s[0] == 'E' then Then([0xee], Roles(s[1..]))
    else Then([0xff], Roles(s[1..]))
  }

  /** The roles the generator can write: -1..8, 0xbf..0xc8, 0xee and 0xff. */
  predicate RoleValue(v: int)
  {
    -1 <= v <= 8 || 191 <= v <= 200 || v == 0xee || v == 0xff
  }

  function HexAll(vs: seq<int>): (r: seq<HexEntry>)
    ensures |r| == |vs| && forall k :: 0 <= k < |vs| ==> r[k] == Hex(vs[k])
  {
    seq(|vs|, k requires 0 <= k < |vs| => Hex(vs[k]))
  }

  /** What get_hex_scheme returns: the `hex()` of each role value. */
  function HexScheme(s: string): Outcome<seq<HexEntry>>
  {
    match Roles(s)
    case Value(v) => Value(HexAll(v))
    case Raised(e) => Raised(e)
  }

  /** The scan of get_hex_scheme, which consumes two characters for a local syndrome. */
  method GetHexScheme(scheme: string) returns (r: Outcome<seq<HexEntry>>)
    ensures r == HexScheme(scheme)
  {
    var i := 0;
    var hexes: seq<HexEntry> := [];
    ghost var roles: seq<int> := [];
    assert scheme[i..] == scheme;
    ThenNothing(Roles(scheme));
    while i < |scheme|
      invariant i <= |scheme|
      invariant hexes == HexAll(roles)
      invariant Roles(scheme) == Then(roles, Roles(scheme[i..]))
      decreases |scheme| - i
    {
      var rest := scheme[i..];
      assert rest[0] == scheme[i];
      var c := scheme[i];
      if IsDigit(c) {
        assert rest[1..] == scheme[i + 1..];
        hexes := hexes + [Hex(DigitValue(c) - 1)];
        ThenThen(roles, [DigitValue(c) - 1], Roles(scheme[i + 1..]));
        roles := roles + [DigitValue(c) - 1];
      } else if c == 's' || c == 'S' {
        if i + 1 >= |scheme| {
          return Raised(IndexError);
        }
        assert rest[1] == scheme[i + 1];
        if !IsDigit(scheme[i + 1]) {
          return Raised(ValueError);
        }
        assert rest[2..] == scheme[i + 2..];
        hexes := hexes + [Hex(191 + DigitValue(scheme[i + 1]))];
        ThenThen(roles, [191 + DigitValue(scheme[i + 1])], Roles(scheme[i + 2..]));
        roles := roles + [191 + DigitValue(scheme[i + 1])];
        i := i + 1;
      } else if c == 'e' || c == 'E' {
        assert rest[1..] == scheme[i + 1..];
        hexes := hexes + [Hex(0xee)];
        ThenThen(roles, [0xee], Roles(scheme[i + 1..]));
        roles := roles + [0xee];
      } else {
        assert rest[1..] == scheme[i + 1..];
        hexes := hexes + [Hex(0xff)];
        ThenThen(roles, [0xff], Roles(scheme[i + 1..]));
        roles := roles + [0xff];
      }
      i := i + 1;
    }
    assert scheme[i..] == [];
    assert roles + [] == roles;
    return Value(hexes);
  }

  /** How the generator's input spells each role value: the string get_hex_scheme reads back. */
  function Spelling(v: int): (r: string)
    requires RoleValue(v)
  {
    if v <= 8 then [DecimalDigit(v + 1)]
    else if v <= 200 then ['s', DecimalDigit(v - 191)]
    else if v == 0xee then "e"
    else "g"
  }

  function Spell(vs: seq<int>): string
    requires forall k :: 0 <= k < |vs| ==> RoleValue(vs[k])
  {
    if vs == [] then "" else Spelling(vs[0]) + Spell(vs[1..])
  }

  /** get_hex_scheme reads back every list of role values from its spelling. */
  lemma {:induction false} RolesOfSpelling(vs: seq<int>)
    requires forall k :: 0 <= k < |vs| ==> RoleValue(vs[k])
    ensures Roles(Spell(vs)) == Value(vs)
  {
    if vs != [] {
      RolesOfSpelling(vs[1..]);
      RolesOfToken(vs[0], Spell(vs[1..]));
      assert [vs[0]] + vs[1..] == vs;
    }
  }

  /** The spelling of one value is read as that value, whatever follows it. */
  lemma RolesOfToken(v: int, rest: string)
    requires RoleValue(v)
    ensures Roles(Spelling(v) + rest) == Then([v], Roles(rest))
  {
    var head := Spelling(v);
    var s := head + rest;
    if v <= 8 {
      assert s[0] == DecimalDigit(v + 1) && s[1..] == rest;
    } else if v <= 200 {
      assert s[0] == 's' && s[1] == DecimalDigit(v - 191) && s[2..] == rest;
    } else {
      assert s[0] == head[0] && s[1..] == rest;
    }
  }

  // ---------------------------------------------------------------------
  // The derived tables

  /** An entry get_data_scheme keeps: its third character is not c, e or f. */
  predicate DataEntry(e: HexEntry) { e[2] != 'c' && e[2] != 'e' && e[2] != 'f' }

  /** An entry get_ls_places lists: a 0xc? value. */
  predicate LocalEntry(e: HexEntry) { e[2] == 'c' }

  /** An entry get_gs lists: a 0xf? value. */
  predicate GlobalEntry(e: HexEntry) { e[2] == 'f' }

  /** The ascending indices below `n` whose entry satisfies `p`. */
  function Indices(h: seq<HexEntry>, n: nat, p: HexEntry -> bool): (r: seq<nat>)
    requires n <= |h|
    ensures |r| <= n
    ensures forall k :: 0 <= k < |r| ==> r[k] < n && p(h[r[k]])
    ensures forall a, b :: 0 <= a < b < |r| ==> r[a] < r[b]
    ensures forall i :: 0 <= i < n && p(h[i]) ==> i in r
  {
    if n == 0 then [] else Indices(h, n - 1, p) + (if p(h[n - 1]) then [n - 1] else [])
  }

  /** The entries of `h` at the indices `idx`, in that order. */
  function Pick(h: seq<HexEntry>, idx: seq<nat>): (r: seq<HexEntry>)
    requires forall k :: 0 <= k < |idx| ==> idx[k] < |h|
    ensures |r| == |idx| && forall k :: 0 <= k < |idx| ==> r[k] == h[idx[k]]
  {
    seq(|idx|, k requires 0 <= k < |idx| => h[idx[k]])
  }

  lemma PickAppend(h: seq<HexEntry>, idx: seq<nat>, i: nat)
    requires i < |h| && forall k :: 0 <= k < |idx| ==> idx[k] < |h|
    ensures Pick(h, idx + [i]) == Pick(h, idx) + [h[i]]
  {
  }

  /** What get_data_scheme returns: the data entries, in order. */
  function DataScheme(h: seq<HexEntry>): seq<HexEntry>
  {
    Pick(h, Indices(h, |h|, DataEntry))
  }

  /** get_data_scheme's loop keeps exactly the entries whose third character is not c, e or f. */
  method GetDataScheme(h: seq<HexEntry>) returns (r: seq<HexEntry>)
    ensures r == DataScheme(h)
  {
    r := [];
    for i := 0 to |h|
      invariant r == Pick(h, Indices(h, i, DataEntry))
    {
      var before := Indices(h, i, DataEntry);
      assert Indices(h, i + 1, DataEntry) == before + (if DataEntry(h[i]) then [i] else []);
      if DataEntry(h[i]) {
        PickAppend(h, before, i);
        r := r + [h[i]];
      }
    }
  }

  /** get_ls_places: the indices of the 0xc? entries, ascending. */
  method GetLsPlaces(h: seq<HexEntry>) returns (r: seq<nat>)
    ensures r == Indices(h, |h|, LocalEntry)
  {
    var i := 0;
    r := [];
    while i < |h|
      invariant i <= |h| && r == Indices(h, i, LocalEntry)
    {
      if h[i][2] == 'c' {
        r := r + [i];
      }
      i := i + 1;
    }
  }

  /** get_gs: the indices of the 0xf? entries, ascending. */
  method GetGs(h: seq<HexEntry>) returns (r: seq<nat>)
    ensures r == Indices(h, |h|, GlobalEntry)
  {
    var i := 0;
    r := [];
    while i < |h|
      invariant i <= |h| && r == Indices(h, i, GlobalEntry)
    {
      if h[i][2] == 'f' {
        r := r + [i];
      }
      i := i + 1;
    }
  }

  /** The greatest index below `n` whose entry is a data entry, or -1 when there is none. */
  function LastDataIndex(h: seq<HexEntry>, n: nat): (r: int)
    requires n <= |h|
    ensures -1 <= r < n
    ensures r >= 0 ==> DataEntry(h[r]) && forall i :: r < i < n ==> !DataEntry(h[i])
    ensures r == -1 ==> forall i :: 0 <= i < n ==> !DataEntry(h[i])
  {
    if n == 0 then -1 else if DataEntry(h[n - 1]) then n - 1 else LastDataIndex(h, n - 1)
  }

  /** get_ldb scans down from the last entry and stops at the first data entry. */
  method GetLdb(h: seq<HexEntry>) returns (i: int)
    ensures i == LastDataIndex(h, |h|)
  {
    i := |h| - 1;
    while i >= 0
      invariant -1 <= i < |h|
      invariant LastDataIndex(h, |h|) == LastDataIndex(h, i + 1)
    {
      if DataEntry(h[i]) {
        break;
      }
      i := i - 1;
    }
  }

  /** Python's `h.index(x)`: the first index holding `x`. */
  function FirstIndex(h: seq<HexEntry>, x: HexEntry): (r: Option<nat>)
    ensures r.Some? ==> r.value < |h| && h[r.value] == x && forall i :: 0 <= i < r.value ==> h[i] != x
    ensures r.None? <==> x !in h
  {
    if h == [] then None
    else if h[0] == x then Some(0)
    else match FirstIndex(h[1..], x)
      case None => None
      case Some(i) => Some(i + 1)
  }

  // ---------------------------------------------------------------------
  // ordered_offset

  predicate NonDecreasing(s: seq<nat>)
  {
    forall a, b :: 0 <= a < b < |s| ==> s[a] <= s[b]
  }

  /** `x` put in front of the first larger entry of `s`. */
  function Insert(x: nat, s: seq<nat>): (r: seq<nat>)
    ensures multiset(r) == multiset(s) + multiset{x} && |r| == |s| + 1
  {
    if s == [] then [x]
    else if x <= s[0] then [x] + s
    else
      assert s == [s[0]] + s[1..];
      [s[0]] + Insert(x, s[1..])
  }

  /** Inserting into a non-decreasing list keeps it non-decreasing. */
  lemma {:induction false} InsertSorted(x: nat, s: seq<nat>)
    requires NonDecreasing(s)
    ensures NonDecreasing(Insert(x, s))
  {
    if s != [] && x > s[0] {
      var tail := s[1..];
      InsertSorted(x, tail);
      var r := Insert(x, tail);
      assert Insert(x, s) == [s[0]] + r;
      forall v | v in r ensures s[0] <= v {
        assert v in multiset(r);
        if v != x {
          assert v in multiset(tail);
          var i :| 0 <= i < |tail| && tail[i] == v;
          assert s[i + 1] == v;
        }
      }
      ConsSorted(s[0], r);
    }
  }

  /** A least entry in front of a non-decreasing list keeps it non-decreasing. */
  lemma ConsSorted(x: nat, r: seq<nat>)
    requires NonDecreasing(r) && forall v :: v in r ==> x <= v
    ensures NonDecreasing([x] + r)
  {
    var s := [x] + r;
    forall a, b | 0 <= a < b < |s| ensures s[a] <= s[b] {
      assert s[b] == r[b - 1] && s[b] in r;
      if a > 0 {
        assert s[a] == r[a - 1];
      }
    }
  }

  /** Python's `list.sort()` on a list of indices. */
  function Sort(s: seq<nat>): (r: seq<nat>)
    ensures multiset(r) == multiset(s) && NonDecreasing(r)
  {
    if s == [] then []
    else
      assert s == s[..|s| - 1] + [s[|s| - 1]];
      var sorted := Sort(s[..|s| - 1]);
      InsertSorted(s[|s| - 1], sorted);
      Insert(s[|s| - 1], sorted)
  }

  /** A multiset has one non-decreasing arrangement. */
  lemma {:induction false} SortedUnique(a: seq<nat>, b: seq<nat>)
    requires NonDecreasing(a) && NonDecreasing(b) && multiset(a) == multiset(b)
    ensures a == b
  {
    assert |a| == |multiset(a)| == |b|;
    if a != [] {
      var x, y := a[0], b[0];
      assert x in multiset(b) && y in multiset(a);
      FirstIsLeast(b, x);
      FirstIsLeast(a, y);
      assert x == y;
      var ta, tb := a[1..], b[1..];
      assert a == [x] + ta && b == [x] + tb;
      assert multiset(ta) == multiset(a) - multiset{x};
      assert multiset(tb) == multiset(b) - multiset{x};
      TailSorted(a);
      TailSorted(b);
      SortedUnique(ta, tb);
    }
  }

  lemma FirstIsLeast(s: seq<nat>, x: nat)
    requires NonDecreasing(s) && x in s
    ensures s[0] <= x
  {
  }

  lemma TailSorted(s: seq<nat>)
    requires NonDecreasing(s) && s != []
    ensures NonDecreasing(s[1..])
  {
  }

  /** What ordered_offset returns: the local, global and first empty places, sorted. */
  function OrderedOffset(h: seq<HexEntry>): (r: Outcome<seq<nat>>)
  {
    match FirstIndex(h, Hex(0xee))
    case None => Raised(ValueError)
    case Some(eb) => Value(Sort(Indices(h, |h|, LocalEntry) + Indices(h, |h|, GlobalEntry) + [eb]))
  }

  /**
   * ordered_offset: the local places, the global places spliced in after
   * the first of them, the first empty place appended, then sorted.
   */
  method GetOrderedOffset(h: seq<HexEntry>) returns (r: Outcome<seq<nat>>)
    ensures r == OrderedOffset(h)
  {
    var offsets: seq<nat> := [];
    var ls := GetLsPlaces(h);
    offsets := ls + offsets;
    var gs := GetGs(h);
    var at := if |offsets| < 1 then |offsets| else 1;
    offsets := offsets[..at] + gs + offsets[at..];
    var eb := FirstIndex(h, Hex(0xee));
    if eb.None? {
      return Raised(ValueError);
    }
    offsets := offsets + [eb.value];
    assert ls + [] == ls && ls == ls[..at] + ls[at..];
    assert multiset(offsets) == multiset(ls + gs + [eb.value]);
    SortedUnique(Sort(offsets), Sort(ls + gs + [eb.value]));
    return Value(Sort(offsets));
  }

  /**
   * ordered_offset lists, ascending, the local and global places and the
   * first empty place, #ls + #gs + 1 of them, and raises ValueError when
   * there is no empty entry.
   */
  lemma OrderedOffsetContents(h: seq<HexEntry>)
    ensures OrderedOffset(h).Raised? <==> Hex(0xee) !in h
    ensures OrderedOffset(h).Value? ==>
      var r := OrderedOffset(h).value;
      && NonDecreasing(r)
      && multiset(r) == multiset(Indices(h, |h|, LocalEntry)) + multiset(Indices(h, |h|, GlobalEntry))
                        + multiset{FirstIndex(h, Hex(0xee)).value}
      && |r| == |Indices(h, |h|, LocalEntry)| + |Indices(h, |h|, GlobalEntry)| + 1
  {
    if OrderedOffset(h).Value? {
      var r := OrderedOffset(h).value;
      assert |multiset(r)| == |r|;
    }
  }

  // ---------------------------------------------------------------------
  // print_array

  /** The items joined by ", ". */
  function Join(items: seq<string>): string
  {
    if |items| <= 1 then (if items == [] then "" else items[0])
    else Join(items[..|items| - 1]) + ", " + items[|items| - 1]
  }

  /** A C initialiser: "{" + the items joined by ", " + "};\n"; no items give "};\n" alone. */
  function ArrayText(items: seq<string>): string
  {
    (if items == [] then "" else "{" + Join(items)) + "};\n"
  }

  /** Each item followed by ", ". */
  function Trail(items: seq<string>): string
  {
    if items == [] then "" else Trail(items[..|items| - 1]) + items[|items| - 1] + ", "
  }

  lemma {:induction false} TrailJoin(items: seq<string>)
    requires items != []
    ensures Trail(items) == Join(items) + ", "
  {
    if |items| > 1 {
      var front := items[..|items| - 1];
      TrailJoin(front);
      assert Trail(front) + items[|items| - 1] + ", " == Join(front) + ", " + items[|items| - 1] + ", ";
    } else {
      assert items[..0] == [];
    }
  }

  /**
   * print_array appends each item and ", " to "{", then drops the last two
   * characters (all of them, when there are fewer) and closes with "};\n".
   */
  method PrintArray(items: seq<string>) returns (st: string)
    ensures st == ArrayText(items)
  {
    st := "{";
    for k := 0 to |items|
      invariant st == "{" + Trail(items[..k])
    {
      assert items[..k + 1][..k] == items[..k];
      st := st + items[k];
      st := st + ", ";
    }
    assert items[..|items|] == items;
    if items != [] {
      TrailJoin(items);
      assert st == "{" + Join(items) + ", ";
      assert st[..|st| - 2] == "{" + Join(items);
    }
    st := (if |st| >= 2 then st[..|st| - 2] else "") + "};\n";
  }

  // ---------------------------------------------------------------------
  // The generated tables are the classification of the role bytes

  /** The third character of `hex(v)` tells the role of `v` as the C layout does. */
  lemma HexLead(v: byte)
    requires RoleValue(v)
    ensures DataEntry(Hex(v)) <==> IsData(v)
    ensures LocalEntry(Hex(v)) <==> IsLocal(v)
    ensures GlobalEntry(Hex(v)) <==> IsGlobal(v)
    ensures Hex(v) == Hex(0xee) <==> IsEmpty(v)
  {
    assert Hex(0xee) == "0xee" by { HexOfByte(0xee); }
    HexOfByte(v);
  }

  /** `hex(v)` of a byte: "0x" and one digit below 16, "0x" and two digits from 16 on. */
  lemma HexOfByte(v: int)
    requires 0 <= v < 0x100
    ensures v < 16 ==> Hex(v) == ['0', 'x', HexDigit(v)]
    ensures v >= 16 ==> Hex(v) == ['0', 'x', HexDigit(v / 16), HexDigit(v % 16)]
  {
    if v >= 16 {
      assert HexDigits(v) == HexDigits(v / 16) + [HexDigit(v % 16)];
    }
  }

  /** Index lists over two tables agree where their tests agree entry by entry. */
  lemma {:induction false} IndicesWhere(h: seq<HexEntry>, b: seq<byte>, n: nat, p: HexEntry -> bool, q: byte -> bool)
    requires n <= |h| == |b|
    requires forall k :: 0 <= k < n ==> (p(h[k]) <==> q(b[k]))
    ensures Indices(h, n, p) == Where(b, n, q)
  {
    if n > 0 {
      IndicesWhere(h, b, n - 1, p, q);
    }
  }

  /** get_ldb finds the last data slot, or -1. */
  lemma {:induction false} LastDataSlot(h: seq<HexEntry>, b: seq<byte>, n: nat)
    requires n <= |h| == |b|
    requires forall k :: 0 <= k < n ==> (DataEntry(h[k]) <==> IsData(b[k]))
    ensures var d := Where(b, n, IsData);
      LastDataIndex(h, n) == if d == [] then -1 else d[|d| - 1]
  {
    if n > 0 {
      LastDataSlot(h, b, n - 1);
      WhereStep(b, n - 1, IsData);
    }
  }

  /** The non-data lanes are the local, the global and the empty ones. */
  lemma {:induction false} NonDataSplit(b: seq<byte>, n: nat)
    requires n <= |b| && forall k :: 0 <= k < n ==> RoleValue(b[k])
    ensures multiset(Where(b, n, IsNonData))
      == multiset(Where(b, n, IsLocal)) + multiset(Where(b, n, IsGlobal)) + multiset(Where(b, n, IsEmpty))
  {
    if n > 0 {
      var m := n - 1;
      NonDataSplit(b, m);
      var a, l, g, e := multiset(Where(b, m, IsNonData)), multiset(Where(b, m, IsLocal)),
                        multiset(Where(b, m, IsGlobal)), multiset(Where(b, m, IsEmpty));
      WhereGrows(b, m, IsNonData);
      WhereGrows(b, m, IsLocal);
      WhereGrows(b, m, IsGlobal);
      WhereGrows(b, m, IsEmpty);
      NonDataStep(b[m], m, a, l, g, e);
    }
  }

  /** A role byte is non-data exactly when it is a local syndrome, the global one or the empty block. */
  lemma NonDataStep(v: byte, m: nat, a: multiset<nat>, l: multiset<nat>, g: multiset<nat>, e: multiset<nat>)
    requires RoleValue(v) && a == l + g + e
    ensures var one, none := multiset{m}, multiset{};
      a + (if IsNonData(v) then one else none)
        == (l + (if IsLocal(v) then one else none)) + (g + (if IsGlobal(v) then one else none))
           + (e + (if IsEmpty(v) then one else none))
  {
    if IsLocal(v) {
      assert IsNonData(v) && !IsGlobal(v) && !IsEmpty(v);
    } else if IsGlobal(v) {
      assert IsNonData(v) && !IsEmpty(v);
    } else if IsEmpty(v) {
      assert IsNonData(v);
    } else {
      assert !IsNonData(v);
    }
  }

  /** One more entry adds its index to the indices exactly when it satisfies `p`. */
  lemma WhereGrows(b: seq<byte>, m: nat, p: byte -> bool)
    requires m < |b|
    ensures multiset(Where(b, m + 1, p)) == multiset(Where(b, m, p)) + (if p(b[m]) then multiset{m} else multiset{})
  {
    WhereStep(b, m, p);
  }

  /** With one empty lane, the empty lanes are that one. */
  lemma OneEmpty(b: seq<byte>, e: nat)
    requires e < |b| && IsEmpty(b[e]) && Count(b, IsEmpty) == 1
    ensures Where(b, |b|, IsEmpty) == [e]
  {
    var w := Where(b, |b|, IsEmpty);
    WhereCount(b, |b|, IsEmpty);
    assert b[..|b|] == b;
    WhereComplete(b, |b|, IsEmpty, e);
    assert |w| == 1 && e in w;
    assert w == [w[0]];
  }

  /** Where the test of an entry agrees with the test of its byte. */
  predicate EntriesAgree(h: seq<HexEntry>, b: seq<byte>)
  {
    && |h| == |b|
    && (forall k :: 0 <= k < |h| ==> (DataEntry(h[k]) <==> IsData(b[k])))
    && (forall k :: 0 <= k < |h| ==> (LocalEntry(h[k]) <==> IsLocal(b[k])))
    && (forall k :: 0 <= k < |h| ==> (GlobalEntry(h[k]) <==> IsGlobal(b[k])))
    && (forall k :: 0 <= k < |h| ==> (h[k] == Hex(0xee) <==> IsEmpty(b[k])))
  }

  lemma HexEntriesAgree(b: seq<byte>)
    requires forall k :: 0 <= k < |b| ==> RoleValue(b[k])
    ensures EntriesAgree(HexAll(b), b)
  {
    var h := HexAll(b);
    forall k | 0 <= k < |b|
      ensures (DataEntry(h[k]) <==> IsData(b[k])) && (LocalEntry(h[k]) <==> IsLocal(b[k]))
      ensures (GlobalEntry(h[k]) <==> IsGlobal(b[k])) && (h[k] == Hex(0xee) <==> IsEmpty(b[k]))
    {
      HexLead(b[k]);
    }
  }

  /** With exactly one empty block, ordered_offset lists the non-data lanes ascending. */
  lemma OffsetsAgree(h: seq<HexEntry>, b: seq<byte>)
    requires EntriesAgree(h, b) && Count(b, IsEmpty) == 1
    requires forall k :: 0 <= k < |b| ==> RoleValue(b[k])
    ensures OrderedOffset(h) == Value(NonDataSlots(b))
  {
    var ls, gs, nd := Where(b, |b|, IsLocal), Where(b, |b|, IsGlobal), NonDataSlots(b);
    WhereCount(b, |b|, IsEmpty);
    assert b[..|b|] == b;
    var e := Where(b, |b|, IsEmpty)[0];
    OneEmpty(b, e);
    FirstEmpty(h, b, e);
    IndicesWhere(h, b, |h|, LocalEntry, IsLocal);
    IndicesWhere(h, b, |h|, GlobalEntry, IsGlobal);
    NonDataSplit(b, |b|);
    var sorted := Sort(ls + gs + [e]);
    assert multiset(ls + gs + [e]) == multiset(ls) + multiset(gs) + multiset([e]);
    assert multiset(sorted) == multiset(nd);
    SortedUnique(sorted, nd);
  }

  /** get_data_scheme keeps the hex of the data bytes, in lane order. */
  lemma DataAgree(h: seq<HexEntry>, b: seq<byte>)
    requires EntriesAgree(h, b) && h == HexAll(b)
    ensures DataScheme(h) == HexAll(ValuesAt(b, DataSlots(b)))
  {
    IndicesWhere(h, b, |h|, DataEntry, IsData);
    var d := DataSlots(b);
    assert forall k :: 0 <= k < |d| ==> Pick(h, d)[k] == HexAll(ValuesAt(b, d))[k];
  }

  /** get_ls_places and get_gs list the local and the global lanes. */
  lemma PlacesAgree(h: seq<HexEntry>, b: seq<byte>)
    requires EntriesAgree(h, b)
    ensures Indices(h, |h|, LocalEntry) == Where(b, |b|, IsLocal)
    ensures Indices(h, |h|, GlobalEntry) == Where(b, |b|, IsGlobal)
  {
    IndicesWhere(h, b, |h|, LocalEntry, IsLocal);
    IndicesWhere(h, b, |h|, GlobalEntry, IsGlobal);
  }

  /**
   * For a scheme of byte-sized roles, the tables the generator prints are
   * those the C layout derives from the role bytes: the data groups in lane
   * order, the local and global lanes, the last data lane (-1 for none) and,
   * when there is exactly one empty block, the non-data lanes ascending.
   */
  lemma GeneratedTables(b: seq<byte>)
    requires forall k :: 0 <= k < |b| ==> RoleValue(b[k])
    ensures DataScheme(HexAll(b)) == HexAll(ValuesAt(b, DataSlots(b)))
    ensures Indices(HexAll(b), |b|, LocalEntry) == Where(b, |b|, IsLocal)
    ensures Indices(HexAll(b), |b|, GlobalEntry) == Where(b, |b|, IsGlobal)
    ensures LastDataIndex(HexAll(b), |b|) == (if DataSlots(b) == [] then -1 else DataSlots(b)[|DataSlots(b)| - 1])
    ensures Count(b, IsEmpty) == 1 ==> OrderedOffset(HexAll(b)) == Value(NonDataSlots(b))
  {
    var h := HexAll(b);
    HexEntriesAgree(b);
    DataAgree(h, b);
    PlacesAgree(h, b);
    LastDataSlot(h, b, |h|);
    if Count(b, IsEmpty) == 1 {
      OffsetsAgree(h, b);
    }
  }

  // ---------------------------------------------------------------------
  // defines and constants

  /**
   * The four #define lines: SUBSTRIPES counts "s" and "S", SUBSTRIPE_DATA
   * is the number of "1"s less one, E_BLOCKS counts "e" and "E", GLOBAL_S
   * counts "g" and "G".
   */
  function Defines(scheme: string): (r: seq<string>)
    ensures |r| == 4
  {
    var sd := CountChar(scheme, '1') - 1;
    var ss := CountChar(scheme, 's') + CountChar(scheme, 'S');
    var eb := CountChar(scheme, 'e') + CountChar(scheme, 'E');
    var gs := CountChar(scheme, 'g') + CountChar(scheme, 'G');
    ["#define SUBSTRIPES " + Str(ss) + "\n",
     "#define SUBSTRIPE_DATA " + Str(sd) + "\n",
     "#define E_BLOCKS " + Str(eb) + "\n",
     "#define GLOBAL_S " + Str(gs) + "\n"]
  }

  /** How many of `vs` satisfy `p`. */
  function CountValues(vs: seq<int>, p: int -> bool): nat
  {
    if vs == [] then 0 else (if p(vs[0]) then 1 else 0) + CountValues(vs[1..], p)
  }

  predicate LocalValue(v: int) { 191 <= v <= 200 }
  predicate EmptyValue(v: int) { v == 0xee }
  predicate GlobalValue(v: int) { v == 0xff }
  /** The values spelled with a "1": data of group 0 ("1") and the local syndrome "s1". */
  predicate SpelledWithOne(v: int) { v == 0 || v == 192 }

  /**
   * On the spelling of a list of roles, the counts defines takes are the
   * numbers of local syndromes, empty blocks and global syndromes, and of
   * group-0 entries (data and syndrome) for the "1"s.
   */
  lemma {:induction false} DefinesCountRoles(vs: seq<int>)
    requires forall k :: 0 <= k < |vs| ==> RoleValue(vs[k])
    ensures CountChar(Spell(vs), 's') == CountValues(vs, LocalValue) && CountChar(Spell(vs), 'S') == 0
    ensures CountChar(Spell(vs), 'e') == CountValues(vs, EmptyValue) && CountChar(Spell(vs), 'E') == 0
    ensures CountChar(Spell(vs), 'g') == CountValues(vs, GlobalValue) && CountChar(Spell(vs), 'G') == 0
    ensures CountChar(Spell(vs), '1') == CountValues(vs, SpelledWithOne)
  {
    if vs != [] {
      var v, head, rest := vs[0], Spelling(vs[0]), Spell(vs[1..]);
      DefinesCountRoles(vs[1..]);
      CountCharAppend(head, rest, 's');
      CountCharAppend(head, rest, 'S');
      CountCharAppend(head, rest, 'e');
      CountCharAppend(head, rest, 'E');
      CountCharAppend(head, rest, 'g');
      CountCharAppend(head, rest, 'G');
      CountCharAppend(head, rest, '1');
      if v <= 8 {
        assert head == [DecimalDigit(v + 1)];
      } else if v <= 200 {
        assert head == ['s', DecimalDigit(v - 191)] && head[1..] == [DecimalDigit(v - 191)];
      }
    }
  }

  // The fixed text of the generated lines.
  const SCHEME_DECL: string := "const unsigned char lrc_scheme[(SUBSTRIPE_DATA + 1) * SUBSTRIPES + E_BLOCKS + GLOBAL_S] =\n"
  const DATA_NOTE: string := "// it is just lrc_scheme without 0xee, 0xff and 0xcN\n"
  const DATA_DECL: string := "const unsigned char lrc_data[SUBSTRIPE_DATA * SUBSTRIPES] =\n"
  const GS_NOTE: string := "// it is place of global syndrome\n"
  const GS_DECL: string := "const int lrc_gs[GLOBAL_S] = "
  const LS_NOTE: string := "// places of all local syndromes\n"
  const LS_DECL: string := "const int lrc_ls[SUBSTRIPES] = "
  const EB_NOTE: string := "// empty place\n"
  const EB_DECL: string := "const int lrc_eb = "
  const OFFSET_NOTE: string := "// not-data blocks, ordered by increasing\n"
  const OFFSET_DECL: string := "const int lrc_offset[SUBSTRIPES + E_BLOCKS + GLOBAL_S] = "
  const LDB_NOTE: string := "// number of the last data block\n"
  const LDB_DECL: string := "const int lrc_ldb = "

  /**
   * The lines `constants` returns for a scheme: the role table, the data
   * groups, the global, local and empty places, the ordered non-data places
   * and the last data place, each with its comment line.  It raises what
   * get_hex_scheme raises, and ValueError when there is no empty block.
   */
  function Constants(scheme: string): (r: Outcome<seq<string>>)
    ensures r.Value? <==> HexScheme(scheme).Value? && Hex(0xee) in HexScheme(scheme).value
    ensures r.Value? ==> |r.value| == 23
  {
    match HexScheme(scheme)
    case Raised(e) => Raised(e)
    case Value(h) =>
      match OrderedOffset(h)
      case Raised(e) => Raised(e)
      case Value(offset) =>
        var eb := FirstIndex(h, Hex(0xee)).value;
        Value(["\n",
               SCHEME_DECL,
               ArrayText(h), "\n",
               DATA_NOTE,
               DATA_DECL,
               ArrayText(DataScheme(h)), "\n",
               GS_NOTE,
               GS_DECL, ArrayText(Strs(Indices(h, |h|, GlobalEntry))), "\n",
               LS_NOTE,
               LS_DECL, ArrayText(Strs(Indices(h, |h|, LocalEntry))),
               EB_NOTE,
               EB_DECL + Str(eb) + ";\n",
               OFFSET_NOTE,
               OFFSET_DECL, ArrayText(Strs(offset)),
               LDB_NOTE,
               LDB_DECL + Str(LastDataIndex(h, |h|)) + ";\n", "\n"])
  }

  /** The text make_file writes: the define lines, then the constant lines. */
  function FileText(scheme: string): (r: Outcome<string>)
    ensures r.Value? <==> Constants(scheme).Value?
  {
    match Constants(scheme)
    case Raised(e) => Raised(e)
    case Value(lines) => Value(Concat(Defines(scheme) + lines))
  }

  // ---------------------------------------------------------------------
  // The scheme of lrc_config.c

  /** The scheme string lrc_config.c is generated from. */
  const LRC_SCHEME_STRING: string := "111s1" + "222s2" + "333s3" + "eg"

  /** get_hex_scheme reads "111s1222s2333s3eg" as the role table of lrc_config.c. */
  lemma RolesOfLrcScheme()
    ensures Roles(LRC_SCHEME_STRING) == Value(LrcConfig.SCHEME)
  {
    var tail := "eg";
    var r2, r1 := "333s3" + tail, "222s2" + ("333s3" + tail);
    assert LRC_SCHEME_STRING == "111s1" + r1;
    assert Roles(tail) == Value([0xee, 0xff]) by {
      assert tail[1..] == "g" && tail[1..][1..] == [];
      assert Roles("g") == Value([0xff] + []);
      assert [0xff] + [] == [0xff] && [0xee] + [0xff] == [0xee, 0xff];
    }
    RolesOfGroup(2, tail);
    RolesOfGroup(1, r2);
    RolesOfGroup(0, r1);
    ThenThen([2, 2, 2, 0xc2], [0xee, 0xff], Value([]));
    assert LrcConfig.SCHEME == [0, 0, 0, 0xc0] + ([1, 1, 1, 0xc1] + ([2, 2, 2, 0xc2] + [0xee, 0xff]));
  }

  /** Three data blocks of group `g` and their local syndrome, spelled "ddds" and d with d = g + 1. */
  lemma RolesOfGroup(g: nat, rest: string)
    requires g < 9
    ensures var d := DecimalDigit(g + 1);
      Roles([d, d, d, 's', d] + rest) == Then([g, g, g, 0xc0 + g], Roles(rest))
  {
    var d := DecimalDigit(g + 1);
    var c := 0xc0 + g;
    var s3: string := ['s', d] + rest;
    var s2: string := [d] + s3;
    var s1: string := [d] + s2;
    var s0: string := [d] + s1;
    assert s0 == [d, d, d, 's', d] + rest;
    var r := Roles(rest);
    assert s3[0] == 's' && s3[1] == d && s3[2..] == rest;
    assert Roles(s3) == Then([c], r);
    assert s2[0] == d && s2[1..] == s3;
    assert Roles(s2) == Then([g], Then([c], r));
    ThenThen([g], [c], r);
    assert [g] + [c] == [g, c];
    assert s1[0] == d && s1[1..] == s2;
    assert Roles(s1) == Then([g], Then([g, c], r));
    ThenThen([g], [g, c], r);
    assert [g] + [g, c] == [g, g, c];
    assert s0[0] == d && s0[1..] == s1;
    assert Roles(s0) == Then([g], Then([g, g, c], r));
    ThenThen([g], [g, g, c], r);
    assert [g] + [g, g, c] == [g, g, g, c];
  }

  /** The hex entries of that role table. */
  lemma HexOfLrcScheme()
    ensures HexAll(LrcConfig.SCHEME)
      == ["0x0", "0x0", "0x0", "0xc0", "0x1", "0x1", "0x1", "0xc1", "0x2", "0x2", "0x2", "0xc2", "0xee", "0xff"]
  {
    HexOfByte(0x0);
    HexOfByte(0x1);
    HexOfByte(0x2);
    HexOfByte(0xc0);
    HexOfByte(0xc1);
    HexOfByte(0xc2);
    HexOfByte(0xee);
    HexOfByte(0xff);
  }

  /** The decimal strings of the places in lrc_config.c. */
  lemma LrcDecimals()
    ensures Str(1) == "1" && Str(3) == "3" && Str(7) == "7"
    ensures Str(10) == "10" && Str(11) == "11" && Str(12) == "12" && Str(13) == "13"
  {
    assert DecimalDigits(1) == "1" && DecimalDigits(3) == "3" && DecimalDigits(7) == "7";
    assert DecimalDigits(10) == DecimalDigits(1) + "0";
    assert DecimalDigits(11) == DecimalDigits(1) + "1";
    assert DecimalDigits(12) == DecimalDigits(1) + "2";
    assert DecimalDigits(13) == DecimalDigits(1) + "3";
  }

  /** The letters of one group "ddds" + d. */
  lemma {:induction false} CountGroup(d: char, c: char)
    requires d != 's'
    ensures CountChar([d, d, d, 's', d], c) == (if c == d then 4 else 0) + (if c == 's' then 1 else 0)
  {
    var s4: string := [d];
    var s3: string := ['s'] + s4;
    var s2: string := [d] + s3;
    var s1: string := [d] + s2;
    var s0: string := [d] + s1;
    assert s0 == [d, d, d, 's', d];
    var n: nat := if c == d then 1 else 0;
    var m: nat := if c == 's' then 1 else 0;
    assert s4[0] == d && s4[1..] == [] && CountChar(s4, c) == n;
    assert s3[0] == 's' && s3[1..] == s4 && CountChar(s3, c) == n + m;
    assert s2[0] == d && s2[1..] == s3 && CountChar(s2, c) == 2 * n + m;
    assert s1[0] == d && s1[1..] == s2 && CountChar(s1, c) == 3 * n + m;
    assert s0[0] == d && s0[1..] == s1 && CountChar(s0, c) == 4 * n + m;
  }

  /** The letters of "eg". */
  lemma CountTail(c: char)
    ensures CountChar("eg", c) == (if c == 'e' then 1 else 0) + (if c == 'g' then 1 else 0)
  {
    var t: string := "eg";
    var g: string := "g";
    assert g[1..] == [] && CountChar(g, c) == (if c == 'g' then 1 else 0);
    assert t[0] == 'e' && t[1..] == g;
  }

  /** The letters defines counts, in "111s1222s2333s3eg". */
  lemma LrcSchemeCounts(c: char)
    ensures CountChar(LRC_SCHEME_STRING, c)
      == (if c in "123" then 4 else 0) + (if c == 's' then 3 else 0) + (if c in "eg" then 1 else 0)
  {
    var g1, g2, g3, t: string := "111s1", "222s2", "333s3", "eg";
    CountCharAppend(g1, g2, c);
    CountCharAppend(g1 + g2, g3, c);
    CountCharAppend(g1 + g2 + g3, t, c);
    assert g1 == ['1', '1', '1', 's', '1'] && g2 == ['2', '2', '2', 's', '2'] && g3 == ['3', '3', '3', 's', '3'];
    CountGroup('1', c);
    CountGroup('2', c);
    CountGroup('3', c);
    CountTail(c);
  }

  /** defines writes the four #define lines of lrc_config.c for "111s1222s2333s3eg". */
  lemma DefinesOfLrcScheme()
    ensures Defines(LRC_SCHEME_STRING)
      == ["#define SUBSTRIPES " + Str(LrcConfig.SUBSTRIPES) + "\n",
          "#define SUBSTRIPE_DATA " + Str(LrcConfig.SUBSTRIPE_DATA) + "\n",
          "#define E_BLOCKS " + Str(LrcConfig.E_BLOCKS) + "\n",
          "#define GLOBAL_S " + Str(LrcConfig.GLOBAL_S) + "\n"]
  {
    LrcSchemeCounts('1');
    LrcSchemeCounts('s');
    LrcSchemeCounts('S');
    LrcSchemeCounts('e');
    LrcSchemeCounts('E');
    LrcSchemeCounts('g');
    LrcSchemeCounts('G');
  }

  /** With one empty block, `index("0xee")` finds its place. */
  lemma FirstEmpty(h: seq<HexEntry>, b: seq<byte>, e: nat)
    requires EntriesAgree(h, b)
    requires e < |b| && IsEmpty(b[e]) && Count(b, IsEmpty) == 1
    ensures FirstIndex(h, Hex(0xee)) == Some(e)
  {
    OneEmpty(b, e);
    assert h[e] == Hex(0xee);
    var r := FirstIndex(h, Hex(0xee));
    WhereComplete(b, |b|, IsEmpty, r.value);
  }

  /**
   * For a scheme whose roles have one empty block, the lines `constants`
   * writes are the classification of the roles as the C layout makes it:
   * the data groups in lane order, the global and local places, the empty
   * place, the non-data places in order and the last data place.
   */
  lemma ConstantsOfRoles(scheme: string, b: seq<byte>, e: nat)
    requires Roles(scheme) == Value(b)
    requires e < |b| && IsEmpty(b[e]) && Count(b, IsEmpty) == 1
    ensures Constants(scheme)
      == Value(["\n",
                SCHEME_DECL,
                ArrayText(HexAll(b)), "\n",
                DATA_NOTE,
                DATA_DECL,
                ArrayText(HexAll(ValuesAt(b, DataSlots(b)))), "\n",
                GS_NOTE,
                GS_DECL, ArrayText(Strs(Where(b, |b|, IsGlobal))), "\n",
                LS_NOTE,
                LS_DECL, ArrayText(Strs(Where(b, |b|, IsLocal))),
                EB_NOTE,
                EB_DECL + Str(e) + ";\n",
                OFFSET_NOTE,
                OFFSET_DECL, ArrayText(Strs(NonDataSlots(b))),
                LDB_NOTE,
                LDB_DECL + Str(if DataSlots(b) == [] then -1 else DataSlots(b)[|DataSlots(b)| - 1]) + ";\n", "\n"])
  {
    var h := HexAll(b);
    assert HexScheme(scheme) == Value(h);
    GeneratedTables(b);
    assert OrderedOffset(h) == Value(NonDataSlots(b));
    HexEntriesAgree(b);
    FirstEmpty(h, b, e);
  }

  /**
   * constants writes, for "111s1222s2333s3eg", the tables of lrc_config.c:
   * its role table, data groups, global, local and empty places, ordered
   * non-data places and last data place.
   */
  lemma ConstantsOfLrcScheme()
    ensures HexScheme(LRC_SCHEME_STRING) == Value(HexAll(LrcConfig.SCHEME))
    ensures Constants(LRC_SCHEME_STRING)
      == Value(["\n",
                SCHEME_DECL,
                ArrayText(HexAll(LrcConfig.SCHEME)), "\n",
                DATA_NOTE,
                DATA_DECL,
                ArrayText(HexAll(LrcConfig.DATA)), "\n",
                GS_NOTE,
                GS_DECL, ArrayText(Strs(LrcConfig.GS)), "\n",
                LS_NOTE,
                LS_DECL, ArrayText(Strs(LrcConfig.LS)),
                EB_NOTE,
                EB_DECL + Str(LrcConfig.EB) + ";\n",
                OFFSET_NOTE,
                OFFSET_DECL, ArrayText(Strs(LrcConfig.OFFSET)),
                LDB_NOTE,
                LDB_DECL + Str(LrcConfig.LDB) + ";\n", "\n"])
  {
    RolesOfLrcScheme();
    LrcConfig.EmptyCount();
    ConstantsOfRoles(LRC_SCHEME_STRING, LrcConfig.SCHEME, LrcConfig.EB);
    LrcConfig.DataGroups();
    LrcConfig.DataCount();
    LrcConfig.NonDataCount();
    LrcConfig.LocalCount();
    LrcConfig.GlobalCount();
  }
}
