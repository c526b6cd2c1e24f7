/**
 * The list of registered placement algorithms: scheme modules add their
 * descriptor with insane_register and remove it with insane_unregister,
 * and the constructor looks a descriptor up by name. Names are compared
 * with `strncmp` on at most ALG_NAME_LEN characters.
 */
module Registry {
  import opened Wrappers
  import opened InsaneH

  function Min(a: nat, b: nat): nat
  {
    if a < b then a else b
  }

  /** `strncmp(a, b, n) == 0` for strings without NUL characters. */
  predicate StrnEq(a: string, b: string, n: nat)
  {
    a[..Min(n, |a|)] == b[..Min(n, |b|)]
  }

  /** Against a string shorter than the bound, the bounded comparison is plain equality. */
  lemma StrnEqShort(a: string, b: string, n: nat)
    requires |b| < n
    ensures StrnEq(a, b, n) <==> a == b
  {
    if StrnEq(a, b, n) {
      assert |a[..Min(n, |a|)]| == |b|;
      assert Min(n, |a|) == |a|;
    }
  }

  /** Two names denote the same algorithm. */
  predicate SameName(a: string, b: string)
  {
    StrnEq(a, b, ALG_NAME_LEN)
  }

  /** Names that agree on their first ALG_NAME_LEN characters match, whatever follows. */
  lemma LongNamesMatch(a: string, b: string)
    requires |a| >= ALG_NAME_LEN && |b| >= ALG_NAME_LEN && a[..ALG_NAME_LEN] == b[..ALG_NAME_LEN]
    ensures SameName(a, b)
  {
  }

  /** The first entry at or after `i` whose name matches `name`. */
  function FindFrom(es: seq<Algorithm>, name: string, i: nat): (r: Option<nat>)
    requires i <= |es|
    ensures r.Some? ==> i <= r.value < |es| && SameName(es[r.value].name, name)
                        && forall k :: i <= k < r.value ==> !SameName(es[k].name, name)
    ensures r.None? ==> forall k :: i <= k < |es| ==> !SameName(es[k].name, name)
    decreases |es| - i
  {
    if i == |es| then None
    else if SameName(es[i].name, name) then Some(i)
    else FindFrom(es, name, i + 1)
  }

  /** The list walk of insane_ctr, insane_register and insane_unregister: the first entry whose name matches. */
  function Find(es: seq<Algorithm>, name: string): (r: Option<nat>)
    ensures r.Some? ==> r.value < |es| && SameName(es[r.value].name, name)
                        && forall k :: 0 <= k < r.value ==> !SameName(es[k].name, name)
    ensures r.None? <==> forall k :: 0 <= k < |es| ==> !SameName(es[k].name, name)
  {
    FindFrom(es, name, 0)
  }

  /** What a registry call returns (0 or a negated errno) and the list it leaves. */
  datatype Update = Update(status: int, entries: seq<Algorithm>)

  /**
   * insane_register: a null descriptor or one without `map` is refused with
   * -EINVAL, a name already registered with -EEXIST; otherwise the
   * descriptor goes to the head of the list.
   */
  function RegisterSpec(es: seq<Algorithm>, alg: Option<Algorithm>): (u: Update)
    ensures u.status in {0, -(EINVAL as int), -(EEXIST as int)}
    ensures u.status != 0 ==> u.entries == es
    ensures u.status == -(EINVAL as int) <==> alg.None? || alg.value.mapFn.None?
    ensures u.status == -(EEXIST as int) <==>
              alg.Some? && alg.value.mapFn.Some? && exists k :: 0 <= k < |es| && SameName(es[k].name, alg.value.name)
    ensures u.status == 0 ==> u.entries == [alg.value] + es
  {
    if alg.None? || alg.value.mapFn.None? then Update(-(EINVAL as int), es)
    else if Find(es, alg.value.name).Some? then Update(-(EEXIST as int), es)
    else Update(0, [alg.value] + es)
  }

  /**
   * insane_unregister: a null descriptor is refused with -EINVAL, a name
   * no entry has with -ESRCH; otherwise the matching entry is unlinked.
   */
  function UnregisterSpec(es: seq<Algorithm>, alg: Option<Algorithm>): (u: Update)
    ensures u.status in {0, -(EINVAL as int), -(ESRCH as int)}
    ensures u.status != 0 ==> u.entries == es
    ensures u.status == -(ESRCH as int) <==>
              alg.Some? && forall k :: 0 <= k < |es| ==> !SameName(es[k].name, alg.value.name)
    ensures u.status == 0 ==> |u.entries| + 1 == |es|
    ensures u.status == 0 ==> alg.Some? && Find(es, alg.value.name).Some?
                              && var k := Find(es, alg.value.name).value; u.entries == es[..k] + es[k + 1..]
  {
    if alg.None? then Update(-(EINVAL as int), es)
    else match Find(es, alg.value.name)
      case None => Update(-(ESRCH as int), es)
      case Some(k) => Update(0, es[..k] + es[k + 1..])
  }

  /** The list the driver keeps: every entry has a mapping function and no two names match. */
  predicate WellFormed(es: seq<Algorithm>)
  {
    && (forall k :: 0 <= k < |es| ==> es[k].mapFn.Some?)
    && (forall a, b :: 0 <= a < b < |es| ==> !SameName(es[a].name, es[b].name))
  }

  /** Registering keeps the list well formed. */
  lemma RegisterKeepsWellFormed(es: seq<Algorithm>, alg: Option<Algorithm>)
    requires WellFormed(es)
    ensures WellFormed(RegisterSpec(es, alg).entries)
  {
    var u := RegisterSpec(es, alg);
    if u.status == 0 {
      var a := alg.value;
      forall i, j | 0 <= i < j < |u.entries| ensures !SameName(u.entries[i].name, u.entries[j].name) {
        if i == 0 {
          assert u.entries[j] == es[j - 1];
          assert !SameName(es[j - 1].name, a.name);
        } else {
          assert u.entries[i] == es[i - 1] && u.entries[j] == es[j - 1];
        }
      }
    }
  }

  /** Unregistering keeps the list well formed. */
  lemma UnregisterKeepsWellFormed(es: seq<Algorithm>, alg: Option<Algorithm>)
    requires WellFormed(es)
    ensures WellFormed(UnregisterSpec(es, alg).entries)
  {
    var u := UnregisterSpec(es, alg);
    if u.status == 0 {
      var k := Find(es, alg.value.name).value;
      forall i | 0 <= i < |u.entries| ensures u.entries[i] == es[if i < k then i else i + 1] { }
    }
  }

  /**
   * A registered descriptor is the first one the constructor's lookup finds
   * under its name, and it is the descriptor itself, ahead of the old list.
   */
  lemma RegisterThenFind(es: seq<Algorithm>, alg: Algorithm)
    requires RegisterSpec(es, Some(alg)).status == 0
    ensures var l := RegisterSpec(es, Some(alg)).entries;
      && Find(l, alg.name) == Some(0)
      && l[0] == alg && l[1..] == es
  {
    var l := [alg] + es;
    assert l[1..] == es;
  }

  /** Unregistering what was just registered gives the list back. */
  lemma RegisterUnregister(es: seq<Algorithm>, alg: Algorithm)
    requires RegisterSpec(es, Some(alg)).status == 0
    ensures UnregisterSpec(RegisterSpec(es, Some(alg)).entries, Some(alg)) == Update(0, es)
  {
    RegisterThenFind(es, alg);
    var l := [alg] + es;
    assert l[1..] == es;
  }

  /** In a well-formed list, after a successful unregister no entry has that name any more. */
  lemma UnregisterRemovesName(es: seq<Algorithm>, alg: Algorithm)
    requires WellFormed(es) && UnregisterSpec(es, Some(alg)).status == 0
    ensures forall i :: 0 <= i < |UnregisterSpec(es, Some(alg)).entries| ==>
              !SameName(UnregisterSpec(es, Some(alg)).entries[i].name, alg.name)
  {
    var u := UnregisterSpec(es, Some(alg));
    var k := Find(es, alg.name).value;
    forall i | 0 <= i < |u.entries| ensures !SameName(u.entries[i].name, alg.name) {
      var j := if i < k then i else i + 1;
      assert u.entries[i] == es[j];
      if SameName(es[j].name, alg.name) {
        SameNameTransitive(es[j].name, alg.name, es[k].name);
      }
    }
  }

  lemma SameNameTransitive(a: string, b: string, c: string)
    requires SameName(a, b) && SameName(c, b)
    ensures SameName(a, c) && SameName(c, a)
  {
  }

  /** The registered algorithms, as the driver's list head links them. */
  class Registry {
    var entries: seq<Algorithm>

    ghost predicate Valid()
      reads this
    {
      WellFormed(entries)
    }

    constructor ()
      ensures entries == [] && Valid()
    {
      entries := [];
    }

    /** The lookup loop of insane_ctr. */
    method Lookup(name: string) returns (found: Option<nat>)
      ensures found == Find(entries, name)
    {
      var k := 0;
      while k < |entries|
        invariant k <= |entries|
        invariant FindFrom(entries, name, k) == Find(entries, name)
      {
        if SameName(entries[k].name, name) {
          return Some(k);
        }
        k := k + 1;
      }
      return None;
    }

    /** insane_register. */
    method Register(alg: Option<Algorithm>) returns (status: int)
      requires Valid()
      modifies this
      ensures Update(status, entries) == RegisterSpec(old(entries), alg)
      ensures Valid()
    {
      RegisterKeepsWellFormed(entries, alg);
      if alg.None? || alg.value.mapFn.None? {
        return -(EINVAL as int);
      }
      var found := Lookup(alg.value.name);
      if found.Some? {
        return -(EEXIST as int);
      }
      entries := [alg.value] + entries;
      return 0;
    }

    /** insane_unregister. */
    method Unregister(alg: Option<Algorithm>) returns (status: int)
      requires Valid()
      modifies this
      ensures Update(status, entries) == UnregisterSpec(old(entries), alg)
      ensures Valid()
    {
      UnregisterKeepsWellFormed(entries, alg);
      if alg.None? {
        return -(EINVAL as int);
      }
      var k := 0;
      while k < |entries|
        invariant k <= |entries|
        invariant FindFrom(entries, alg.value.name, k) == Find(entries, alg.value.name)
      {
        if SameName(entries[k].name, alg.value.name) {
          entries := entries[..k] + entries[k + 1..];
          return 0;
        }
        k := k + 1;
      }
      return -(ESRCH as int);
    }
  }
}
