/** The incrementally rehashed hash map of db_hashmap.c. While an old table is being
    migrated, buckets below the progress mark live in the new table and the others in
    the old one; the rest of the new table is uninitialised memory. */
module HashMap {
  import opened Chains

  // ---- The two tables as values ----

  /** A new bucket that both of its old candidates' migration has reached. */
  predicate Ready(j: nat, oldCapacity: nat, progress: nat) {
    oldCapacity == 0 || j % oldCapacity < progress
  }

  /** Whether a key is still looked up in the old table. */
  predicate InOld<K, V>(h: K -> nat, os: seq<Slot<K, V>>, p: nat, k: K) {
    |os| > 0 && h(k) % |os| >= p
  }

  function HomeSlot<K, V>(h: K -> nat, os: seq<Slot<K, V>>, p: nat, ns: seq<Slot<K, V>>, k: K): Slot<K, V>
    requires |ns| > 0
  {
    if InOld(h, os, p, k) then os[h(k) % |os|] else ns[h(k) % |ns|]
  }

  function MapGet<K, V>(m: map<K, V>, k: K): Option<V> {
    if k in m then Some(m[k]) else None
  }

  /** The tables, taken together, hold exactly the map m. */
  ghost predicate Tables<K(!new), V>(h: K -> nat, os: seq<Slot<K, V>>, p: nat, ns: seq<Slot<K, V>>, m: map<K, V>) {
    && |ns| > 0 && (|os| > 0 ==> |ns| == 2 * |os|) && p <= |os|
    && (forall i :: 0 <= i < p ==> os[i].Relocated?)
    && (forall i :: p <= i < |os| ==> Proper(h, os[i], i, |os|))
    && (forall j :: 0 <= j < |ns| && Ready(j, |os|, p) ==> Proper(h, ns[j], j, |ns|))
    && (forall k :: Lookup(Entries(HomeSlot(h, os, p, ns, k)), k) == MapGet(m, k))
  }

  /** The bucket a key is looked up in is never a mark or garbage, and only its own keys live there. */
  lemma HomeIsProper<K(!new), V>(h: K -> nat, os: seq<Slot<K, V>>, p: nat, ns: seq<Slot<K, V>>, m: map<K, V>, k: K)
    requires Tables(h, os, p, ns, m)
    ensures InOld(h, os, p, k) ==> Proper(h, os[h(k) % |os|], h(k) % |os|, |os|)
    ensures !InOld(h, os, p, k) ==> Proper(h, ns[h(k) % |ns|], h(k) % |ns|, |ns|)
    ensures !InOld(h, os, p, k) ==> Ready(h(k) % |ns|, |os|, p)
  {
    if |os| > 0 { ModHalf(h(k), |os|, |ns|); }
  }

  /** Replacing the home slot of k by a proper one in which only k's answer differs. */
  lemma Replaced<K(!new), V>(h: K -> nat, os: seq<Slot<K, V>>, p: nat, ns: seq<Slot<K, V>>, m: map<K, V>,
                             k: K, s: Slot<K, V>, m2: map<K, V>)
    requires Tables(h, os, p, ns, m)
    requires InOld(h, os, p, k) ==> Proper(h, s, h(k) % |os|, |os|)
    requires !InOld(h, os, p, k) ==> Proper(h, s, h(k) % |ns|, |ns|)
    requires forall q :: q != k ==> Lookup(Entries(s), q) == Lookup(Entries(HomeSlot(h, os, p, ns, k)), q)
    requires Lookup(Entries(s), k) == MapGet(m2, k) && m2 - {k} == m - {k}
    ensures InOld(h, os, p, k) ==> Tables(h, os[h(k) % |os| := s], p, ns, m2)
    ensures !InOld(h, os, p, k) ==> Tables(h, os, p, ns[h(k) % |ns| := s], m2)
  {
    var os2 := if InOld(h, os, p, k) then os[h(k) % |os| := s] else os;
    var ns2 := if InOld(h, os, p, k) then ns else ns[h(k) % |ns| := s];
    forall q ensures Lookup(Entries(HomeSlot(h, os2, p, ns2, q)), q) == MapGet(m2, q) {
      assert Lookup(Entries(HomeSlot(h, os, p, ns, q)), q) == MapGet(m, q);
      if q != k { SameElsewhere(m, m2, k, q); }
    }
  }

  lemma SameElsewhere<K, V>(m: map<K, V>, m2: map<K, V>, k: K, q: K)
    requires m2 - {k} == m - {k} && q != k
    ensures MapGet(m2, q) == MapGet(m, q)
  {
    assert q in m <==> q in m - {k};
    assert q in m2 <==> q in m2 - {k};
  }

  /** Inserting an absent key at its home. */
  lemma InsertedTables<K(!new), V>(h: K -> nat, os: seq<Slot<K, V>>, p: nat, ns: seq<Slot<K, V>>,
                                   m: map<K, V>, k: K, v: V)
    requires Tables(h, os, p, ns, m) && k !in m
    ensures Lookup(Entries(HomeSlot(h, os, p, ns, k)), k) == None
    ensures InOld(h, os, p, k) ==> Tables(h, os[h(k) % |os| := Added(os[h(k) % |os|], k, v)], p, ns, m[k := v])
    ensures !InOld(h, os, p, k) ==> Tables(h, os, p, ns[h(k) % |ns| := Added(ns[h(k) % |ns|], k, v)], m[k := v])
  {
    hide Tables;
    TablesAt(h, os, p, ns, m, k);
    var s := HomeSlot(h, os, p, ns, k);
    HomeIsProper(h, os, p, ns, m, k);
    if InOld(h, os, p, k) { AddedIsProper(h, s, h(k) % |os|, |os|, k, v); }
    else { AddedIsProper(h, s, h(k) % |ns|, |ns|, k, v); }
    forall q ensures Lookup(Entries(Added(s, k, v)), q) ==
      if Lookup(Entries(s), q).Some? then Lookup(Entries(s), q) else if q == k then Some(v) else None
    {
      LookupAppended(Entries(s), k, v, q);
    }
    assert m[k := v] - {k} == m - {k};
    Replaced(h, os, p, ns, m, k, Added(s, k, v), m[k := v]);
  }

  lemma TablesAt<K(!new), V>(h: K -> nat, os: seq<Slot<K, V>>, p: nat, ns: seq<Slot<K, V>>, m: map<K, V>, k: K)
    requires Tables(h, os, p, ns, m)
    ensures |ns| > 0 && Lookup(Entries(HomeSlot(h, os, p, ns, k)), k) == MapGet(m, k)
  {
  }

  /** Removing the pair that was found at i in the home bucket of k. */
  lemma RemovedTables<K(!new), V>(h: K -> nat, os: seq<Slot<K, V>>, p: nat, ns: seq<Slot<K, V>>,
                                  m: map<K, V>, k: K, i: nat)
    requires Tables(h, os, p, ns, m)
    requires var es := Entries(HomeSlot(h, os, p, ns, k)); i < |es| && es[i].0 == k
    ensures k in m
    ensures InOld(h, os, p, k) ==> Tables(h, os[h(k) % |os| := Dropped(os[h(k) % |os|], i)], p, ns, m - {k})
    ensures !InOld(h, os, p, k) ==> Tables(h, os, p, ns[h(k) % |ns| := Dropped(ns[h(k) % |ns|], i)], m - {k})
  {
    hide Tables;
    TablesAt(h, os, p, ns, m, k);
    var s := HomeSlot(h, os, p, ns, k);
    HomeIsProper(h, os, p, ns, m, k);
    LookupFinds(Entries(s), i);
    if InOld(h, os, p, k) { DroppedIsProper(h, s, h(k) % |os|, |os|, i); }
    else { DroppedIsProper(h, s, h(k) % |ns|, |ns|, i); }
    assert (m - {k}) - {k} == m - {k};
    Replaced(h, os, p, ns, m, k, Dropped(s, i), m - {k});
  }

  // ---- Migrating one bucket ----

  /** The new table after both candidates of old bucket p were cleared and the first t pairs inserted. */
  function Spread<K, V>(h: K -> nat, es: seq<(K, V)>, t: nat, ns: seq<Slot<K, V>>, p: nat): (r: seq<Slot<K, V>>)
    requires t <= |es| && |ns| > 0 && p + |ns| / 2 < |ns|
    ensures |r| == |ns|
  {
    if t == 0 then ns[p := Null][p + |ns| / 2 := Null]
    else
      var r := Spread(h, es, t - 1, ns, p);
      var j := h(es[t - 1].0) % |ns|;
      r[j := Added(r[j], es[t - 1].0, es[t - 1].1)]
  }

  /** The two candidate buckets hold, between them, exactly the pairs inserted so far, each at its home. */
  lemma {:induction false} SpreadHolds<K(!new), V>(h: K -> nat, es: seq<(K, V)>, t: nat,
                                                    ns: seq<Slot<K, V>>, p: nat, cap: nat)
    requires t <= |es| && cap > 0 && |ns| == 2 * cap && p < cap
    requires DistinctKeys(es) && Belongs(h, es, p, cap)
    ensures forall j :: 0 <= j < |ns| && j != p && j != p + cap ==> Spread(h, es, t, ns, p)[j] == ns[j]
    ensures forall j :: j == p || j == p + cap ==> Proper(h, Spread(h, es, t, ns, p)[j], j, |ns|)
    ensures forall j, q :: j == p || j == p + cap ==>
      Lookup(Entries(Spread(h, es, t, ns, p)[j]), q) == if h(q) % |ns| == j then Lookup(es[..t], q) else None
  {
    hide Lookup, Proper, Added;
    if t == 0 {
      CandidatesCleared(h, ns, p, cap);
      assert es[..0] == [];
    } else {
      SpreadHolds(h, es, t - 1, ns, p, cap);
      var r := Spread(h, es, t - 1, ns, p);
      var (k, v) := es[t - 1];
      var i := h(k) % |ns|;
      ModHalf(h(k), cap, |ns|);
      assert i == p || i == p + cap;
      LookupMisses(es[..t - 1], k);
      AddedIsProper(h, r[i], i, |ns|, k, v);
      forall j, q | j == p || j == p + cap
        ensures Lookup(Entries(Spread(h, es, t, ns, p)[j]), q) == if h(q) % |ns| == j then Lookup(es[..t], q) else None
      {
        SpreadLookup(h, es, t, r, j, q);
      }
    }
  }

  lemma CandidatesCleared<K(!new), V>(h: K -> nat, ns: seq<Slot<K, V>>, p: nat, cap: nat)
    requires cap > 0 && |ns| == 2 * cap && p < cap
    ensures Proper(h, Slot<K, V>.Null, p, |ns|) && Proper(h, Slot<K, V>.Null, p + cap, |ns|)
    ensures Entries(Slot<K, V>.Null) == [] && forall q: K :: Lookup<K, V>([], q) == None
  {
  }

  /** What one more pair does to what is found. */
  lemma SpreadLookup<K(!new), V>(h: K -> nat, es: seq<(K, V)>, t: nat, r: seq<Slot<K, V>>, j: nat, q: K)
    requires 0 < t <= |es| && j < |r|
    requires Lookup(Entries(r[j]), q) == if h(q) % |r| == j then Lookup(es[..t - 1], q) else None
    ensures var (k, v) := es[t - 1];
      var i := h(k) % |r|;
      Lookup(Entries(r[i := Added(r[i], k, v)][j]), q) == if h(q) % |r| == j then Lookup(es[..t], q) else None
  {
    hide Lookup;
    var (k, v) := es[t - 1];
    assert es[..t] == es[..t - 1] + [(k, v)];
    LookupAppended(Entries(r[j]), k, v, q);
    LookupAppended(es[..t - 1], k, v, q);
  }

  /** Migrating the bucket at the progress mark keeps the map. */
  lemma MigratedTables<K(!new), V>(h: K -> nat, os: seq<Slot<K, V>>, p: nat, ns: seq<Slot<K, V>>, m: map<K, V>)
    requires Tables(h, os, p, ns, m) && p < |os|
    ensures var es := Entries(os[p]);
      Tables(h, os[p := Relocated], p + 1, Spread(h, es, |es|, ns, p), m)
  {
    var es := Entries(os[p]);
    var os2, ns2 := os[p := Relocated], Spread(h, es, |es|, ns, p);
    SpreadHolds(h, es, |es|, ns, p, |os|);
    assert es[..|es|] == es;
    forall j | 0 <= j < |ns| && Ready(j, |os|, p + 1) ensures Proper(h, ns2[j], j, |ns|) {
      IndexHalf(j, |os|, p);
      if j != p && j != p + |os| { assert Ready(j, |os|, p); }
    }
    forall k ensures Lookup(Entries(HomeSlot(h, os2, p + 1, ns2, k)), k) == MapGet(m, k) {
      assert Lookup(Entries(HomeSlot(h, os, p, ns, k)), k) == MapGet(m, k);
      ModHalf(h(k), |os|, |ns|);
    }
  }

  lemma IndexHalf(j: nat, cap: nat, p: nat)
    requires cap > 0 && j < 2 * cap && p < cap
    ensures j % cap == p <==> j == p || j == p + cap
  {
    if j < cap { ModUnique(j, cap, 0, j); } else { ModUnique(j, cap, 1, j - cap); }
  }

  /** When every bucket has been migrated the old table can go. */
  lemma AllMigrated<K(!new), V>(h: K -> nat, os: seq<Slot<K, V>>, ns: seq<Slot<K, V>>, m: map<K, V>)
    requires Tables(h, os, |os|, ns, m)
    ensures Tables(h, [], 0, ns, m)
  {
    forall k ensures Lookup(Entries(HomeSlot(h, [], 0, ns, k)), k) == MapGet(m, k) {
      assert Lookup(Entries(HomeSlot(h, os, |os|, ns, k)), k) == MapGet(m, k);
    }
  }

  /** A full table becomes the old one of a table twice its size, whatever that memory holds. */
  lemma GrownTables<K(!new), V>(h: K -> nat, ns: seq<Slot<K, V>>, m: map<K, V>, larger: seq<Slot<K, V>>)
    requires Tables(h, [], 0, ns, m) && |larger| == 2 * |ns|
    ensures Tables(h, ns, 0, larger, m)
  {
    forall k ensures Lookup(Entries(HomeSlot(h, ns, 0, larger, k)), k) == MapGet(m, k) {
      assert Lookup(Entries(HomeSlot(h, [], 0, ns, k)), k) == MapGet(m, k);
    }
  }

  // ---- The map object ----

  /** Rehashed buckets per operation. */
  const STEP := 8
  const INITIAL_CAPACITY := 64

  /** Migration stays ahead of growth: what is left to migrate is covered, eight buckets an
      insert, by the inserts still to come before the next doubling. */
  predicate InTime(oldCapacity: nat, progress: nat, newCapacity: nat, n: nat) {
    n <= 2 * newCapacity && STEP * (2 * newCapacity - n) >= oldCapacity - progress
  }

  class HashMap<K(==, !new), V> {
    /** The hash function followed by the mixing of `shrink_hash`, before the modulus. */
    const h: K -> nat

    var bucketsOld: array?<Slot<K, V>>
    var oldCapacity: nat
    var oldProgress: nat
    var bucketsNew: array<Slot<K, V>>
    var newCapacity: nat
    var count: nat

    /** The abstract map. */
    ghost var contents: map<K, V>
    ghost var Repr: set<object>

    ghost function OldSlots(): seq<Slot<K, V>>
      reads this`bucketsOld, bucketsOld
    {
      if bucketsOld == null then [] else bucketsOld[..]
    }

    /** The tables hold the abstract map, whatever stage a migration is at. */
    ghost predicate Stored()
      reads this`bucketsOld, this`oldCapacity, this`oldProgress, this`bucketsNew, this`newCapacity
      reads this`contents, this`Repr
      reads bucketsOld, bucketsNew
    {
      && Repr == {this, bucketsNew} + (if bucketsOld == null then {} else {bucketsOld})
      && bucketsOld != bucketsNew
      && oldCapacity == |OldSlots()| && newCapacity == bucketsNew.Length
      && (bucketsOld == null ==> oldProgress == 0)
      && (bucketsOld != null ==> oldCapacity > 0)
      && Tables(h, OldSlots(), oldProgress, bucketsNew[..], contents)
    }

    /** Eight more buckets of an old table of this capacity have been migrated, and it is gone when none is left. */
    ghost predicate Advanced(capacity: nat, progress: nat)
      reads this`bucketsOld, this`oldCapacity, this`oldProgress
    {
      if capacity <= progress + 8 then bucketsOld == null
      else bucketsOld != null && oldCapacity == capacity && oldProgress == progress + 8
    }

    ghost predicate Valid()
      reads this, Repr
      ensures Valid() ==> this in Repr
    {
      && this in Repr && bucketsNew in Repr && (bucketsOld != null ==> bucketsOld in Repr)
      && Stored() && newCapacity > 0 && oldProgress <= oldCapacity
      && (bucketsOld == null ==> oldCapacity == 0)
      && (bucketsOld != null ==> oldProgress < oldCapacity)
      && count == |contents|
      && InTime(oldCapacity, oldProgress, newCapacity, count)
    }

    constructor (h: K -> nat)
      ensures Valid() && fresh(Repr) && contents == map[] && this.h == h
    {
      this.h := h;
      bucketsOld, oldCapacity, oldProgress := null, 0, 0;
      newCapacity, count := INITIAL_CAPACITY, 0;
      bucketsNew := new Slot<K, V>[INITIAL_CAPACITY](_ => Null);
      contents := map[];
      new;
      Repr := {this, bucketsNew};
    }

    /** `insert_element_internal`: the pair joins the bucket; the key must not be there yet. */
    method InsertElement(table: array<Slot<K, V>>, index: nat, key: K, val: V)
      requires index < table.Length && !table[index].Relocated?
      requires Lookup(Entries(table[index]), key) == None
      modifies table
      ensures table[..] == old(table[..])[index := Added(old(table[index]), key, val)]
    {
      if table[index].Null? {
        table[index] := Bucket([(key, val)]);
        assert [] + [(key, val)] == [(key, val)];
      } else {
        table[index] := Bucket(table[index].entries + [(key, val)]);
      }
    }

    /** `get_element_internal` */
    method GetElement(table: array<Slot<K, V>>, index: nat, key: K) returns (r: Option<V>)
      requires index < table.Length && !table[index].Relocated?
      ensures r == Lookup(Entries(table[index]), key)
    {
      if table[index].Null? { return None; }
      var es := table[index].entries;
      for i := 0 to |es|
        invariant Lookup(es[i..], key) == Lookup(es, key)
      {
        assert es[i..][1..] == es[i + 1..];
        if es[i].0 == key { return Some(es[i].1); }
      }
      return None;
    }

    /** `remove_element_internal`: at the first pair with this key, if there is one. */
    method RemoveElement(table: array<Slot<K, V>>, index: nat, key: K) returns (found: bool, ghost at: nat)
      requires index < table.Length && !table[index].Relocated?
      modifies table
      ensures found <==> Lookup(Entries(old(table[index])), key).Some?
      ensures !found ==> table[..] == old(table[..])
      ensures found ==> at < |Entries(old(table[index]))| && Entries(old(table[index]))[at].0 == key
      ensures found ==> table[..] == old(table[..])[index := Dropped(old(table[index]), at)]
    {
      at := 0;
      if table[index].Null? { return false, 0; }
      var es := table[index].entries;
      for i := 0 to |es|
        invariant table[..] == old(table[..])
        invariant Lookup(es[i..], key) == Lookup(es, key)
      {
        assert es[i..][1..] == es[i + 1..];
        if es[i].0 == key {
          es := es[i := es[|es| - 1]];
          es := es[..|es| - 1];
          table[index] := if |es| == 0 then Null else Bucket(es);
          return true, i;
        }
      }
      return false, 0;
    }

    /** `rehash_bucket`: the pairs of one old bucket move to their buckets in the new table. */
    method RehashBucket(oldIndex: nat)
      requires Stored() && bucketsOld != null && oldIndex == oldProgress < oldCapacity
      modifies bucketsOld, bucketsNew
      ensures bucketsOld[..] == old(bucketsOld[..])[oldIndex := Relocated]
      ensures var es := Entries(old(bucketsOld[oldIndex]));
        bucketsNew[..] == Spread(h, es, |es|, old(bucketsNew[..]), oldIndex)
    {
      ghost var ns0 := bucketsNew[..];
      assert Proper(h, OldSlots()[oldIndex], oldIndex, oldCapacity);
      var newIndex0 := oldIndex;
      var newIndex1 := oldIndex + newCapacity / 2;
      bucketsNew[newIndex0] := Null;
      bucketsNew[newIndex1] := Null;
      var oldBucket := bucketsOld[oldIndex];
      bucketsOld[oldIndex] := Relocated;
      if oldBucket.Null? { return; }
      var es := oldBucket.entries;
      for i := 0 to |es|
        invariant bucketsNew[..] == Spread(h, es, i, ns0, oldIndex)
        invariant bucketsOld[..] == old(bucketsOld[..])[oldIndex := Relocated]
      {
        var (key, val) := es[i];
        var index := h(key) % newCapacity;
        SpreadRoom(h, es, i, ns0, oldIndex, oldCapacity);
        InsertElement(bucketsNew, index, key, val);
      }
    }

    /** `rehash_some`: up to eight buckets; the old table goes when none is left. */
    method RehashSome()
      requires Stored() && this in Repr && oldProgress <= oldCapacity
      modifies this`bucketsOld, this`oldCapacity, this`oldProgress, this`Repr, bucketsOld, bucketsNew
      ensures Stored() && Repr <= old(Repr) && this in Repr && bucketsNew in Repr
      ensures bucketsOld != null ==> bucketsOld in Repr
      ensures oldProgress <= oldCapacity && (bucketsOld == null ==> oldCapacity == 0)
      ensures bucketsOld == null || (bucketsOld == old(bucketsOld) && oldProgress < oldCapacity)
      ensures bucketsOld == null <==> old(oldCapacity <= oldProgress + STEP)
      ensures bucketsOld != null ==> oldProgress == old(oldProgress) + STEP && oldCapacity == old(oldCapacity)
      ensures Advanced(old(oldCapacity), old(oldProgress))
    {
      hide Tables, Spread;
      if bucketsOld == null { return; }
      var i := 0;
      while i < STEP && oldProgress < oldCapacity
        invariant 0 <= i <= STEP
        invariant Stored() && bucketsOld == old(bucketsOld) && Repr == old(Repr) && oldCapacity == old(oldCapacity)
        invariant oldProgress == old(oldProgress) + i <= oldCapacity
      {
        MigratedTables(h, OldSlots(), oldProgress, bucketsNew[..], contents);
        RehashBucket(oldProgress);
        oldProgress := oldProgress + 1;
        i := i + 1;
      }
      if oldProgress >= oldCapacity {
        AllMigrated(h, OldSlots(), bucketsNew[..], contents);
        bucketsOld := null;
        oldCapacity := 0;
        oldProgress := 0;
        Repr := {this, bucketsNew};
      }
    }

    /** `maybe_grow`: past two pairs a bucket, the table becomes the old one of a table twice its size. */
    method MaybeGrow()
      requires Stored() && this in Repr && (bucketsOld != null ==> oldProgress < oldCapacity)
      requires count <= 2 * newCapacity ==> InTime(oldCapacity, oldProgress, newCapacity, count)
      requires count > 2 * newCapacity ==> count == 2 * newCapacity + 1 && bucketsOld == null
      requires count == |contents|
      modifies this`bucketsOld, this`oldCapacity, this`oldProgress, this`bucketsNew, this`newCapacity, this`Repr,
        bucketsOld, bucketsNew
      ensures Valid() && fresh(Repr - old(Repr))
      ensures old(newCapacity) > 0 && count <= 2 * old(newCapacity) ==>
        && bucketsNew == old(bucketsNew) && newCapacity == old(newCapacity)
        && bucketsOld == old(bucketsOld) && oldCapacity == old(oldCapacity) && oldProgress == old(oldProgress)
      ensures count > 2 * old(newCapacity) ==>
        && newCapacity == 2 * old(newCapacity)
        && (if old(newCapacity) <= STEP then bucketsOld == null
            else bucketsOld == old(bucketsNew) && oldCapacity == old(newCapacity) && oldProgress == STEP)
    {
      hide Tables;
      if newCapacity > 0 && count <= 2 * newCapacity { return; }
      // the program's assertion that migration has finished
      assert bucketsOld == null;
      bucketsOld := bucketsNew;
      oldCapacity := newCapacity;
      oldProgress := 0;
      newCapacity := oldCapacity * 2;
      var newBuckets := new Slot<K, V>[newCapacity];
      GrownTables(h, bucketsOld[..], contents, newBuckets[..]);
      bucketsNew := newBuckets;
      Repr := {this, bucketsNew, bucketsOld};
      RehashSome();
    }

    /** The part of `db_hashmap_insert` that picks the table. */
    method InsertHome(key: K, val: V)
      requires Stored() && key !in contents && newCapacity > 0
      modifies this`contents, bucketsOld, bucketsNew
      ensures Stored() && contents == old(contents)[key := val]
    {
      hide Tables, HomeSlot, Entries, Added;
      ghost var os, ns := OldSlots(), bucketsNew[..];
      InsertedTables(h, os, oldProgress, ns, contents, key, val);
      HomeIsProper(h, os, oldProgress, ns, contents, key);
      HomeUnfolds(h, os, oldProgress, ns, key);
      contents := contents[key := val];
      var inserted := false;
      if oldCapacity > 0 {
        var oldIndex := h(key) % oldCapacity;
        if oldIndex >= oldProgress {
          InsertElement(bucketsOld, oldIndex, key, val);
          inserted := true;
        }
      }
      if !inserted {
        InsertElement(bucketsNew, h(key) % newCapacity, key, val);
      }
    }

    /** `db_hashmap_insert`, of a key that is not there yet. */
    method Insert(key: K, val: V)
      requires Valid() && key !in contents
      modifies Repr
      ensures Valid() && fresh(Repr - old(Repr))
      ensures contents == old(contents)[key := val]
      ensures newCapacity == if |contents| <= 2 * old(newCapacity) then old(newCapacity) else 2 * old(newCapacity)
      ensures |contents| <= 2 * old(newCapacity) ==> Advanced(old(oldCapacity), old(oldProgress))
      ensures |contents| > 2 * old(newCapacity) ==> Advanced(old(newCapacity), 0)
    {
      hide Stored;
      RehashSome();
      InsertHome(key, val);
      count := count + 1;
      MaybeGrow();
    }

    /** `db_hashmap_get` */
    method Get(key: K) returns (r: Option<V>)
      requires Valid()
      ensures r == MapGet(contents, key)
    {
      hide Tables;
      TablesAt(h, OldSlots(), oldProgress, bucketsNew[..], contents, key);
      HomeIsProper(h, OldSlots(), oldProgress, bucketsNew[..], contents, key);
      if oldCapacity > 0 {
        var oldIndex := h(key) % oldCapacity;
        if oldIndex >= oldProgress {
          r := GetElement(bucketsOld, oldIndex, key);
          return;
        }
      }
      r := GetElement(bucketsNew, h(key) % newCapacity, key);
    }

    /** The part of `db_hashmap_remove` that picks the table. */
    method RemoveHome(key: K) returns (found: bool)
      requires Stored() && newCapacity > 0
      modifies this`contents, bucketsOld, bucketsNew
      ensures Stored() && contents == old(contents) - {key}
      ensures found <==> key in old(contents)
    {
      hide Tables, HomeSlot, Dropped;
      ghost var os, ns, at := OldSlots(), bucketsNew[..], 0;
      TablesAt(h, os, oldProgress, ns, contents, key);
      HomeIsProper(h, os, oldProgress, ns, contents, key);
      HomeUnfolds(h, os, oldProgress, ns, key);
      if oldCapacity > 0 && h(key) % oldCapacity >= oldProgress {
        found, at := RemoveElement(bucketsOld, h(key) % oldCapacity, key);
        if found { RemovedTables(h, os, oldProgress, ns, contents, key, at); }
      } else {
        found, at := RemoveElement(bucketsNew, h(key) % newCapacity, key);
        if found { RemovedTables(h, os, oldProgress, ns, contents, key, at); }
      }
      if !found { assert contents - {key} == contents; }
      contents := contents - {key};
    }

    /** `db_hashmap_remove`; an absent key is no error. */
    method Remove(key: K)
      requires Valid()
      modifies Repr
      ensures Valid() && fresh(Repr - old(Repr))
      ensures contents == old(contents) - {key}
      ensures newCapacity == old(newCapacity) && Advanced(old(oldCapacity), old(oldProgress))
    {
      hide Stored;
      RehashSome();
      Cardinality(contents, key);
      var found := RemoveHome(key);
      if found { count := count - 1; }
    }
  }

  lemma Cardinality<K, V>(m: map<K, V>, key: K)
    ensures key in m ==> |m| == |m - {key}| + 1
    ensures key !in m ==> m - {key} == m
  {
    if key in m { assert m.Keys == (m - {key}).Keys + {key}; }
  }

  lemma HomeUnfolds<K(!new), V>(h: K -> nat, os: seq<Slot<K, V>>, p: nat, ns: seq<Slot<K, V>>, k: K)
    requires |ns| > 0
    ensures InOld(h, os, p, k) ==> HomeSlot(h, os, p, ns, k) == os[h(k) % |os|]
    ensures !InOld(h, os, p, k) ==> HomeSlot(h, os, p, ns, k) == ns[h(k) % |ns|]
  {
  }

  /** In mid-migration the next pair's bucket is searchable and does not hold its key. */
  lemma SpreadRoom<K(!new), V>(h: K -> nat, es: seq<(K, V)>, t: nat, ns: seq<Slot<K, V>>, p: nat, cap: nat)
    requires t < |es| && cap > 0 && |ns| == 2 * cap && p < cap
    requires DistinctKeys(es) && Belongs(h, es, p, cap)
    ensures var s := Spread(h, es, t, ns, p)[h(es[t].0) % |ns|];
      !s.Relocated? && Lookup(Entries(s), es[t].0) == None
  {
    SpreadHolds(h, es, t, ns, p, cap);
    ModHalf(h(es[t].0), cap, |ns|);
    LookupMisses(es[..t], es[t].0);
  }
}
