/** Slots of a hash table and the chains of key-value pairs in them. */
module Chains {

  datatype Option<+T> = None | Some(value: T)

  /** A slot holds nothing, the mark of a migrated bucket, or a bucket of pairs. */
  datatype Slot<K, V> = Null | Relocated | Bucket(entries: seq<(K, V)>)

  function Entries<K, V>(s: Slot<K, V>): seq<(K, V)> {
    if s.Bucket? then s.entries else []
  }

  function Lookup<K(==), V>(es: seq<(K, V)>, k: K): Option<V> {
    if |es| == 0 then None
    else if es[0].0 == k then Some(es[0].1)
    else Lookup(es[1..], k)
  }

  ghost predicate DistinctKeys<K, V>(es: seq<(K, V)>) {
    forall i, j :: 0 <= i < j < |es| ==> es[i].0 != es[j].0
  }

  /** Every key in es belongs at this index of a table of this capacity. */
  ghost predicate Belongs<K, V>(h: K -> nat, es: seq<(K, V)>, index: nat, capacity: nat)
    requires capacity > 0
  {
    forall i :: 0 <= i < |es| ==> h(es[i].0) % capacity == index
  }

  /** A slot that may be searched: no mark, no garbage, no key twice, every key at home. */
  ghost predicate Proper<K, V>(h: K -> nat, s: Slot<K, V>, index: nat, capacity: nat)
    requires capacity > 0
  {
    s.Null? || (s.Bucket? && |s.entries| > 0 && DistinctKeys(s.entries) && Belongs(h, s.entries, index, capacity))
  }

  /** The slot after `insert_element_internal`. */
  function Added<K, V>(s: Slot<K, V>, k: K, v: V): Slot<K, V> {
    Bucket(Entries(s) + [(k, v)])
  }

  /** The slot after `remove_element_internal` has found its key at i: the last pair takes the gap. */
  function Dropped<K, V>(s: Slot<K, V>, i: nat): Slot<K, V>
    requires i < |Entries(s)|
  {
    var es := Entries(s);
    var n := |es| - 1;
    if n == 0 then Null else Bucket(es[i := es[n]][..n])
  }

  lemma {:induction false} LookupFinds<K, V>(es: seq<(K, V)>, i: nat)
    requires i < |es| && DistinctKeys(es)
    ensures Lookup(es, es[i].0) == Some(es[i].1)
  {
    if i > 0 { LookupFinds(es[1..], i - 1); }
  }

  lemma {:induction false} LookupMisses<K, V>(es: seq<(K, V)>, k: K)
    requires forall i :: 0 <= i < |es| ==> es[i].0 != k
    ensures Lookup(es, k) == None
  {
    if |es| > 0 { LookupMisses(es[1..], k); }
  }

  lemma {:induction false} LookupIndex<K, V>(es: seq<(K, V)>, k: K) returns (i: nat)
    requires Lookup(es, k).Some?
    ensures i < |es| && es[i] == (k, Lookup(es, k).value)
  {
    if es[0].0 == k { i := 0; } else {
      i := LookupIndex(es[1..], k);
      i := i + 1;
    }
  }

  lemma {:induction false} LookupAppended<K, V>(es: seq<(K, V)>, k: K, v: V, q: K)
    ensures Lookup(es + [(k, v)], q) ==
      if Lookup(es, q).Some? then Lookup(es, q) else if q == k then Some(v) else None
  {
    if |es| > 0 {
      assert (es + [(k, v)])[1..] == es[1..] + [(k, v)];
      LookupAppended(es[1..], k, v, q);
    }
  }

  /** A slot stays proper when a pair at home there, with a new key, is added. */
  lemma AddedIsProper<K, V>(h: K -> nat, s: Slot<K, V>, index: nat, capacity: nat, k: K, v: V)
    requires capacity > 0 && Proper(h, s, index, capacity)
    requires h(k) % capacity == index && Lookup(Entries(s), k) == None
    ensures Proper(h, Added(s, k, v), index, capacity)
  {
    forall i | 0 <= i < |Entries(s)| ensures Entries(s)[i].0 != k {
      if Entries(s)[i].0 == k { LookupFinds(Entries(s), i); }
    }
  }

  /** Dropping the pair at i forgets its key and no other. */
  lemma DroppedIsProper<K, V>(h: K -> nat, s: Slot<K, V>, index: nat, capacity: nat, i: nat)
    requires capacity > 0 && Proper(h, s, index, capacity) && i < |Entries(s)|
    ensures Proper(h, Dropped(s, i), index, capacity)
    ensures forall q ::
      Lookup(Entries(Dropped(s, i)), q) == if q == Entries(s)[i].0 then None else Lookup(Entries(s), q)
  {
    var es, n := Entries(s), |Entries(s)| - 1;
    var ds := Entries(Dropped(s, i));
    assert forall j :: 0 <= j < |ds| ==> ds[j] == es[if j == i then n else j];
    forall q ensures Lookup(ds, q) == if q == es[i].0 then None else Lookup(es, q) {
      if q == es[i].0 {
        LookupMisses(ds, q);
      } else if Lookup(es, q).Some? {
        var j := LookupIndex(es, q);
        LookupFinds(ds, if j == n then i else j);
      } else {
        forall j | 0 <= j < |ds| ensures ds[j].0 != q {
          LookupFinds(es, if j == i then n else j);
        }
        LookupMisses(ds, q);
      }
    }
  }

  /** Halving the modulus only forgets the top half of a remainder. */
  lemma ModHalf(x: nat, m: nat, m2: nat)
    requires m > 0 && m2 == 2 * m
    ensures (x % m2) % m == x % m
    ensures x % m2 == x % m || x % m2 == x % m + m
  {
    var q, r := Divided(x, m2);
    Regroup(q, m, m2);
    if r < m {
      ModUnique(x, m, 2 * q, r);
      ModUnique(r, m, 0, r);
    } else {
      ModUnique(x, m, 2 * q + 1, r - m);
      ModUnique(r, m, 1, r - m);
    }
  }

  lemma Divided(x: nat, d: nat) returns (q: nat, r: nat)
    requires d > 0
    ensures x == q * d + r && r == x % d && r < d
  {
    q, r := x / d, x % d;
  }

  lemma Regroup(q: nat, m: nat, m2: nat)
    requires m2 == 2 * m
    ensures q * m2 == (2 * q) * m
    ensures (2 * q + 1) * m == (2 * q) * m + m
  {
  }

  lemma ModUnique(x: nat, m: nat, q: nat, r: nat)
    requires m > 0 && r < m && x == q * m + r
    ensures x % m == r
  {
    var d := x / m - q;
    assert m * d == r - x % m;
    OnlyZero(m, d);
  }

  lemma OnlyZero(m: int, d: int)
    requires -m < m * d < m
    ensures d == 0
  {
  }
}
