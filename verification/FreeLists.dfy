/** The intrusive doubly linked free lists, read off a view: list k starts at
    heads[k] and holds the free blocks of order k. */
module FreeLists {
  import opened HeapImage
  import opened Lists

  /** The pointer to the i-th member; null past either end. */
  function PtrAt(l: seq<nat>, i: int): nat {
    if 0 <= i < |l| then UnitAt(l[i]) else 0
  }

  /** Both links of the i-th member of l. */
  predicate Links(v: View, l: seq<nat>, i: nat)
    requires i < |l| && l[i] < |v.next| == |v.prev|
  {
    v.next[l[i]] == PtrAt(l, i + 1) && v.prev[l[i]] == PtrAt(l, i - 1)
  }

  /** Every member of l is a unit tagged as a free block of order k. */
  ghost predicate Tagged(v: View, l: seq<nat>, k: nat)
    requires |v.order| == |v.free| == |v.next| == |v.prev|
  {
    forall i :: 0 <= i < |l| ==> l[i] < |v.next| && v.order[l[i]] == k && v.free[l[i]]
  }

  /** l is list k: its head, and every member's tag and links. */
  ghost predicate IsList(v: View, l: seq<nat>, k: nat)
    requires k < |v.heads| && |v.order| == |v.free| == |v.next| == |v.prev|
  {
    && v.heads[k] == PtrAt(l, 0)
    && Distinct(l)
    && Tagged(v, l, k)
    && (forall i: nat {:trigger Links(v, l, i)} :: i < |l| ==> Links(v, l, i))
  }

  ghost predicate Linked(v: View, lists: seq<seq<nat>>) {
    && |v.heads| == BUCKETS == |lists|
    && |v.order| == |v.free| == |v.next| == |v.prev|
    && forall k :: 0 <= k < BUCKETS ==> IsList(v, lists[k], k)
  }

  function Without(l: seq<nat>, i: nat): seq<nat>
    requires i < |l|
  {
    l[..i] + l[i + 1..]
  }

  predicate LinkInside(v: View, ptr: nat) {
    ptr != 0 ==> ptr >= HEADER - 1 && PosOf(ptr) < |v.next|
  }

  /** The view after `extract_bucket`. */
  function Extracted(v: View, b: nat): View
    requires b < |v.next| == |v.prev| == |v.order| && v.order[b] < |v.heads|
    requires LinkInside(v, v.prev[b]) && LinkInside(v, v.next[b])
  {
    var k, p, n := v.order[b], v.prev[b], v.next[b];
    var next := if p != 0 then v.next[PosOf(p) := n] else v.next;
    var prev := if n != 0 then v.prev[PosOf(n) := p] else v.prev;
    var heads := if v.heads[k] == UnitAt(b) then v.heads[k := n] else v.heads;
    v.(next := next[b := 0], prev := prev[b := 0], heads := heads)
  }

  /** The view after `insert_bucket`. */
  function Inserted(v: View, b: nat): View
    requires b < |v.next| == |v.prev| == |v.order| && v.order[b] < |v.heads|
    requires LinkInside(v, v.heads[v.order[b]])
  {
    var k := v.order[b];
    var n := v.heads[k];
    var prev := v.prev[b := 0];
    v.(next := v.next[b := n],
       prev := if n != 0 then prev[PosOf(n) := UnitAt(b)] else prev,
       heads := v.heads[k := UnitAt(b)])
  }

  /** Which links and which head `extract_bucket` writes when b is the i-th member of list k. */
  lemma ExtractedForm(v: View, l: seq<nat>, k: nat, i: nat)
    requires k < |v.heads| && |v.order| == |v.free| == |v.next| == |v.prev|
    requires IsList(v, l, k) && i < |l|
    ensures LinkInside(v, v.prev[l[i]]) && LinkInside(v, v.next[l[i]])
    ensures v.heads[k] == UnitAt(l[i]) <==> i == 0
    ensures Extracted(v, l[i]) == v.(
      next := (if i > 0 then v.next[l[i - 1] := PtrAt(l, i + 1)] else v.next)[l[i] := 0],
      prev := (if i + 1 < |l| then v.prev[l[i + 1] := PtrAt(l, i - 1)] else v.prev)[l[i] := 0],
      heads := if i == 0 then v.heads[k := PtrAt(l, 1)] else v.heads)
  {
    assert Links(v, l, i);
    if i > 0 { assert Links(v, l, i - 1); }
    if i + 1 < |l| { assert Links(v, l, i + 1); }
    assert Links(v, l, 0);
  }

  /** The links of the member that sits at x once the i-th has gone. */
  lemma ExtractedLinks(v: View, l: seq<nat>, k: nat, i: nat, x: nat)
    requires k < |v.heads| && |v.order| == |v.free| == |v.next| == |v.prev|
    requires IsList(v, l, k) && i < |l| && x + 1 < |l|
    requires LinkInside(v, v.prev[l[i]]) && LinkInside(v, v.next[l[i]])
    ensures Without(l, i)[x] < |v.next|
    ensures Links(Extracted(v, l[i]), Without(l, i), x)
  {
    ExtractedForm(v, l, k, i);
    var m := Without(l, i);
    var y := if x < i then x else x + 1;
    assert m[x] == l[y] && l[y] != l[i];
    assert Links(v, l, y);
    assert PtrAt(m, x + 1) == if y + 1 == i then PtrAt(l, i + 1) else PtrAt(l, y + 1);
    assert PtrAt(m, x - 1) == if y - 1 == i then PtrAt(l, i - 1) else PtrAt(l, y - 1);
  }

  lemma ExtractedList(v: View, l: seq<nat>, k: nat, i: nat)
    requires k < |v.heads| && |v.order| == |v.free| == |v.next| == |v.prev|
    requires IsList(v, l, k) && i < |l|
    requires LinkInside(v, v.prev[l[i]]) && LinkInside(v, v.next[l[i]])
    ensures IsList(Extracted(v, l[i]), Without(l, i), k)
  {
    ExtractedForm(v, l, k, i);
    var w := Extracted(v, l[i]);
    var m := Without(l, i);
    assert forall x :: 0 <= x < |m| ==> m[x] == l[if x < i then x else x + 1];
    forall x: nat | x < |m| ensures Links(w, m, x) {
      ExtractedLinks(v, l, k, i, x);
    }
  }

  lemma ExtractedOthers(v: View, l: seq<nat>, k: nat, i: nat, o: seq<nat>, j: nat)
    requires k < |v.heads| && |v.order| == |v.free| == |v.next| == |v.prev|
    requires IsList(v, l, k) && i < |l| && j < |v.heads| && j != k && IsList(v, o, j)
    requires LinkInside(v, v.prev[l[i]]) && LinkInside(v, v.next[l[i]])
    ensures IsList(Extracted(v, l[i]), o, j)
  {
    ExtractedForm(v, l, k, i);
    var w := Extracted(v, l[i]);
    assert Links(v, l, i);
    if i > 0 { assert Links(v, l, i - 1); }
    if i + 1 < |l| { assert Links(v, l, i + 1); }
    forall x: nat | x < |o| ensures Links(w, o, x) {
      assert Links(v, o, x);
    }
  }

  /** Taking out the i-th member of list k leaves well-formed lists without it. */
  lemma ExtractKeepsLists(v: View, lists: seq<seq<nat>>, k: nat, i: nat)
    requires Linked(v, lists) && k < BUCKETS && i < |lists[k]|
    ensures var b := lists[k][i];
      && LinkInside(v, v.prev[b]) && LinkInside(v, v.next[b])
      && (v.heads[k] == UnitAt(b) <==> i == 0)
      && Linked(Extracted(v, b), lists[k := Without(lists[k], i)])
  {
    var l := lists[k];
    ExtractedForm(v, l, k, i);
    ExtractedList(v, l, k, i);
    forall j | 0 <= j < BUCKETS && j != k ensures IsList(Extracted(v, l[i]), lists[j], j) {
      ExtractedOthers(v, l, k, i, lists[j], j);
    }
  }

  lemma InsertedList(v: View, l: seq<nat>, k: nat, b: nat)
    requires k < |v.heads| && |v.order| == |v.free| == |v.next| == |v.prev|
    requires IsList(v, l, k) && b < |v.next| && v.order[b] == k && v.free[b] && b !in l
    requires LinkInside(v, v.heads[k])
    ensures IsList(Inserted(v, b), [b] + l, k)
  {
    var w := Inserted(v, b);
    var m := [b] + l;
    if |l| > 0 { assert Links(v, l, 0); }
    forall x: nat | x < |m| ensures Links(w, m, x) {
      if x > 0 {
        assert m[x] == l[x - 1];
        assert Links(v, l, x - 1);
      }
    }
  }

  lemma InsertedOthers(v: View, l: seq<nat>, k: nat, b: nat, o: seq<nat>, j: nat)
    requires k < |v.heads| && |v.order| == |v.free| == |v.next| == |v.prev|
    requires IsList(v, l, k) && b < |v.next| && v.order[b] == k
    requires j < |v.heads| && j != k && IsList(v, o, j)
    requires LinkInside(v, v.heads[k])
    ensures IsList(Inserted(v, b), o, j)
  {
    var w := Inserted(v, b);
    if |l| > 0 { assert Links(v, l, 0); }
    forall x: nat | x < |o| ensures Links(w, o, x) {
      assert Links(v, o, x);
    }
  }

  /** Putting a free block that is on no list in front of the list of its order. */
  lemma InsertKeepsLists(v: View, lists: seq<seq<nat>>, b: nat)
    requires Linked(v, lists) && b < |v.next| && v.order[b] < BUCKETS && v.free[b]
    requires b !in lists[v.order[b]]
    ensures LinkInside(v, v.heads[v.order[b]])
    ensures Linked(Inserted(v, b), lists[v.order[b] := [b] + lists[v.order[b]]])
  {
    var k := v.order[b];
    assert IsList(v, lists[k], k);
    if |lists[k]| > 0 { assert Links(v, lists[k], 0); }
    InsertedList(v, lists[k], k, b);
    forall j | 0 <= j < BUCKETS && j != k ensures IsList(Inserted(v, b), lists[j], j) {
      InsertedOthers(v, lists[k], k, b, lists[j], j);
    }
  }

  ghost predicate OnNoList(lists: seq<seq<nat>>, b: nat) {
    forall k :: 0 <= k < |lists| ==> b !in lists[k]
  }

  /** Writing the tag of a block that is on no list leaves the lists alone. */
  lemma RetagKeepsLists(v: View, lists: seq<seq<nat>>, b: nat, order: nat, free: bool)
    requires Linked(v, lists) && b < |v.next| && OnNoList(lists, b)
    ensures Linked(v.(order := v.order[b := order], free := v.free[b := free]), lists)
  {
    var w := v.(order := v.order[b := order], free := v.free[b := free]);
    forall j | 0 <= j < BUCKETS ensures IsList(w, lists[j], j) {
      assert IsList(v, lists[j], j);
      forall x: nat | x < |lists[j]| ensures Links(w, lists[j], x) {
        assert Links(v, lists[j], x);
      }
    }
  }

  /** Adding units, or rewriting the header's other fields, leaves the lists alone. */
  lemma MoreUnitsKeepLists(v: View, w: View, lists: seq<seq<nat>>)
    requires Linked(v, lists) && w.heads == v.heads && |w.next| >= |v.next|
    requires |w.order| == |w.free| == |w.next| == |w.prev|
    requires forall p :: 0 <= p < |v.next| ==>
      w.order[p] == v.order[p] && w.free[p] == v.free[p] && w.next[p] == v.next[p] && w.prev[p] == v.prev[p]
    ensures Linked(w, lists)
  {
    forall j | 0 <= j < BUCKETS ensures IsList(w, lists[j], j) {
      assert IsList(v, lists[j], j);
      forall x: nat | x < |lists[j]| ensures Links(w, lists[j], x) {
        assert Links(v, lists[j], x);
      }
    }
  }
}
