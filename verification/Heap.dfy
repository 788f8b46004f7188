/** The allocator's invariant over one image, and the step lemmas behind its methods. */
module Heap {
  import opened Bytes
  import opened Dyadic
  import opened Tiling
  import opened HeapImage
  import opened FreeLists
  import opened Lists
  import opened Sweep

  /** Units in an arena after `count` grows. */
  function Arena(count: nat): nat {
    if count == 0 then 0 else Pow2(count - 1)
  }

  /** The largest arena: one unit short of what `1 << order` can address as an int. */
  const MAX_UNITS := 0x4000_0000

  lemma ArenaSteps(count: nat)
    ensures Arena(count) == if count == 0 then 0 else Pow2(count - 1)
    ensures Arena(count + 1) == Arena(count) + if count == 0 then 1 else Pow2(count - 1)
  {
  }

  lemma LargestArena()
    ensures Pow2(30) == MAX_UNITS
  {
    assert Pow2(8) == 0x100;
    assert Pow2(16) == 0x1_0000;
    assert Pow2(24) == 0x100_0000;
  }

  lemma ArenaBound(count: nat)
    requires count <= MAX_ORDER
    ensures Arena(count) <= MAX_UNITS
  {
    LargestArena();
    if count > 0 { Pow2Monotone(count - 1, 30); }
  }

  /** Each block's tag byte says what the tiling says. */
  ghost predicate TagsMatch(v: View, t: Tiles) {
    && |v.order| == |v.free|
    && forall b :: b in t ==> b < |v.order| && v.order[b] == t[b].order && v.free[b] == t[b].free
  }

  /** List k holds exactly the free blocks of order k, apart from those in out. */
  ghost predicate ListsHold(t: Tiles, lists: seq<seq<nat>>, out: set<nat>) {
    && |lists| == BUCKETS
    && (forall k, b :: 0 <= k < BUCKETS && b in lists[k] ==> b in t && t[b] == Tile(k, true) && b !in out)
    && (forall b :: b in t && t[b].free && b !in out ==> t[b].order < BUCKETS && b in lists[t[b].order])
  }

  /** The heap invariant over an arena of n units, while the blocks in out are on no list. The file may be
      longer than the arena, as it is after a crash in a transaction that grew it. */
  ghost predicate Layout(img: seq<byte>, t: Tiles, lists: seq<seq<nat>>, out: set<nat>, n: nat) {
    && HEADER + UNIT * n <= |img| <= HEADER + UNIT * MAX_UNITS
    && Size(img) <= HEADER + UNIT * n
    && Tiled(t, n)
    && TagsMatch(ViewOf(img), t)
    && Linked(ViewOf(img), lists)
    && ListsHold(t, lists, out)
  }

  /** A whole image with a sound heap, which counts as many grows as it has lived through. */
  ghost predicate HeapIn(img: seq<byte>, t: Tiles, lists: seq<seq<nat>>, sizeFollowsArena: bool) {
    && |img| >= HEADER
    && Count(img) <= MAX_ORDER
    && Layout(img, t, lists, {}, Arena(Count(img)))
    && (if sizeFollowsArena && Count(img) > 0 then Size(img) == HEADER + UNIT * Arena(Count(img))
        else Size(img) <= HEADER)
  }

  /** Bytes that the file gains at its end do not matter to the heap. */
  lemma HeapInGrown(img: seq<byte>, t: Tiles, lists: seq<seq<nat>>, sizeFollowsArena: bool, length: nat)
    requires HeapIn(img, t, lists, sizeFollowsArena) && length <= HEADER + UNIT * MAX_UNITS
    ensures HeapIn(Padded(img, length), t, lists, sizeFollowsArena)
  {
    hide Layout;
    Extended(img, t, lists, Arena(Count(img)), length);
  }

  /** Start and order of every block that is handed out. */
  function Live(t: Tiles): map<nat, nat> {
    map b | b in t && !t[b].free :: t[b].order
  }

  /** A live block's bytes, without its tag. */
  function Payload(img: seq<byte>, b: nat, order: nat): seq<byte>
    requires UnitAt(b + Pow2(order)) <= |img|
  {
    img[UnitAt(b) + 1..UnitAt(b + Pow2(order))]
  }

  /** The payloads of the given blocks are the same in both images. */
  ghost predicate PayloadsKept(a: seq<byte>, b: seq<byte>, live: map<nat, nat>) {
    forall c :: c in live ==>
      && UnitAt(c + Pow2(live[c])) <= |a|
      && UnitAt(c + Pow2(live[c])) <= |b|
      && Payload(a, c, live[c]) == Payload(b, c, live[c])
  }

  /** The image at an earlier, shorter file length. */
  function Padded(img: seq<byte>, n: nat): (r: seq<byte>)
    ensures |img| <= n ==> |r| == n
  {
    if |img| <= n then img + Zeros(n - |img|) else img
  }

  /** Every byte of b that differs from a (grown by zeros) lies in a region. */
  ghost predicate Recorded(a: seq<byte>, b: seq<byte>, rs: seq<Region>) {
    && |a| <= |b|
    && forall x :: 0 <= x < |b| && Padded(a, |b|)[x] != b[x] ==> InSome(rs, x)
  }

  lemma InSomeMore(rs: seq<Region>, more: seq<Region>, x: nat)
    requires rs <= more && InSome(rs, x)
    ensures InSome(more, x)
  {
    var i :| 0 <= i < |rs| && Within(rs[i], x);
    assert Within(more[i], x);
  }

  lemma RecordedTwice(a: seq<byte>, b: seq<byte>, c: seq<byte>, rs: seq<Region>, more: seq<Region>)
    requires Recorded(a, b, rs) && Recorded(b, c, more) && rs <= more
    ensures Recorded(a, c, more)
  {
    forall x | 0 <= x < |c| && Padded(a, |c|)[x] != c[x] ensures InSome(more, x) {
      if x < |b| && Padded(a, |b|)[x] != b[x] { InSomeMore(rs, more, x); }
    }
  }

  /** Tracking survives recorded writes: the images still agree outside the regions. */
  lemma TrackingKept(a: seq<byte>, b: seq<byte>, shared: seq<byte>, rs: seq<Region>, more: seq<Region>)
    requires |shared| == |a| && Recorded(a, b, more) && rs <= more
    requires forall x :: 0 <= x < |a| && a[x] != shared[x] ==> InSome(rs, x)
    ensures forall x :: 0 <= x < |b| && b[x] != Padded(shared, |b|)[x] ==> InSome(more, x)
  {
    forall x | 0 <= x < |b| && b[x] != Padded(shared, |b|)[x] ensures InSome(more, x) {
      if x < |a| && a[x] != shared[x] { InSomeMore(rs, more, x); }
    }
  }

  /** The same for an image of unchanged length. */
  lemma TrackingKeptInPlace(a: seq<byte>, b: seq<byte>, shared: seq<byte>, rs: seq<Region>, more: seq<Region>)
    requires |shared| == |a| == |b| && Recorded(a, b, more) && rs <= more
    requires forall x :: 0 <= x < |a| && a[x] != shared[x] ==> InSome(rs, x)
    ensures forall x :: 0 <= x < |b| && b[x] != shared[x] ==> InSome(more, x)
  {
    TrackingKept(a, b, shared, rs, more);
    assert Padded(shared, |b|) == shared;
  }

  /** A stretch overwritten in place, all of it in one region. */
  lemma PokeRecorded(a: seq<byte>, lo: nat, data: seq<byte>, rs: seq<Region>)
    requires lo + |data| <= |a| && Region(lo, lo + |data|) in rs
    ensures Recorded(a, Poke(a, lo, data), rs)
  {
    var b := Poke(a, lo, data);
    assert Padded(a, |b|) == a;
    forall x | 0 <= x < |b| && a[x] != b[x] ensures InSome(rs, x) {
      var i :| 0 <= i < |rs| && rs[i] == Region(lo, lo + |data|);
      assert Within(rs[i], x);
    }
  }

  /** Recorded steps b to c to d, where the first one is recorded only at the end. */
  lemma RecordedAfter(b: seq<byte>, rb: seq<Region>, c: seq<byte>, d: seq<byte>, rd: seq<Region>, rs: seq<Region>)
    requires Recorded(b, c, rs) && Recorded(c, d, rd) && rb <= rd <= rs
    ensures Recorded(b, d, rs) && rb <= rs
  {
    forall x | 0 <= x < |d| && Padded(c, |d|)[x] != d[x] ensures InSome(rs, x) { InSomeMore(rd, rs, x); }
    RecordedTwice(b, c, d, rs, rs);
  }

  lemma PayloadOf(a: seq<byte>, b: seq<byte>, live: map<nat, nat>, c: nat, k: nat)
    requires PayloadsKept(a, b, live) && c in live
    requires UnitAt(c) + 1 <= k <= UnitAt(c + Pow2(live[c]))
    ensures k <= |a| && k <= |b| && a[UnitAt(c) + 1..k] == b[UnitAt(c) + 1..k]
  {
    var lo, hi := UnitAt(c) + 1, UnitAt(c + Pow2(live[c]));
    assert Payload(a, c, live[c]) == Payload(b, c, live[c]);
    assert a[lo..k] == a[lo..hi][..k - lo];
    assert b[lo..k] == b[lo..hi][..k - lo];
  }

  /** The payloads kept by writing into c and freeing b. */
  lemma KeptByRelocation(p1: seq<byte>, p2: seq<byte>, p3: seq<byte>, live: map<nat, nat>, b: nat, c: nat)
    requires PayloadsKept(p1, p2, live - {c}) && PayloadsKept(p2, p3, live - {b})
    ensures PayloadsKept(p1, p3, live - {b, c})
  {
    hide Payload;
    forall d | d in live - {b, c} ensures d in live - {b} && d in live - {c} {
    }
  }

  /** A payload copied into block c, then block b freed: what is recorded, kept and found in c. */
  lemma Transferred(p1: seq<byte>, r1: seq<Region>, p2: seq<byte>, p3: seq<byte>, r3: seq<Region>,
                    live: map<nat, nat>, b: nat, c: nat, lo: nat, payload: seq<byte>)
    requires lo == UnitAt(c) + 1 && c in live && b != c
    requires lo + |payload| <= UnitAt(c + Pow2(live[c])) && lo + |payload| <= |p1|
    requires p2 == Poke(p1, lo, payload) && PayloadsKept(p1, p2, live - {c})
    requires Evolved(p2, r1, p3, r3, live - {b})
    ensures Recorded(p1, p3, r3 + [Region(lo, lo + |payload|)])
    ensures lo + |payload| <= |p3| && p3[lo..lo + |payload|] == payload
    ensures PayloadsKept(p1, p3, live - {b, c})
  {
    hide Recorded, PayloadsKept;
    var rs := r3 + [Region(lo, lo + |payload|)];
    assert rs[|r3|] == Region(lo, lo + |payload|);
    PokeRecorded(p1, lo, payload, rs);
    RecordedAfter(p1, r1, p2, p3, r3, rs);
    PayloadOf(p2, p3, live - {b}, c, lo + |payload|);
    KeptByRelocation(p1, p2, p3, live, b, c);
  }

  /** The payloads kept by allocating c and then relocating b to c. */
  lemma KeptByMove(p0: seq<byte>, p1: seq<byte>, p3: seq<byte>, l0: map<nat, nat>, l1: map<nat, nat>, b: nat, c: nat)
    requires PayloadsKept(p0, p1, l0) && b in l0 && c !in l0 && c in l1 && l1 == l0[c := l1[c]]
    requires PayloadsKept(p1, p3, l1 - {b, c})
    ensures PayloadsKept(p0, p3, l0 - {b})
    ensures l1 - {b} == (l0 - {b})[c := l1[c]]
  {
    hide Payload, PayloadsKept;
    forall d | d in l0 - {b} ensures d in l1 - {b, c} && l1[d] == l0[d] {
    }
    assert l1 - {b} == (l0 - {b})[c := l1[c]];
    assert l1 - {b, c} == l0 - {b};
    FewerKept(p0, p1, l0, b);
    PayloadsKeptTwice(p0, p1, p3, l0 - {b});
  }

  lemma FewerKept(p0: seq<byte>, p1: seq<byte>, live: map<nat, nat>, b: nat)
    requires PayloadsKept(p0, p1, live)
    ensures PayloadsKept(p0, p1, live - {b})
  {
    hide Payload;
  }

  lemma SameLive(live: map<nat, nat>, b: nat)
    requires b in live
    ensures live == (live - {b})[b := live[b]]
  {
  }

  lemma SamePayloads(img: seq<byte>, rs: seq<Region>, live: map<nat, nat>, b: nat)
    requires PayloadsKept(img, img, live)
    ensures PayloadsKept(img, img, live - {b})
  {
  }

  lemma PaddedTwice(img: seq<byte>, m: nat, n: nat)
    requires |img| <= m <= n
    ensures Padded(Padded(img, m), n) == Padded(img, n)
  {
  }

  /** A non-null head pointer leads to a free block of its order. */
  lemma HeadBlock(img: seq<byte>, t: Tiles, lists: seq<seq<nat>>, n: nat, k: nat)
    requires Layout(img, t, lists, {}, n) && k < BUCKETS
    ensures |img| >= HEADER && |lists| == BUCKETS
    ensures Head(img, k) == 0 <==> lists[k] == []
    ensures Head(img, k) != 0 ==> Head(img, k) >= HEADER - 1 && PosOf(Head(img, k)) == lists[k][0]
    ensures Head(img, k) != 0 ==> PosOf(Head(img, k)) in t && t[PosOf(Head(img, k))] == Tile(k, true) && k < MAX_ORDER
  {
    HeadIsFirst(ViewOf(img), lists, k);
    if lists[k] != [] {
      FreePointer(t, lists, {}, n, k, 0);
      assert lists[k][0] in lists[k];
      OrderFits(t, n, lists[k][0]);
    }
  }

  lemma PayloadsKeptTwice(a: seq<byte>, b: seq<byte>, c: seq<byte>, live: map<nat, nat>)
    requires PayloadsKept(a, b, live) && PayloadsKept(b, c, live)
    ensures PayloadsKept(a, c, live)
  {
  }

  /** From image a to image b: regions were only added, every changed byte lies in one,
      and the given payloads are untouched. */
  ghost predicate Evolved(a: seq<byte>, ra: seq<Region>, b: seq<byte>, rb: seq<Region>, live: map<nat, nat>) {
    Recorded(a, b, rb) && ra <= rb && PayloadsKept(a, b, live)
  }

  lemma EvolvedTwice(a: seq<byte>, ra: seq<Region>, b: seq<byte>, rb: seq<Region>,
                     c: seq<byte>, rc: seq<Region>, live: map<nat, nat>)
    requires Evolved(a, ra, b, rb, live) && Evolved(b, rb, c, rc, live)
    ensures Evolved(a, ra, c, rc, live)
  {
    RecordedTwice(a, b, c, rb, rc);
  }

  lemma EvolvedMore(a: seq<byte>, ra: seq<Region>, b: seq<byte>, rb: seq<Region>, rc: seq<Region>, live: map<nat, nat>)
    requires Evolved(a, ra, b, rb, live) && rb <= rc
    ensures Evolved(a, ra, b, rc, live)
  {
    forall x | 0 <= x < |b| && Padded(a, |b|)[x] != b[x] ensures InSome(rc, x) {
      InSomeMore(rb, rc, x);
    }
  }

  /** As above, when the second step's recording started earlier than the first one's ended. */
  lemma EvolvedVia(a: seq<byte>, ra: seq<Region>, b: seq<byte>, rb: seq<Region>, rx: seq<Region>,
                   c: seq<byte>, rc: seq<Region>, live: map<nat, nat>)
    requires Evolved(a, ra, b, rb, live) && Evolved(b, rx, c, rc, live) && rb <= rc
    ensures Evolved(a, ra, c, rc, live)
  {
    RecordedTwice(a, b, c, rb, rc);
  }

  lemma LiveInside(img: seq<byte>, t: Tiles, n: nat, c: nat)
    requires Tiled(t, n) && |img| >= HEADER + UNIT * n && c in Live(t)
    ensures UnitAt(c + Pow2(Live(t)[c])) <= |img|
    ensures c + Pow2(Live(t)[c]) <= n
  {
    assert c in t;
  }

  /** A write to the header, or to a free block's first unit, changes no payload. */
  lemma PayloadsUntouched(a: seq<byte>, b: seq<byte>, t: Tiles, n: nat, lo: nat, len: nat, p: nat)
    requires Tiled(t, n) && |a| >= HEADER + UNIT * n && SameBut(a, b, lo, len)
    requires lo + len < HEADER ||
      (p in t && t[p].free && UnitAt(p) <= lo && lo + len <= UnitAt(p) + 15)
    ensures PayloadsKept(a, b, Live(t))
  {
    var live := Live(t);
    forall c | c in live
      ensures UnitAt(c + Pow2(live[c])) <= |a| && Payload(a, c, live[c]) == Payload(b, c, live[c])
    {
      LiveInside(a, t, n, c);
      if lo + len >= HEADER { Apart(t, n, c, p); }
      Kept(a, b, lo, len, UnitAt(c) + 1, UnitAt(c + Pow2(live[c])));
    }
  }

  /** Writing a block's tag byte changes no payload. */
  lemma TagOutsidePayloads(a: seq<byte>, b: seq<byte>, t: Tiles, n: nat, p: nat)
    requires Tiled(t, n) && |a| >= HEADER + UNIT * n && p in t && SameBut(a, b, UnitAt(p), 1)
    ensures PayloadsKept(a, b, Live(t))
  {
    var live := Live(t);
    forall c | c in live
      ensures UnitAt(c + Pow2(live[c])) <= |a| && Payload(a, c, live[c]) == Payload(b, c, live[c])
    {
      LiveInside(a, t, n, c);
      if c != p { Apart(t, n, c, p); }
      Kept(a, b, UnitAt(p), 1, UnitAt(c) + 1, UnitAt(c + Pow2(live[c])));
    }
  }

  lemma TagEvolves(a: seq<byte>, ra: seq<Region>, b: seq<byte>, rs: seq<Region>, t: Tiles, n: nat, p: nat)
    requires Tiled(t, n) && |a| >= HEADER + UNIT * n && p in t && SameBut(a, b, UnitAt(p), 1)
    requires ra <= rs && InSome(rs, UnitAt(p))
    ensures Evolved(a, ra, b, rs, Live(t))
  {
    TagOutsidePayloads(a, b, t, n, p);
  }

  /** Chaining the steps of a split: extract, two tags, two inserts. */
  lemma SplitEvolves(p0: seq<byte>, r0: seq<Region>, p1: seq<byte>, r1: seq<Region>, p2: seq<byte>, p3: seq<byte>,
                     p4: seq<byte>, r4: seq<Region>, t: Tiles, s: Tiles, n: nat, b: nat, d: nat)
    requires Tiled(t, n) && Tiled(s, n) && Live(s) == Live(t) && b in t && d in s
    requires |p1| == |p2| >= HEADER + UNIT * n
    requires SameBut(p1, p2, UnitAt(b), 1) && SameBut(p2, p3, UnitAt(d), 1)
    requires InSome(r1, UnitAt(b)) && InSome(r4, UnitAt(d))
    requires Evolved(p0, r0, p1, r1, Live(t)) && Evolved(p3, r1, p4, r4, Live(t))
    ensures Evolved(p0, r0, p4, r4, Live(t)) && r0 <= r4
  {
    hide Recorded, PayloadsKept, Live, Tiled;
    var live := Live(t);
    TagEvolves(p1, r1, p2, r1, t, n, b);
    TagEvolves(p2, r1, p3, r4, s, n, d);
    EvolvedTwice(p0, r0, p1, r1, p2, r1, live);
    EvolvedTwice(p0, r0, p2, r1, p3, r4, live);
    EvolvedVia(p0, r0, p3, r4, r1, p4, r4, live);
  }

  /** Chaining the steps of a merge: two extracts, a tag, an insert. */
  lemma MergeEvolves(p0: seq<byte>, r0: seq<Region>, p1: seq<byte>, r1: seq<Region>, p2: seq<byte>, r2: seq<Region>,
                     p3: seq<byte>, p4: seq<byte>, r4: seq<Region>, t: Tiles, n: nat, b: nat)
    requires Tiled(t, n) && b in t && |p2| >= HEADER + UNIT * n
    requires SameBut(p2, p3, UnitAt(b), 1) && InSome(r4, UnitAt(b))
    requires Evolved(p0, r0, p1, r1, Live(t)) && Evolved(p1, r1, p2, r2, Live(t))
    requires Evolved(p3, r2, p4, r4, Live(t))
    ensures Evolved(p0, r0, p4, r4, Live(t))
  {
    hide Recorded, PayloadsKept, Live, Tiled;
    var live := Live(t);
    EvolvedTwice(p0, r0, p1, r1, p2, r2, live);
    TagEvolves(p2, r2, p3, r4, t, n, b);
    EvolvedTwice(p0, r0, p2, r2, p3, r4, live);
    EvolvedVia(p0, r0, p3, r4, r2, p4, r4, live);
  }

  /** Chaining the steps of a grow: the longer file, a tag, an insert. */
  lemma GrowEvolves(p0: seq<byte>, r0: seq<Region>, p1: seq<byte>, r1: seq<Region>, p2: seq<byte>, r2: seq<Region>,
                    p3: seq<byte>, r3: seq<Region>, t: Tiles, n: nat, b: nat, live: map<nat, nat>)
    requires Tiled(t, n) && b in t && |p1| >= HEADER + UNIT * n && live == Live(t)
    requires SameBut(p1, p2, UnitAt(b), 1) && InSome(r3, UnitAt(b)) && r1 <= r2 <= r3
    requires Evolved(p0, r0, p1, r1, live) && Evolved(p2, r2, p3, r3, live)
    ensures Evolved(p0, r0, p3, r3, live)
  {
    hide Recorded, PayloadsKept, Live, Tiled;
    TagEvolves(p1, r1, p2, r3, t, n, b);
    EvolvedTwice(p0, r0, p1, r1, p2, r3, live);
    EvolvedVia(p0, r0, p2, r3, r2, p3, r3, live);
  }

  lemma NotListed(t: Tiles, lists: seq<seq<nat>>, out: set<nat>, b: nat)
    requires ListsHold(t, lists, out) && (b !in t || !t[b].free || b in out)
    ensures OnNoList(lists, b)
  {
  }

  /** Writing the tag that a tiling asks for, of a block that is on no list. */
  lemma RetagLayout(img: seq<byte>, t: Tiles, lists: seq<seq<nat>>, out: set<nat>, n: nat, p: nat)
    requires HEADER + UNIT * n <= |img| <= HEADER + UNIT * MAX_UNITS && Size(img) <= HEADER + UNIT * n
    requires Linked(ViewOf(img), lists) && OnNoList(lists, p)
    requires Tiled(t, n) && ListsHold(t, lists, out) && p in t && p < n && t[p].order < 128
    requires forall b :: b in t && b != p ==> b < n && Order(img, b) == t[b].order && Free(img, b) == t[b].free
    ensures Layout(SetTag(img, p, t[p].order, t[p].free), t, lists, out, n)
    ensures Count(SetTag(img, p, t[p].order, t[p].free)) == Count(img)
    ensures Size(SetTag(img, p, t[p].order, t[p].free)) == Size(img)
  {
    hide SetTag, IsList;
    RetagKeepsLists(ViewOf(img), lists, p, t[p].order, t[p].free);
    var v, r := ViewOf(img), SetTag(img, p, t[p].order, t[p].free);
    assert ViewOf(r).count == v.count && ViewOf(r).size == v.size;
    forall b | b in t ensures b < n && ViewOf(r).order[b] == t[b].order && ViewOf(r).free[b] == t[b].free {
      if b != p { assert v.order[b] == Order(img, b) && v.free[b] == Free(img, b); }
    }
  }

  /** What the invariant says about one block. */
  lemma BlockFacts(img: seq<byte>, t: Tiles, lists: seq<seq<nat>>, out: set<nat>, n: nat, b: nat)
    requires Layout(img, t, lists, out, n) && b in t
    ensures |img| >= HEADER && n <= Units(img) && b < n && End(t, b) <= n
    ensures Order(img, b) == t[b].order < MAX_ORDER && Free(img, b) == t[b].free
    ensures UnitAt(b) + UNIT <= |img|
  {
    hide Linked, ListsHold;
    OrderFits(t, n, b);
    assert Order(img, b) == ViewOf(img).order[b] && Free(img, b) == ViewOf(img).free[b];
  }

  lemma OrderFits(t: Tiles, n: nat, b: nat)
    requires Tiled(t, n) && n <= MAX_UNITS && b in t
    ensures t[b].order < MAX_ORDER
  {
    LargestArena();
    if t[b].order >= MAX_ORDER { Pow2Monotone(30, t[b].order); }
  }

  lemma LayoutParts(img: seq<byte>, t: Tiles, lists: seq<seq<nat>>, out: set<nat>, n: nat)
    requires Layout(img, t, lists, out, n)
    ensures Tiled(t, n) && HEADER + UNIT * n <= |img| <= HEADER + UNIT * MAX_UNITS && n <= Units(img) && n <= MAX_UNITS
    ensures Size(img) <= HEADER + UNIT * n
    ensures |lists| == BUCKETS && ListsHold(t, lists, out) && Linked(ViewOf(img), lists)
  {
  }

  /** After the file has grown, all blocks and lists read as before. */
  lemma Extended(img: seq<byte>, t: Tiles, lists: seq<seq<nat>>, n: nat, length: nat)
    requires Layout(img, t, lists, {}, n) && length <= HEADER + UNIT * MAX_UNITS
    ensures var r := Padded(img, length);
      && |r| == (if |img| < length then length else |img|) && n <= Units(r)
      && Count(r) == Count(img) && Size(r) == Size(img)
      && Linked(ViewOf(r), lists)
      && (forall c :: c in t ==> c < n && Order(r, c) == t[c].order && Free(r, c) == t[c].free)
      && Layout(r, t, lists, {}, n)
  {
    hide IsList, Tiled, ListsHold;
    var r := Padded(img, length);
    AllTags(img, t, n);
    assert r == img + Zeros(|r| - |img|);
    GrowView(img, |r| - |img|);
    MoreUnitsKeepLists(ViewOf(img), ViewOf(r), lists);
    assert Count(r) == ViewOf(r).count && Size(r) == ViewOf(r).size;
    forall c | c in t ensures Order(r, c) == Order(img, c) && Free(r, c) == Free(img, c) {
      assert ViewOf(r).order[c] == ViewOf(img).order[c] && ViewOf(r).free[c] == ViewOf(img).free[c];
    }
  }

  lemma ExtendedEvolves(img: seq<byte>, rs: seq<Region>, t: Tiles, n: nat, length: nat)
    requires Tiled(t, n) && |img| >= HEADER + UNIT * n
    ensures Evolved(img, rs, Padded(img, length), rs, Live(t))
  {
    var r := Padded(img, length);
    assert Padded(img, |r|) == r;
    var live := Live(t);
    forall c | c in live
      ensures UnitAt(c + Pow2(live[c])) <= |img| && Payload(img, c, live[c]) == Payload(r, c, live[c])
    {
      LiveInside(img, t, n, c);
    }
  }

  /** Writing the size field changes what the invariant bounds and nothing else. */
  lemma SizeWrite(img: seq<byte>, lists: seq<seq<nat>>, v: nat)
    requires |img| >= HEADER && v < Span(8) && Linked(ViewOf(img), lists)
    ensures var r := SetSize(img, v);
      && |r| == |img| && Count(r) == Count(img) && Size(r) == v && Linked(ViewOf(r), lists)
      && forall c :: 0 <= c < Units(img) ==> Order(r, c) == Order(img, c) && Free(r, c) == Free(img, c)
  {
    hide SetSize, IsList;
    var r := SetSize(img, v);
    MoreUnitsKeepLists(ViewOf(img), ViewOf(r), lists);
    assert Count(r) == ViewOf(r).count && Size(r) == ViewOf(r).size;
    forall c | 0 <= c < Units(img) ensures Order(r, c) == Order(img, c) && Free(r, c) == Free(img, c) {
      assert ViewOf(r).order[c] == ViewOf(img).order[c] && ViewOf(r).free[c] == ViewOf(img).free[c];
    }
  }

  /** Writing the bucket count leaves the heap as it is. */
  lemma CountWrite(img: seq<byte>, t: Tiles, lists: seq<seq<nat>>, n: nat, v: nat)
    requires |img| >= HEADER && v < Span(8) && Layout(img, t, lists, {}, n)
    ensures var r := SetCount(img, v);
      |r| == |img| && Count(r) == v && Size(r) == Size(img) && Layout(r, t, lists, {}, n)
  {
    hide SetCount, IsList, ListsHold, Tiled;
    var r := SetCount(img, v);
    MoreUnitsKeepLists(ViewOf(img), ViewOf(r), lists);
    assert Count(r) == ViewOf(r).count && Size(r) == ViewOf(r).size;
  }

  /** A write to the database header, recorded in rs. */
  lemma HeaderEvolves(a: seq<byte>, ra: seq<Region>, b: seq<byte>, rs: seq<Region>, t: Tiles, n: nat, lo: nat, len: nat)
    requires Tiled(t, n) && |a| >= HEADER + UNIT * n && SameBut(a, b, lo, len) && ra <= rs
    requires lo + len < HEADER
    requires Region(0, HEADER) in rs || Region(lo, lo + len) in rs
    ensures Evolved(a, ra, b, rs, Live(t))
  {
    PayloadsUntouched(a, b, t, n, lo, len, 0);
    forall x | lo <= x < lo + len ensures InSome(rs, x) {
      var i :| 0 <= i < |rs| && (rs[i] == Region(0, HEADER) || rs[i] == Region(lo, lo + len));
      assert Within(rs[i], x);
    }
  }

  /** The block a grow adds: the upper half of the doubled arena, or the whole of the first one. */
  lemma GrownTiles(t: Tiles, lists: seq<seq<nat>>, count: nat)
    requires Tiled(t, Arena(count)) && ListsHold(t, lists, {}) && count < MAX_ORDER
    ensures var p := Arena(count);
      var k := if count == 0 then 0 else count - 1;
      var s := t[p := Tile(k, true)];
      && p !in t && p + Pow2(k) == Arena(count + 1) <= MAX_UNITS
      && Tiled(s, Arena(count + 1)) && Live(s) == Live(t)
      && OnNoList(lists, p) && ListsHold(s, lists, {p})
      && (Coalesced(t) ==> CoalescedBut(s, p))
      && (lists[k] == [] ==> !FreeBuddy(s, p))
  {
    hide Covered;
    var p := Arena(count);
    var k := if count == 0 then 0 else count - 1;
    var s := t[p := Tile(k, true)];
    ArenaBound(count + 1);
    if count == 0 {
      NothingTiled(t);
      assert s == map[0 := Tile(0, true)];
      FirstTile();
    } else {
      GrowTiles(t, k);
    }
    NotListed(t, lists, {}, p);
    GrownCoalesced(t, s, p, k);
    if lists[k] == [] { EmptyList(t, lists, k); BuddyIsNotSelf(p, k, Arena(count + 1), s); }
  }

  lemma BuddyIsNotSelf(p: nat, k: nat, n: nat, s: Tiles)
    requires Tiled(s, n) && p in s && s[p].order == k
    ensures Buddy(p, k) != p
  {
    BuddyIsOtherHalf(p, k);
  }

  lemma AllTags(img: seq<byte>, t: Tiles, n: nat)
    requires |img| >= HEADER + UNIT * n && TagsMatch(ViewOf(img), t) && Tiled(t, n)
    ensures forall c :: c in t ==> c < n && Order(img, c) == t[c].order && Free(img, c) == t[c].free
  {
    var v := ViewOf(img);
    forall c | c in t ensures c < n && Order(img, c) == t[c].order && Free(img, c) == t[c].free {
      assert c < |v.order|;
      assert Order(img, c) == v.order[c] && Free(img, c) == v.free[c];
    }
  }

  /** The tags `split_bucket` writes, on an extracted block. */
  lemma SplitStep(img: seq<byte>, r1: seq<byte>, r: seq<byte>, t: Tiles, lists: seq<seq<nat>>, n: nat, b: nat, d: nat)
    requires b in t && t[b].free && 0 < t[b].order < BUCKETS && d == b + Pow2(t[b].order - 1)
    requires d < Units(img) && r1 == SetTag(img, b, t[b].order - 1, true)
    requires |r1| == |img| && r == SetTag(r1, d, t[b].order - 1, true)
    requires Layout(img, t, lists, {b}, n)
    ensures d !in t && Live(Split(t, b)) == Live(t)
    ensures Layout(r, Split(t, b), lists, {b, d}, n)
    ensures Count(r) == Count(img) && Size(r) == Size(img)
  {
    hide SetTag, Linked, ListsHold, TagsMatch, ViewOf, Tiled;
    LayoutParts(img, t, lists, {b}, n);
    SplitTiles(t, n, b);
    BlocksInside(Split(t, b), n);
    NotListed(t, lists, {b}, b);
    NotListed(t, lists, {b}, d);
    RetagKeepsLists(ViewOf(img), lists, b, t[b].order - 1, true);
    AllTags(img, t, n);
    TagWrite(img, r1, b, t[b].order - 1, true);
    SplitLists(t, lists, b, d);
    RetagLayout(r1, Split(t, b), lists, {b, d}, n, d);
  }

  /** A tag write changes one tag and nothing else that is read unit by unit or from the header. */
  lemma TagWrite(img: seq<byte>, r: seq<byte>, p: nat, order: nat, free: bool)
    requires |img| >= HEADER && p < Units(img) && order < 128 && r == SetTag(img, p, order, free)
    ensures |r| == |img| && Count(r) == Count(img) && Size(r) == Size(img)
    ensures ViewOf(r) == ViewOf(img).(order := ViewOf(img).order[p := order], free := ViewOf(img).free[p := free])
    ensures forall c :: 0 <= c < Units(img) ==>
      Order(r, c) == (if c == p then order else Order(img, c)) &&
      Free(r, c) == (if c == p then free else Free(img, c))
  {
    hide SetTag;
    var v, w := ViewOf(img), ViewOf(r);
    assert w.count == v.count && w.size == v.size;
    forall c | 0 <= c < Units(img)
      ensures Order(r, c) == w.order[c] && Free(r, c) == w.free[c]
      ensures Order(img, c) == v.order[c] && Free(img, c) == v.free[c]
    {
    }
  }

  lemma SplitLists(t: Tiles, lists: seq<seq<nat>>, b: nat, d: nat)
    requires ListsHold(t, lists, {b}) && b in t && t[b].free && 0 < t[b].order && d == b + Pow2(t[b].order - 1)
    requires d !in t
    ensures ListsHold(Split(t, b), lists, {b, d})
    ensures Live(Split(t, b)) == Live(t)
  {
    var s := Split(t, b);
    forall k, c | 0 <= k < BUCKETS && c in lists[k] ensures c in s && s[c] == Tile(k, true) && c !in {b, d} {
      assert c in t;
    }
  }

  /** The tag `merge_buckets` writes, on two extracted buddies. */
  lemma MergeStep(img: seq<byte>, r: seq<byte>, t: Tiles, lists: seq<seq<nat>>, n: nat, b: nat, d: nat, lo: nat)
    requires b in t && t[b].free && FreeBuddy(t, b) && t[b].order + 1 < BUCKETS
    requires d == Buddy(b, t[b].order) && lo == if d < b then d else b
    requires lo < Units(img) && r == SetTag(img, lo, t[b].order + 1, true)
    requires Layout(img, t, lists, {b, d}, n)
    ensures lo in Merge(t, b) && Merge(t, b)[lo] == Tile(t[b].order + 1, true)
    ensures Live(Merge(t, b)) == Live(t)
    ensures Layout(r, Merge(t, b), lists, {lo}, n)
    ensures |r| == |img| && Count(r) == Count(img) && Size(r) == Size(img)
  {
    hide SetTag, Linked, IsList, ListsHold, Live, OnNoList, Tiled;
    var s := Merge(t, b);
    MergeTiles(t, n, b);
    NotListed(t, lists, {b, d}, lo);
    AllTags(img, t, n);
    MergeLists(t, lists, b, d, lo);
    RetagLayout(img, s, lists, {lo}, n, lo);
  }

  lemma MergeLists(t: Tiles, lists: seq<seq<nat>>, b: nat, d: nat, lo: nat)
    requires b in t && t[b].free && FreeBuddy(t, b)
    requires d == Buddy(b, t[b].order) && lo == if d < b then d else b
    requires ListsHold(t, lists, {b, d})
    ensures ListsHold(Merge(t, b), lists, {lo}) && Live(Merge(t, b)) == Live(t)
  {
    var s := Merge(t, b);
    forall k, c | 0 <= k < BUCKETS && c in lists[k] ensures c in s && s[c] == Tile(k, true) && c !in {lo} {
      assert c in t && c !in {b, d};
    }
  }

  /** Handing out an extracted block, or taking a live one back. */
  lemma StatusStep(img: seq<byte>, r: seq<byte>, t: Tiles, lists: seq<seq<nat>>, out: set<nat>, n: nat, b: nat,
                   free: bool)
    requires b in t && t[b].order < BUCKETS && b < Units(img) && r == SetTag(img, b, t[b].order, free)
    requires Layout(img, t, lists, out, n)
    requires if free then out == {} && !t[b].free else out == {b} && t[b].free
    ensures Tiled(t[b := t[b].(free := free)], n)
    ensures Layout(r, t[b := t[b].(free := free)], lists, if free then {b} else {}, n)
    ensures |r| == |img| && Count(r) == Count(img) && Size(r) == Size(img)
  {
    hide SetTag, Linked, IsList, Tiled;
    var s := t[b := t[b].(free := free)];
    RetagTiles(t, n, b, free);
    NotListed(t, lists, out, b);
    AllTags(img, t, n);
    RetagLayout(img, s, lists, if free then {b} else {}, n, b);
  }

  /** A list position for a free block. */
  lemma OnItsList(t: Tiles, lists: seq<seq<nat>>, out: set<nat>, b: nat) returns (i: nat)
    requires ListsHold(t, lists, out) && b in t && t[b].free && b !in out
    ensures t[b].order < BUCKETS && i < |lists[t[b].order]| && lists[t[b].order][i] == b
  {
    var k := t[b].order;
    i :| 0 <= i < |lists[k]| && lists[k][i] == b;
  }

  lemma PtrFits(p: nat, n: nat)
    requires p < n <= MAX_UNITS
    ensures UnitAt(p) < Span(7) && UnitAt(p) < Span(8) && UnitAt(p) + UNIT <= HEADER + UNIT * n
    ensures 0 < Span(7) && HEADER + UNIT * n < Span(8)
  {
    Spans();
  }

  /** A pointer to the first unit of a free block. */
  predicate FreeAt(t: Tiles, n: nat, ptr: nat) {
    && ptr >= HEADER - 1 && ptr == UnitAt(PosOf(ptr)) && PosOf(ptr) < n
    && ptr < Span(7) && ptr < Span(8)
    && PosOf(ptr) in t && t[PosOf(ptr)].free
  }

  /** One write into a free block's header or into the database header, recorded in rs. */
  lemma StepEvolved(a: seq<byte>, ra: seq<Region>, b: seq<byte>, rs: seq<Region>,
                    t: Tiles, n: nat, lo: nat, len: nat, p: nat)
    requires Tiled(t, n) && |a| >= HEADER + UNIT * n && SameBut(a, b, lo, len) && ra <= rs
    requires lo + len < HEADER ||
      (p in t && t[p].free && UnitAt(p) <= lo && lo + len <= UnitAt(p) + 15)
    requires forall x :: lo <= x < lo + len ==> InSome(rs, x)
    ensures Evolved(a, ra, b, rs, Live(t))
  {
    PayloadsUntouched(a, b, t, n, lo, len, p);
  }

  /** The list neighbours of a free block are free blocks. */
  lemma Neighbours(v: View, t: Tiles, lists: seq<seq<nat>>, out: set<nat>, n: nat, b: nat, i: nat)
    requires n <= MAX_UNITS && Tiled(t, n) && TagsMatch(v, t) && Linked(v, lists) && ListsHold(t, lists, out)
    requires b in t && t[b].order < BUCKETS && i < |lists[t[b].order]| && lists[t[b].order][i] == b
    ensures b < |v.next| && v.order[b] == t[b].order
    ensures v.prev[b] == 0 || FreeAt(t, n, v.prev[b])
    ensures v.next[b] == 0 || FreeAt(t, n, v.next[b])
  {
    var k := t[b].order;
    var l := lists[k];
    assert IsList(v, l, k);
    assert Links(v, l, i);
    if i > 0 { FreePointer(t, lists, out, n, k, i - 1); }
    if i + 1 < |l| { FreePointer(t, lists, out, n, k, i + 1); }
  }

  lemma FreePointer(t: Tiles, lists: seq<seq<nat>>, out: set<nat>, n: nat, k: nat, i: nat)
    requires n <= MAX_UNITS && Tiled(t, n) && ListsHold(t, lists, out)
    requires k < BUCKETS && i < |lists[k]|
    ensures FreeAt(t, n, UnitAt(lists[k][i]))
  {
    var b := lists[k][i];
    assert b in lists[k];
    assert b in t;
    PtrFits(b, n);
  }

  /** The image after the five writes of `extract_bucket`. */
  function Unlinked(img: seq<byte>, b: nat): (r: seq<byte>)
    requires |img| >= HEADER && b < Units(img) && Order(img, b) < BUCKETS
    requires LinkInside(ViewOf(img), Prev(img, b)) && LinkInside(ViewOf(img), Next(img, b))
    requires Prev(img, b) < Span(7) && Next(img, b) < Span(7) < Span(8)
    ensures |r| == |img|
  {
    hide SetNext, SetPrev, SetHead;
    var k, p, nx := Order(img, b), Prev(img, b), Next(img, b);
    var r1 := if p != 0 then SetNext(img, PosOf(p), nx) else img;
    var r2 := if nx != 0 then SetPrev(r1, PosOf(nx), p) else r1;
    var r3 := if Head(r2, k) == UnitAt(b) then SetHead(r2, k, nx) else r2;
    SetNext(SetPrev(r3, b, 0), b, 0)
  }

  lemma UnlinkedView(img: seq<byte>, b: nat)
    requires |img| >= HEADER && b < Units(img) && Order(img, b) < BUCKETS
    requires LinkInside(ViewOf(img), Prev(img, b)) && LinkInside(ViewOf(img), Next(img, b))
    requires Prev(img, b) < Span(7) && Next(img, b) < Span(7) < Span(8)
    ensures ViewOf(Unlinked(img, b)) == Extracted(ViewOf(img), b)
  {
    hide SetNext, SetPrev, SetHead;
    var k, p, nx := Order(img, b), Prev(img, b), Next(img, b);
    var r1 := if p != 0 then SetNext(img, PosOf(p), nx) else img;
    var r2 := if nx != 0 then SetPrev(r1, PosOf(nx), p) else r1;
    var v, v2 := ViewOf(img), ViewOf(r2);
    assert v.order[b] == k && v.prev[b] == p && v.next[b] == nx;
    assert v2 == v.(next := if p != 0 then v.next[PosOf(p) := nx] else v.next,
                    prev := if nx != 0 then v.prev[PosOf(nx) := p] else v.prev);
    assert Head(r2, k) == v2.heads[k];
  }

  /** The regions after marking a stretch that starts at ptr, unless ptr is null. */
  function Marked(rs: seq<Region>, ptr: nat, size: nat): seq<Region> {
    if ptr == 0 then rs else rs + [Region(ptr, ptr + size)]
  }

  /** What `extract_bucket` and `insert_bucket` mark: a block, its list neighbours and the list head. */
  function LinkRegions(rs: seq<Region>, b: nat, p: nat, nx: nat, k: nat): seq<Region> {
    Marked(Marked(Marked(Marked(rs, UnitAt(b), UNIT), p, UNIT), nx, UNIT), HeadAt(k), 8)
  }

  lemma InMarked(rs: seq<Region>, ptr: nat, size: nat, x: nat)
    ensures rs <= Marked(rs, ptr, size)
    ensures InSome(rs, x) ==> InSome(Marked(rs, ptr, size), x)
    ensures ptr != 0 && ptr <= x < ptr + size ==> InSome(Marked(rs, ptr, size), x)
  {
    var ms := Marked(rs, ptr, size);
    if InSome(rs, x) { InSomeMore(rs, ms, x); }
    if ptr != 0 && ptr <= x < ptr + size { assert Within(ms[|rs|], x); }
  }

  lemma InLinkRegions(r0: seq<Region>, b: nat, p: nat, nx: nat, k: nat)
    ensures var rs := LinkRegions(r0, b, p, nx, k);
      && r0 <= rs
      && (forall x :: UnitAt(b) <= x < UnitAt(b) + UNIT ==> InSome(rs, x))
      && (p != 0 ==> forall x :: p <= x < p + UNIT ==> InSome(rs, x))
      && (nx != 0 ==> forall x :: nx <= x < nx + UNIT ==> InSome(rs, x))
      && (forall x :: HeadAt(k) <= x < HeadAt(k) + 8 ==> InSome(rs, x))
  {
    var r1 := Marked(r0, UnitAt(b), UNIT);
    var r2 := Marked(r1, p, UNIT);
    var r3 := Marked(r2, nx, UNIT);
    forall x: nat
      ensures UnitAt(b) <= x < UnitAt(b) + UNIT ==> InSome(LinkRegions(r0, b, p, nx, k), x)
      ensures p != 0 && p <= x < p + UNIT ==> InSome(LinkRegions(r0, b, p, nx, k), x)
      ensures nx != 0 && nx <= x < nx + UNIT ==> InSome(LinkRegions(r0, b, p, nx, k), x)
      ensures HeadAt(k) <= x < HeadAt(k) + 8 ==> InSome(LinkRegions(r0, b, p, nx, k), x)
    {
      InMarked(r0, UnitAt(b), UNIT, x);
      InMarked(r1, p, UNIT, x);
      InMarked(r2, nx, UNIT, x);
      InMarked(r3, HeadAt(k), 8, x);
    }
  }

  lemma NullWrite(a: seq<byte>, ra: seq<Region>, rs: seq<Region>, t: Tiles, n: nat)
    requires Tiled(t, n) && |a| >= HEADER + UNIT * n && ra <= rs
    ensures Evolved(a, ra, a, rs, Live(t))
  {
    forall c | c in Live(t) ensures UnitAt(c + Pow2(Live(t)[c])) <= |a| { LiveInside(a, t, n, c); }
  }

  lemma UnlinkedEvolves(img: seq<byte>, r0: seq<Region>, t: Tiles, n: nat, b: nat)
    requires Tiled(t, n) && |img| >= HEADER + UNIT * n
    requires b in t && t[b].free && b < n && Order(img, b) < BUCKETS
    requires Prev(img, b) == 0 || FreeAt(t, n, Prev(img, b))
    requires Next(img, b) == 0 || FreeAt(t, n, Next(img, b))
    requires 0 < Span(7) < Span(8)
    ensures Evolved(img, r0, Unlinked(img, b),
                    LinkRegions(r0, b, Prev(img, b), Next(img, b), Order(img, b)), Live(t))
  {
    hide SetNext, SetPrev, SetHead, Recorded, PayloadsKept, Tiled, Live;
    var k, p, nx := Order(img, b), Prev(img, b), Next(img, b);
    var rs := LinkRegions(r0, b, p, nx, k);
    InLinkRegions(r0, b, p, nx, k);
    var r1 := if p != 0 then SetNext(img, PosOf(p), nx) else img;
    var r2 := if nx != 0 then SetPrev(r1, PosOf(nx), p) else r1;
    var r3 := if Head(r2, k) == UnitAt(b) then SetHead(r2, k, nx) else r2;
    var r4 := SetPrev(r3, b, 0);
    var r5 := SetNext(r4, b, 0);
    var live := Live(t);
    if p != 0 { StepEvolved(img, r0, r1, rs, t, n, p + 1, 7, PosOf(p)); } else { NullWrite(img, r0, rs, t, n); }
    if nx != 0 { StepEvolved(r1, rs, r2, rs, t, n, nx + 8, 7, PosOf(nx)); } else { NullWrite(r1, rs, rs, t, n); }
    StepEvolved(r2, rs, r3, rs, t, n, HeadAt(k), 8, b);
    StepEvolved(r3, rs, r4, rs, t, n, UnitAt(b) + 8, 7, b);
    StepEvolved(r4, rs, r5, rs, t, n, UnitAt(b) + 1, 7, b);
    EvolvedTwice(img, r0, r1, rs, r2, rs, live);
    EvolvedTwice(img, r0, r2, rs, r3, rs, live);
    EvolvedTwice(img, r0, r3, rs, r4, rs, live);
    EvolvedTwice(img, r0, r4, rs, r5, rs, live);
  }

  /** Everything `extract_bucket` achieves, on values. */
  lemma ExtractStep(img: seq<byte>, r0: seq<Region>, t: Tiles, lists: seq<seq<nat>>, out: set<nat>, n: nat, b: nat)
    returns (i: nat)
    requires Layout(img, t, lists, out, n) && b in t && t[b].free && b !in out
    ensures |img| >= HEADER && |lists| == BUCKETS && t[b].order < BUCKETS && i < |lists[t[b].order]|
    ensures lists[t[b].order][i] == b
    ensures b < Units(img) && Order(img, b) == t[b].order && UnitAt(b) + UNIT <= |img|
    ensures LinkInside(ViewOf(img), Prev(img, b)) && LinkInside(ViewOf(img), Next(img, b))
    ensures Prev(img, b) + UNIT <= |img| && Next(img, b) + UNIT <= |img|
    ensures Prev(img, b) < Span(7) && Next(img, b) < Span(7) < Span(8)
    ensures |Unlinked(img, b)| == |img|
    ensures Count(Unlinked(img, b)) == Count(img) && Size(Unlinked(img, b)) == Size(img)
    ensures Layout(Unlinked(img, b), t, lists[t[b].order := Without(lists[t[b].order], i)], out + {b}, n)
    ensures Evolved(img, r0, Unlinked(img, b),
                    LinkRegions(r0, b, Prev(img, b), Next(img, b), Order(img, b)), Live(t))
  {
    var v, k := ViewOf(img), t[b].order;
    i := OnItsList(t, lists, out, b);
    Neighbours(v, t, lists, out, n, b, i);
    ExtractKeepsLists(v, lists, k, i);
    UnlinkedView(img, b);
    ExtractHolds(t, lists, out, k, i) by { assert IsList(v, lists[k], k); }
    PtrFits(b, n);
    UnlinkedEvolves(img, r0, t, n, b);
  }

  /** The image after the writes of `insert_bucket`. */
  function Pushed(img: seq<byte>, b: nat): (r: seq<byte>)
    requires |img| >= HEADER && b < Units(img) && Order(img, b) < BUCKETS
    requires LinkInside(ViewOf(img), Head(img, Order(img, b)))
    requires Head(img, Order(img, b)) < Span(7) && UnitAt(b) < Span(7) < Span(8)
    ensures |r| == |img|
    ensures ViewOf(r) == Inserted(ViewOf(img), b)
  {
    var k := Order(img, b);
    var nx := Head(img, k);
    var r2 := SetPrev(SetNext(img, b, nx), b, 0);
    var r3 := if nx != 0 then SetPrev(r2, PosOf(nx), UnitAt(b)) else r2;
    SetHead(r3, k, UnitAt(b))
  }

  lemma PushedEvolves(img: seq<byte>, r0: seq<Region>, t: Tiles, n: nat, b: nat)
    requires Tiled(t, n) && |img| >= HEADER + UNIT * n
    requires b in t && t[b].free && b < n && Order(img, b) < BUCKETS
    requires Head(img, Order(img, b)) == 0 || FreeAt(t, n, Head(img, Order(img, b)))
    requires 0 < Span(7) < Span(8) && UnitAt(b) < Span(7)
    ensures Evolved(img, r0, Pushed(img, b),
                    LinkRegions(r0, b, 0, Head(img, Order(img, b)), Order(img, b)), Live(t))
  {
    hide SetNext, SetPrev, SetHead, Recorded, PayloadsKept, Tiled, Live;
    var k := Order(img, b);
    var nx := Head(img, k);
    var rs := LinkRegions(r0, b, 0, nx, k);
    InLinkRegions(r0, b, 0, nx, k);
    var r1 := SetNext(img, b, nx);
    var r2 := SetPrev(r1, b, 0);
    var r3 := if nx != 0 then SetPrev(r2, PosOf(nx), UnitAt(b)) else r2;
    var r4 := SetHead(r3, k, UnitAt(b));
    var live := Live(t);
    StepEvolved(img, r0, r1, rs, t, n, UnitAt(b) + 1, 7, b);
    StepEvolved(r1, rs, r2, rs, t, n, UnitAt(b) + 8, 7, b);
    if nx != 0 { StepEvolved(r2, rs, r3, rs, t, n, nx + 8, 7, PosOf(nx)); } else { NullWrite(r2, rs, rs, t, n); }
    StepEvolved(r3, rs, r4, rs, t, n, HeadAt(k), 8, b);
    EvolvedTwice(img, r0, r1, rs, r2, rs, live);
    EvolvedTwice(img, r0, r2, rs, r3, rs, live);
    EvolvedTwice(img, r0, r3, rs, r4, rs, live);
  }

  /** Everything `insert_bucket` achieves, on values. */
  lemma InsertStep(img: seq<byte>, r0: seq<Region>, t: Tiles, lists: seq<seq<nat>>, out: set<nat>, n: nat, b: nat)
    requires Layout(img, t, lists, out, n) && b in t && t[b].free && b in out && t[b].order < BUCKETS
    ensures |img| >= HEADER && |lists| == BUCKETS
    ensures b < Units(img) && Order(img, b) == t[b].order && UnitAt(b) + UNIT <= |img|
    ensures LinkInside(ViewOf(img), Head(img, t[b].order)) && Head(img, t[b].order) + UNIT <= |img|
    ensures Head(img, t[b].order) < Span(7) && UnitAt(b) < Span(7) < Span(8)
    ensures |Pushed(img, b)| == |img|
    ensures Count(Pushed(img, b)) == Count(img) && Size(Pushed(img, b)) == Size(img)
    ensures Layout(Pushed(img, b), t, lists[t[b].order := [b] + lists[t[b].order]], out - {b}, n)
    ensures Evolved(img, r0, Pushed(img, b),
                    LinkRegions(r0, b, 0, Head(img, t[b].order), t[b].order), Live(t))
  {
    var v, k := ViewOf(img), t[b].order;
    assert b !in lists[k];
    InsertKeepsLists(v, lists, b);
    InsertHolds(t, lists, out, b);
    HeadIsFirst(v, lists, k);
    if lists[k] != [] { FreePointer(t, lists, out, n, k, 0); }
    PtrFits(b, n);
    PushedEvolves(img, r0, t, n, b);
  }

  lemma ExtractHolds(t: Tiles, lists: seq<seq<nat>>, out: set<nat>, k: nat, i: nat)
    requires ListsHold(t, lists, out) && k < BUCKETS && i < |lists[k]| && Distinct(lists[k])
    ensures ListsHold(t, lists[k := Without(lists[k], i)], out + {lists[k][i]})
  {
    var b := lists[k][i];
    var m := Without(lists[k], i);
    forall c | c in t && t[c].free && c !in out + {b} && t[c].order == k ensures c in m {
      var j :| 0 <= j < |lists[k]| && lists[k][j] == c;
      assert m[if j < i then j else j - 1] == c;
    }
    forall c | c in m ensures c in lists[k] && c != b {
      var j :| 0 <= j < |m| && m[j] == c;
      assert c == lists[k][if j < i then j else j + 1];
    }
  }

  lemma InsertHolds(t: Tiles, lists: seq<seq<nat>>, out: set<nat>, b: nat)
    requires ListsHold(t, lists, out) && b in out && b in t && t[b].free && t[b].order < BUCKETS
    ensures ListsHold(t, lists[t[b].order := [b] + lists[t[b].order]], out - {b})
  {
    var k := t[b].order;
    var m := [b] + lists[k];
    forall c | c in t && t[c].free && c !in out - {b} && t[c].order == k ensures c in m {
      if c != b { assert c in lists[k]; } else { assert m[0] == b; }
    }
  }

  /** An empty list means there is no free block of that order. */
  lemma EmptyList(t: Tiles, lists: seq<seq<nat>>, k: nat)
    requires ListsHold(t, lists, {}) && k < BUCKETS && lists[k] == []
    ensures forall b :: b in t && t[b].free ==> t[b].order != k
  {
  }

  /** A head pointer is null exactly when its list is empty, and points at the first member. */
  lemma HeadIsFirst(v: View, lists: seq<seq<nat>>, k: nat)
    requires Linked(v, lists) && k < BUCKETS
    ensures v.heads[k] == 0 <==> lists[k] == []
    ensures lists[k] != [] ==> v.heads[k] == UnitAt(lists[k][0])
  {
    assert IsList(v, lists[k], k);
  }

  /** Lists survive any change to units that are on no list. */
  lemma OtherUnitsKeepLists(v: View, w: View, lists: seq<seq<nat>>)
    requires Linked(v, lists) && w.heads == v.heads && |w.next| == |v.next|
    requires |w.order| == |w.free| == |w.next| == |w.prev|
    requires forall k, i :: 0 <= k < BUCKETS && 0 <= i < |lists[k]| ==> var p := lists[k][i];
      p < |v.next| && w.order[p] == v.order[p] && w.free[p] == v.free[p] &&
      w.next[p] == v.next[p] && w.prev[p] == v.prev[p]
    ensures Linked(w, lists)
  {
    forall k | 0 <= k < BUCKETS ensures IsList(w, lists[k], k) {
      assert IsList(v, lists[k], k);
      forall x: nat | x < |lists[k]| ensures Links(w, lists[k], x) {
        assert Links(v, lists[k], x);
      }
    }
  }

  /** What a write inside one live block's payload leaves readable. */
  lemma PayloadWriteView(a: seq<byte>, b: seq<byte>, t: Tiles, n: nat, c: nat, lo: nat, len: nat, p: nat)
    requires |a| >= HEADER + UNIT * n && Tiled(t, n) && c in t && SameBut(a, b, lo, len)
    requires UnitAt(c) < lo && lo + len <= UnitAt(End(t, c)) && p in t
    ensures p < Units(a) && Order(b, p) == Order(a, p) && Free(b, p) == Free(a, p)
    ensures p != c ==> Next(b, p) == Next(a, p) && Prev(b, p) == Prev(a, p)
  {
    if p != c {
      Apart(t, n, p, c);
      Kept(a, b, lo, len, UnitAt(p) + 1, UnitAt(p) + 8);
      Kept(a, b, lo, len, UnitAt(p) + 8, UnitAt(p) + 15);
    }
  }

  lemma PayloadWriteHeader(a: seq<byte>, b: seq<byte>, lo: nat, len: nat)
    requires |a| >= HEADER && SameBut(a, b, lo, len) && lo >= HEADER
    ensures ViewOf(b).count == ViewOf(a).count && ViewOf(b).size == ViewOf(a).size
    ensures ViewOf(b).heads == ViewOf(a).heads
  {
    Kept(a, b, lo, len, 8, 16);
    Kept(a, b, lo, len, 16, 24);
    forall k | 0 <= k < BUCKETS ensures Head(b, k) == Head(a, k) {
      Kept(a, b, lo, len, HeadAt(k), HeadAt(k) + 8);
    }
  }

  lemma PayloadsApart(a: seq<byte>, b: seq<byte>, t: Tiles, n: nat, c: nat, lo: nat, len: nat)
    requires |a| >= HEADER + UNIT * n && Tiled(t, n) && c in t && SameBut(a, b, lo, len)
    requires UnitAt(c) < lo && lo + len <= UnitAt(End(t, c))
    ensures PayloadsKept(a, b, Live(t) - {c})
  {
    var live := Live(t) - {c};
    forall d | d in live
      ensures UnitAt(d + Pow2(live[d])) <= |a| && Payload(a, d, live[d]) == Payload(b, d, live[d])
    {
      LiveInside(a, t, n, d);
      Apart(t, n, c, d);
      Kept(a, b, lo, len, UnitAt(d) + 1, UnitAt(d + Pow2(live[d])));
    }
  }

  /** A write inside one live block's payload disturbs neither the heap nor any other payload. */
  lemma PayloadWrite(a: seq<byte>, b: seq<byte>, t: Tiles, lists: seq<seq<nat>>, n: nat, c: nat, lo: nat, len: nat)
    requires Layout(a, t, lists, {}, n) && c in Live(t) && SameBut(a, b, lo, len)
    requires UnitAt(c) < lo && lo + len <= UnitAt(End(t, c))
    ensures Layout(b, t, lists, {}, n)
    ensures ViewOf(b).count == ViewOf(a).count && ViewOf(b).size == ViewOf(a).size
    ensures PayloadsKept(a, b, Live(t) - {c})
  {
    PayloadWriteHeader(a, b, lo, len);
    PayloadsApart(a, b, t, n, c, lo, len);
    var v, w := ViewOf(a), ViewOf(b);
    forall p | p in t
      ensures p < |v.order| && w.order[p] == v.order[p] && w.free[p] == v.free[p]
      ensures p != c ==> w.next[p] == v.next[p] && w.prev[p] == v.prev[p]
    {
      PayloadWriteView(a, b, t, n, c, lo, len, p);
    }
    PayloadWriteLists(v, w, t, lists, c);
  }

  lemma PayloadWriteLists(v: View, w: View, t: Tiles, lists: seq<seq<nat>>, c: nat)
    requires Linked(v, lists) && TagsMatch(v, t) && ListsHold(t, lists, {}) && c in t && !t[c].free
    requires |w.order| == |w.free| == |w.next| == |w.prev| == |v.next| && w.heads == v.heads
    requires forall p :: p in t ==> p < |v.order| && w.order[p] == v.order[p] && w.free[p] == v.free[p]
    requires forall p :: p in t && p != c ==> w.next[p] == v.next[p] && w.prev[p] == v.prev[p]
    ensures Linked(w, lists) && TagsMatch(w, t)
  {
    forall k, i | 0 <= k < BUCKETS && 0 <= i < |lists[k]| ensures lists[k][i] in t && lists[k][i] != c {
      assert lists[k][i] in lists[k];
    }
    OtherUnitsKeepLists(v, w, lists);
  }

  /** A header without counts and lists describes an empty heap. */
  lemma EmptyHeap(img: seq<byte>, lists: seq<seq<nat>>)
    requires |img| == HEADER && Size(img) <= HEADER
    requires forall k :: 0 <= k < BUCKETS ==> Head(img, k) == 0
    requires |lists| == BUCKETS && forall k :: 0 <= k < BUCKETS ==> lists[k] == []
    ensures Layout(img, map[], lists, {}, 0)
  {
    forall k | 0 <= k < BUCKETS ensures IsList(ViewOf(img), lists[k], k) {
    }
  }

  /** An all-zero header, the state of a file that `db_init` has created and not yet committed to. */
  lemma ZeroHeader(img: seq<byte>)
    requires img == Zeros(HEADER)
    ensures Size(img) == 0 && Count(img) == 0 && forall k :: 0 <= k < BUCKETS ==> Head(img, k) == 0
  {
    hide Le;
    ZeroNumber(img[8..16]);
    ZeroNumber(img[16..24]);
    forall k | 0 <= k < BUCKETS ensures Head(img, k) == 0 {
      ZeroNumber(img[HeadAt(k)..HeadAt(k) + 8]);
    }
  }

  /** What `db_init` writes: an all-zero header with its size. */
  lemma FreshHeader(img: seq<byte>, r: seq<byte>)
    requires img == Zeros(HEADER) && HEADER < Span(8) && r == SetCount(SetSize(img, HEADER), 0)
    ensures |r| == HEADER && Size(r) == HEADER && Count(r) == 0
    ensures forall k :: 0 <= k < BUCKETS ==> Head(r, k) == 0
  {
    hide SetCount, SetSize, Le;
    ZeroHeader(img);
    var s := SetSize(img, HEADER);
    assert ViewOf(r) == ViewOf(s).(count := 0) && ViewOf(s) == ViewOf(img).(size := HEADER);
    assert ViewOf(r).size == HEADER && ViewOf(r).count == 0;
    forall k | 0 <= k < BUCKETS ensures Head(r, k) == 0 {
      assert ViewOf(r).heads[k] == ViewOf(img).heads[k] == Head(img, k);
    }
  }
}
