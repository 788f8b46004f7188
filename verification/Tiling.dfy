/** The buddy tiling: which blocks the arena is cut into, and what splitting, merging,
    growing and changing a block's status do to it. */
module Tiling {
  import opened Dyadic

  /** A block of 2^order units, on a free list or handed out. */
  datatype Tile = Tile(order: nat, free: bool)

  /** Block starts (in units) with their tiles. */
  type Tiles = map<nat, Tile>

  function End(t: Tiles, b: nat): nat
    requires b in t
  {
    b + Pow2(t[b].order)
  }

  predicate Covers(t: Tiles, b: nat, u: nat) {
    b in t && b <= u < End(t, b)
  }

  /** Block b ends where c starts, or before. */
  predicate Separate(t: Tiles, b: nat, c: nat)
    requires b in t
  {
    End(t, b) <= c
  }

  /** Some block holds unit u. */
  ghost predicate Covered(t: Tiles, u: nat) {
    exists b: nat :: Covers(t, b, u)
  }

  /** The blocks are aligned, lie inside the arena, do not overlap and leave no unit out. */
  ghost predicate Tiled(t: Tiles, n: nat) {
    && (forall b :: b in t ==> Aligned(b, t[b].order) && End(t, b) <= n)
    && (forall b, c {:trigger Separate(t, b, c)} :: b in t && c in t && b < c ==> Separate(t, b, c))
    && (forall u: nat :: u < n ==> Covered(t, u))
  }

  /** b's buddy is a free block of b's own order. */
  predicate FreeBuddy(t: Tiles, b: nat)
    requires b in t
  {
    var c := Buddy(b, t[b].order);
    c in t && t[c].free && t[c].order == t[b].order
  }

  /** No two free buddies of equal order, apart from pairs with x in them. */
  ghost predicate CoalescedBut(t: Tiles, x: nat) {
    forall b :: b in t && t[b].free && b != x && FreeBuddy(t, b) ==> Buddy(b, t[b].order) == x
  }

  /** No two free buddies of equal order. */
  ghost predicate Coalesced(t: Tiles) {
    forall b :: b in t && t[b].free ==> !FreeBuddy(t, b)
  }

  /** Two different blocks lie one behind the other. */
  lemma Apart(t: Tiles, n: nat, b: nat, c: nat)
    requires Tiled(t, n) && b in t && c in t && b != c
    ensures End(t, b) <= c || End(t, c) <= b
  {
    if b < c { assert Separate(t, b, c); } else { assert Separate(t, c, b); }
  }

  /** A buddy position inside the arena is always the start of a block, never
      the inside of one, and that block is no larger. */
  lemma BuddyIsGenuine(t: Tiles, n: nat, b: nat)
    requires Tiled(t, n) && b in t
    requires Buddy(b, t[b].order) < n
    ensures Buddy(b, t[b].order) in t
    ensures t[Buddy(b, t[b].order)].order <= t[b].order
    ensures Buddy(b, t[b].order) != b
  {
    var k := t[b].order;
    var d := Buddy(b, k);
    BuddyIsOtherHalf(b, k);
    assert Covered(t, d);
    var c: nat :| Covers(t, c, d);
    var m := t[c].order;
    if m <= k {
      NoPositionInside(d, k, c, m);
    } else {
      HoldsBuddy(d, k, c, m);
      BuddyInvolution(b, k);
      if b != c { Apart(t, n, b, c); }
    }
  }

  lemma BlocksInside(t: Tiles, n: nat)
    requires Tiled(t, n)
    ensures forall b :: b in t ==> b < n
  {
  }

  function Split(t: Tiles, b: nat): Tiles
    requires b in t && t[b].order > 0
  {
    var half := Tile(t[b].order - 1, true);
    t[b := half][b + Pow2(t[b].order - 1) := half]
  }

  lemma SplitFacts(t: Tiles, b: nat)
    requires b in t && t[b].order > 0
    ensures var d := b + Pow2(t[b].order - 1);
      && b in Split(t, b) && d in Split(t, b) && b != d
      && Split(t, b)[b] == Split(t, b)[d] == Tile(t[b].order - 1, true)
  {
  }

  lemma SplitTiles(t: Tiles, n: nat, b: nat)
    requires Tiled(t, n) && b in t && t[b].order > 0
    ensures b + Pow2(t[b].order - 1) !in t
    ensures Tiled(Split(t, b), n)
  {
    var k := t[b].order - 1;
    var d := b + Pow2(k);
    var s := Split(t, b);
    if d in t { Apart(t, n, b, d); }
    AlignedWeaker(b, k + 1, k);
    AlignedSum(b, k);
    assert End(t, b) == End(s, d);
    forall u: nat | u < n ensures Covered(s, u) {
      assert Covered(t, u);
      var c: nat :| Covers(t, c, u);
      if c != b { assert Covers(s, c, u); }
      else if u < d { assert Covers(s, b, u); }
      else { assert Covers(s, d, u); }
    }
    forall x, y | x in s && y in s && x < y ensures Separate(s, x, y) {
      var x0 := if x == d then b else x;
      var y0 := if y == d then b else y;
      if x0 != y0 { Apart(t, n, x0, y0); }
    }
  }

  /** The blocks after merging the free block b with its free buddy of equal order. */
  function Merge(t: Tiles, b: nat): Tiles
    requires b in t && FreeBuddy(t, b)
  {
    var d := Buddy(b, t[b].order);
    var lo := if d < b then d else b;
    (map c | c in t && c != b && c != d :: t[c])[lo := Tile(t[b].order + 1, true)]
  }

  lemma MergeTiles(t: Tiles, n: nat, b: nat)
    requires Tiled(t, n) && b in t && FreeBuddy(t, b)
    ensures Tiled(Merge(t, b), n)
  {
    var k := t[b].order;
    BuddyIsOtherHalf(b, k);
    var d := Buddy(b, k);
    var lo, hi := if d < b then d else b, if d < b then b else d;
    MergeHalves(t, n, lo, hi, Merge(t, b));
  }

  lemma MergeHalves(t: Tiles, n: nat, lo: nat, hi: nat, s: Tiles)
    requires Tiled(t, n) && lo in t && hi in t && t[lo].order == t[hi].order
    requires hi == lo + Pow2(t[lo].order) && Aligned(lo, t[lo].order + 1)
    requires s == (map c | c in t && c != lo && c != hi :: t[c])[lo := Tile(t[lo].order + 1, true)]
    ensures Tiled(s, n)
  {
    forall u: nat | u < n ensures Covered(s, u) {
      assert Covered(t, u);
      var c: nat :| Covers(t, c, u);
      assert Covers(s, if c == hi then lo else c, u);
    }
    forall x, y | x in s && y in s && x < y ensures Separate(s, x, y) {
      MergeApart(t, n, lo, hi, s, x, y);
    }
    assert End(s, lo) == End(t, hi);
  }

  lemma MergeApart(t: Tiles, n: nat, lo: nat, hi: nat, s: Tiles, x: nat, y: nat)
    requires Tiled(t, n) && lo in t && hi in t && t[lo].order == t[hi].order
    requires hi == lo + Pow2(t[lo].order)
    requires s == (map c | c in t && c != lo && c != hi :: t[c])[lo := Tile(t[lo].order + 1, true)]
    requires x in s && y in s && x < y
    ensures Separate(s, x, y)
  {
    Apart(t, n, x, y);
    if x == lo {
      Apart(t, n, hi, y);
      assert End(s, lo) == End(t, hi);
    } else {
      assert End(s, x) == End(t, x);
    }
  }

  /** Doubling an arena of 2^k units by one free block of order k. */
  lemma GrowTiles(t: Tiles, k: nat)
    requires Tiled(t, Pow2(k))
    ensures Pow2(k) !in t
    ensures Tiled(t[Pow2(k) := Tile(k, true)], Pow2(k + 1))
  {
    var n := Pow2(k);
    var s := t[n := Tile(k, true)];
    Pow2Aligned(k);
    forall u: nat | u < 2 * n ensures Covered(s, u) {
      if u < n {
        assert Covered(t, u);
        var c: nat :| Covers(t, c, u);
        assert c != n;
        assert Covers(s, c, u);
      } else {
        assert Covers(s, n, u);
      }
    }
    forall x, y | x in s && y in s && x < y ensures Separate(s, x, y) {
      if y != n { assert Separate(t, x, y); }
    }
  }

  lemma FirstTile()
    ensures Tiled(map[0 := Tile(0, true)], Pow2(0))
  {
    var s: Tiles := map[0 := Tile(0, true)];
    ZeroAligned(0);
    forall u: nat | u < 1 ensures Covered(s, u) {
      assert Covers(s, 0, u);
    }
  }

  /** Handing a block out or taking it back moves nothing. */
  lemma RetagTiles(t: Tiles, n: nat, b: nat, free: bool)
    requires Tiled(t, n) && b in t
    ensures Tiled(t[b := t[b].(free := free)], n)
  {
    var s := t[b := t[b].(free := free)];
    forall u: nat | u < n ensures Covered(s, u) {
      assert Covered(t, u);
      var c: nat :| Covers(t, c, u);
      assert Covers(s, c, u);
    }
    forall x, y | x in s && y in s && x < y ensures Separate(s, x, y) {
      assert Separate(t, x, y);
    }
  }

  /** Merging a free block with its buddy leaves only pairs with the merged block open. */
  lemma MergeCoalesced(t: Tiles, n: nat, b: nat)
    requires Tiled(t, n) && b in t && FreeBuddy(t, b) && CoalescedBut(t, b)
    ensures CoalescedBut(Merge(t, b), if Buddy(b, t[b].order) < b then Buddy(b, t[b].order) else b)
  {
    var k := t[b].order;
    var d := Buddy(b, k);
    var s := Merge(t, b);
    var lo := if d < b then d else b;
    forall c | c in s && s[c].free && c != lo && FreeBuddy(s, c)
      ensures Buddy(c, s[c].order) == lo
    {
      assert t[c] == s[c];
      var e := Buddy(c, s[c].order);
      if e != lo {
        assert t[e] == s[e];
        assert FreeBuddy(t, c);
      }
    }
  }

  lemma MergeCoalescedIf(t: Tiles, n: nat, b: nat)
    requires Tiled(t, n) && b in t && FreeBuddy(t, b)
    ensures CoalescedBut(t, b) ==>
      CoalescedBut(Merge(t, b), if Buddy(b, t[b].order) < b then Buddy(b, t[b].order) else b)
    ensures Merge(t, b) != t
  {
    if CoalescedBut(t, b) { MergeCoalesced(t, n, b); }
    var lo := if Buddy(b, t[b].order) < b then Buddy(b, t[b].order) else b;
    assert Merge(t, b)[lo].order != t[lo].order;
  }

  /** A position outside the arena is no block. */
  lemma BuddyOutside(t: Tiles, n: nat, b: nat)
    requires Tiled(t, n) && b in t
    ensures Buddy(b, t[b].order) >= n ==> !FreeBuddy(t, b)
  {
    var d := Buddy(b, t[b].order);
    if d in t { assert End(t, d) <= n; }
  }

  /** Once the block that was left open has no free buddy, nothing is open. */
  lemma CoalescedAll(t: Tiles, n: nat, b: nat)
    requires Tiled(t, n) && CoalescedBut(t, b)
    requires b in t && t[b].free ==> !FreeBuddy(t, b)
    ensures Coalesced(t)
  {
    forall c | c in t && t[c].free ensures !FreeBuddy(t, c) {
      if c != b && FreeBuddy(t, c) {
        BuddyInvolution(c, t[c].order);
      }
    }
  }

  /** Splitting b leaves only the pair of its two halves. */
  lemma SplitCoalesced(t: Tiles, n: nat, b: nat)
    requires Tiled(t, n) && b in t && t[b].order > 0 && CoalescedBut(t, b)
    ensures CoalescedBut(Split(t, b), b)
  {
    var k := t[b].order - 1;
    var d := b + Pow2(k);
    var s := Split(t, b);
    SplitTiles(t, n, b);
    AlignedSum(b, k + 1);
    AlignedWeaker(b, k + 1, k);
    BuddyIsOtherHalf(b, k);
    BuddyInvolution(b, k);
    forall c | c in s && s[c].free && c != b && FreeBuddy(s, c)
      ensures Buddy(c, s[c].order) == b
    {
      var e := Buddy(c, s[c].order);
      if c != d && e == d {
        BuddyInvolution(c, k);
      }
    }
  }

  /** Taking a live block back can open only pairs with that block. */
  lemma FreedTiles(t: Tiles, n: nat, b: nat)
    requires Tiled(t, n) && b in t && !t[b].free
    ensures var s := t[b := Tile(t[b].order, true)];
      && (Coalesced(t) ==> CoalescedBut(s, b))
      && (Coalesced(t) ==> (Coalesced(s) <==> !FreeBuddy(t, b)))
      && (FreeBuddy(s, b) <==> FreeBuddy(t, b))
  {
    var s := t[b := Tile(t[b].order, true)];
    BuddyIsOtherHalf(b, t[b].order);
    forall c | c in s && s[c].free && c != b && FreeBuddy(s, c)
      ensures Coalesced(t) ==> Buddy(c, s[c].order) == b
    {
      if Buddy(c, s[c].order) != b { assert FreeBuddy(t, c); }
    }
    RetagTiles(t, n, b, true);
    if Coalesced(t) && !FreeBuddy(t, b) { CoalescedAll(s, n, b); }
    if FreeBuddy(t, b) { assert FreeBuddy(s, b) && s[b].free; }
  }

  lemma NothingTiled(t: Tiles)
    requires Tiled(t, 0)
    ensures t == map[]
  {
    assert t.Keys == {};
  }

  /** The first block of an arena has no buddy. */
  lemma OneTile(t: Tiles, s: Tiles)
    requires Tiled(t, 0) && s == t[0 := Tile(0, true)]
    ensures Coalesced(s)
  {
    NothingTiled(t);
    BuddyIsOtherHalf(0, 0);
    assert s == map[0 := Tile(0, true)];
  }

  lemma SplitCoalescedIf(t: Tiles, n: nat, b: nat)
    requires Tiled(t, n) && b in t && t[b].order > 0
    ensures CoalescedBut(t, b) ==> CoalescedBut(Split(t, b), b)
  {
    if CoalescedBut(t, b) { SplitCoalesced(t, n, b); }
  }

  /** Handing out the one block that was left open closes it. */
  lemma TakenTiles(t: Tiles, n: nat, b: nat)
    requires Tiled(t, n) && b in t && t[b].free
    ensures CoalescedBut(t, b) ==> Coalesced(t[b := Tile(t[b].order, false)])
  {
    var s := t[b := Tile(t[b].order, false)];
    forall c | c in s && s[c].free && FreeBuddy(s, c) ensures !CoalescedBut(t, b) {
      assert FreeBuddy(t, c);
    }
  }

  lemma GrownCoalesced(t: Tiles, s: Tiles, p: nat, k: nat)
    requires p !in t && s == t[p := Tile(k, true)]
    ensures Coalesced(t) ==> CoalescedBut(s, p)
  {
    forall c | c in s && s[c].free && c != p && FreeBuddy(s, c)
      ensures Coalesced(t) ==> Buddy(c, s[c].order) == p
    {
      if Buddy(c, s[c].order) != p { assert FreeBuddy(t, c); }
    }
  }

  /** Doubling a coalesced arena leaves no two free buddies unless all of the lower half was one free block. */
  lemma GrownBuddy(t: Tiles, k: nat)
    requires Tiled(t, Pow2(k))
    ensures var s := t[Pow2(k) := Tile(k, true)];
      Coalesced(t) ==> (Coalesced(s) <==> !(0 in t && t[0] == Tile(k, true)))
  {
    var p, s := Pow2(k), t[Pow2(k) := Tile(k, true)];
    GrowTiles(t, k);
    ZeroAligned(k);
    ZeroAligned(k + 1);
    BuddyIsOtherHalf(0, k);
    BuddyInvolution(0, k);
    assert FreeBuddy(s, p) <==> 0 in t && t[0] == Tile(k, true);
    GrownCoalesced(t, s, p, k);
    if Coalesced(t) && !FreeBuddy(s, p) { CoalescedAll(s, 2 * p, p); }
  }

  /** An arena of two equal halves, the lower handed out and the upper free, is coalesced, and no longer once the
      lower half is marked free and nothing is merged. */
  lemma FreedBesideFree(k: nat)
    ensures var t := map[0 := Tile(k, false), Pow2(k) := Tile(k, true)];
      && Tiled(t, Pow2(k + 1)) && Coalesced(t)
      && FreeBuddy(t, 0) && !Coalesced(t[0 := Tile(k, true)])
  {
    var low: Tiles := map[0 := Tile(k, false)];
    var t, s := low[Pow2(k) := Tile(k, true)], low[0 := Tile(k, true)][Pow2(k) := Tile(k, true)];
    ZeroAligned(k);
    ZeroAligned(k + 1);
    forall u: nat | u < Pow2(k) ensures Covered(low, u) {
      assert Covers(low, 0, u);
    }
    GrowTiles(low, k);
    BuddyIsOtherHalf(0, k);
    BuddyInvolution(0, k);
    assert FreeBuddy(s, 0) && s[0].free;
    assert t[0 := Tile(k, true)] == s;
    assert t == map[0 := Tile(k, false), Pow2(k) := Tile(k, true)];
  }

  lemma CoalescedIsBut(t: Tiles, b: nat)
    ensures Coalesced(t) ==> CoalescedBut(t, b)
  {
  }
}
