/** Which block a request gets, and what the search, the splits and the grows leave of blocks and lists. */
module Fit {
  import opened Dyadic
  import opened Tiling
  import opened HeapImage
  import opened FreeLists
  import opened Heap
  import opened Lists

  /** The list without the first b in it. */
  function Dropped(l: seq<nat>, b: nat): seq<nat> {
    if |l| == 0 then [] else if l[0] == b then l[1..] else [l[0]] + Dropped(l[1..], b)
  }

  lemma {:induction false} DroppedBetween(front: seq<nat>, b: nat, rest: seq<nat>)
    requires b !in front
    ensures Dropped(front + ([b] + rest), b) == front + rest
  {
    var all := front + ([b] + rest);
    if |front| == 0 {
      assert all == [b] + rest && front + rest == rest;
    } else {
      assert all[1..] == front[1..] + ([b] + rest);
      DroppedBetween(front[1..], b, rest);
      assert front == [front[0]] + front[1..];
    }
  }

  lemma NotBefore(l: seq<nat>, i: nat)
    requires i < |l| && Distinct(l)
    ensures l[i] !in l[..i]
  {
    if j :| 0 <= j < i && l[..i][j] == l[i] { assert l[j] == l[i]; }
  }

  /** A list names a block once, so that leaving out its place leaves out the block. */
  lemma DroppedAt(l: seq<nat>, i: nat)
    requires i < |l| && Distinct(l)
    ensures Dropped(l, l[i]) == Without(l, i)
  {
    hide Dropped;
    assert l == l[..i] + ([l[i]] + l[i + 1..]);
    NotBefore(l, i);
    DroppedBetween(l[..i], l[i], l[i + 1..]);
  }

  // ---- Growing ----

  /** The order of the block that a grow of an arena with c lists adds. */
  function NewOrder(c: nat): nat {
    if c == 0 then 0 else c - 1
  }

  /** The blocks after n grows, with nothing merged. */
  function GrownBy(t: Tiles, c: nat, n: nat): Tiles {
    if n == 0 then t else GrownBy(t, c, n - 1)[Arena(c + n - 1) := Tile(NewOrder(c + n - 1), true)]
  }

  /** The lists after one grow. */
  function OneGrown(l: seq<seq<nat>>, c: nat): seq<seq<nat>>
    requires NewOrder(c) < |l|
  {
    l[NewOrder(c) := [Arena(c)] + l[NewOrder(c)]]
  }

  function ListsGrownBy(l: seq<seq<nat>>, c: nat, n: nat): (m: seq<seq<nat>>)
    requires c + n < |l|
    ensures |m| == |l|
  {
    if n == 0 then l else OneGrown(ListsGrownBy(l, c, n - 1), c + n - 1)
  }

  // ---- Splitting ----

  function Upper(b: nat, k: nat): nat { b + Pow2(k) }

  /** The free block b of t has been cut down to order i: at every order passed, its upper half is left over. */
  ghost predicate Halved(t: Tiles, s: Tiles, b: nat, i: nat) {
    && b in t && b in s && i <= t[b].order && s[b].order == i
    && (forall x :: x in t && x != b ==> x in s && s[x] == t[x])
    && (forall k :: i <= k < t[b].order ==> Upper(b, k) in s && s[Upper(b, k)] == Tile(k, true))
    && (forall x :: x in s && x !in t ==> exists k :: i <= k < t[b].order && x == Upper(b, k))
  }

  lemma HalvedOnce(t: Tiles, s: Tiles, b: nat, i: nat)
    requires Halved(t, s, b, i + 1) && Upper(b, i) !in s
    ensures Halved(t, Split(s, b), b, i)
  {
    var r := Split(s, b);
    Uppers(b, i);
    assert Upper(b, i) in r;
  }

  lemma Uppers(b: nat, i: nat)
    ensures Upper(b, i) > b
  {
  }

  lemma HalvedTaken(t: Tiles, s: Tiles, b: nat, i: nat, free: bool)
    requires Halved(t, s, b, i)
    ensures Halved(t, s[b := Tile(i, free)], b, i)
  {
    forall k | i <= k < t[b].order ensures Upper(b, k) != b { Uppers(b, k); }
  }

  /** A block that had the order already is cut nowhere. */
  lemma NotHalved(t: Tiles, s: Tiles, b: nat)
    requires b in t && Halved(t, s, b, t[b].order)
    ensures s == t[b := s[b]]
  {
    assert forall x :: x in s <==> x in t;
  }

  /** The lists after b has left list top and was cut down to order i, b itself being on none. */
  function ListsDown(l: seq<seq<nat>>, b: nat, top: nat, i: nat): (m: seq<seq<nat>>)
    requires i <= top < |l|
    ensures |m| == |l|
    decreases top - i
  {
    if i == top then l[top := Dropped(l[top], b)]
    else
      var m := ListsDown(l, b, top, i + 1);
      m[i := [Upper(b, i)] + m[i]]
  }

  /** Block b was marked free and put first on its list, and nothing else happened. */
  ghost predicate GivenBack(t: Tiles, l: seq<seq<nat>>, t2: Tiles, l2: seq<seq<nat>>, b: nat) {
    && b in t && t[b].order < |l|
    && t2 == t[b := Tile(t[b].order, true)]
    && l2 == l[t[b].order := [b] + l[t[b].order]]
  }

  /** Block b was cut down to order i and handed out, with nothing else done to blocks and lists. */
  ghost predicate HandedOut(t: Tiles, l: seq<seq<nat>>, t2: Tiles, l2: seq<seq<nat>>, b: nat, i: nat) {
    && Halved(t, t2, b, i) && t[b].free && t2[b] == Tile(i, false)
    && t[b].order < |l| && l2 == ListsDown(l, b, t[b].order, i)
  }

  /** A block of the right order is handed out whole. */
  lemma HandedOutWhole(t: Tiles, l: seq<seq<nat>>, t2: Tiles, l2: seq<seq<nat>>, b: nat, i: nat)
    requires HandedOut(t, l, t2, l2, b, i) && t[b].order == i
    ensures t2 == t[b := Tile(i, false)] && l2 == l[i := Dropped(l[i], b)]
  {
    NotHalved(t, t2, b);
  }

  /** One more cut: from the lists with b on list i + 1 to those with both halves on list i. */
  lemma ListsDownOnce(l: seq<seq<nat>>, b: nat, top: nat, i: nat, m: seq<seq<nat>>, r: seq<seq<nat>>)
    requires i < top < |l| && |m| == |l|
    requires m[i + 1 := Dropped(m[i + 1], b)] == ListsDown(l, b, top, i + 1)
    requires var m2 := m[i + 1 := Dropped(m[i + 1], b)]; r == m2[i := [Upper(b, i), b] + m2[i]]
    ensures r[i := Dropped(r[i], b)] == ListsDown(l, b, top, i)
  {
    var m2 := m[i + 1 := Dropped(m[i + 1], b)];
    Uppers(b, i);
    assert r[i] == [Upper(b, i)] + ([b] + m2[i]);
    DroppedBetween([Upper(b, i)], b, m2[i]);
    assert r[i := Dropped(r[i], b)] == m2[i := [Upper(b, i)] + m2[i]];
  }

  /** Block b has left list k + 1 and both of its halves head list k, the upper one first. */
  ghost predicate OneCut(l: seq<seq<nat>>, b: nat, k: nat, r: seq<seq<nat>>) {
    && k + 1 < |l|
    && var m := l[k + 1 := Dropped(l[k + 1], b)];
    r == m[k := [Upper(b, k), b] + m[k]]
  }

  lemma OneCutSteps(l: seq<seq<nat>>, b: nat, k: nat, d: nat, m: seq<seq<nat>>, r: seq<seq<nat>>)
    requires k + 1 < |l| && d == b + Pow2(k)
    requires m == l[k + 1 := Dropped(l[k + 1], b)] && r == m[k := [d, b] + m[k]]
    ensures OneCut(l, b, k, r)
  {
  }

  /** Block b has been cut down to order i and is still listed. */
  ghost predicate CutTo(t: Tiles, l: seq<seq<nat>>, t2: Tiles, l2: seq<seq<nat>>, b: nat, i: nat) {
    && Halved(t, t2, b, i) && t[b].order < |l| == |l2|
    && l2[i := Dropped(l2[i], b)] == ListsDown(l, b, t[b].order, i)
  }

  lemma CutToNone(t: Tiles, l: seq<seq<nat>>, b: nat)
    requires b in t && t[b].order < |l|
    ensures CutTo(t, l, t, l, b, t[b].order)
  {
  }

  /** What `split_bucket` does to blocks and lists is one more cut. */
  lemma CutToOnce(t: Tiles, l: seq<seq<nat>>, t1: Tiles, l1: seq<seq<nat>>, b: nat, i: nat, l2: seq<seq<nat>>)
    requires CutTo(t, l, t1, l1, b, i + 1) && b + Pow2(i) !in t1 && OneCut(l1, b, i, l2)
    ensures b in t1 && t1[b].order > 0 && CutTo(t, l, Split(t1, b), l2, b, i)
  {
    HalvedOnce(t, t1, b, i);
    ListsDownOnce(l, b, t[b].order, i, l1, l2);
  }

  /** A block that has been cut down and then leaves its list is handed out. */
  lemma CutAndTaken(t: Tiles, l: seq<seq<nat>>, t1: Tiles, l1: seq<seq<nat>>, b: nat, i: nat)
    requires CutTo(t, l, t1, l1, b, i) && t[b].free
    ensures HandedOut(t, l, t1[b := Tile(i, false)], l1[i := Dropped(l1[i], b)], b, i)
  {
    HalvedTaken(t, t1, b, i, false);
  }

  // ---- Choosing ----

  /** There is a free block of order i or more. */
  ghost predicate FreeFrom(t: Tiles, i: nat) {
    exists b :: b in t && t[b].free && t[b].order >= i
  }

  /** No free block of order i or more is smaller. */
  ghost predicate BestFit(t: Tiles, b: nat, i: nat) {
    && b in t && t[b].free && t[b].order >= i
    && forall x :: x in t && t[x].free && t[x].order >= i ==> t[b].order <= t[x].order
  }

  /** The number of lists that the search for order i ends with when it has to grow c of them. */
  function MostGrows(i: nat, c: nat): nat {
    if i + 1 < c then c + 1 else if i < c then c + 2 else i + 3
  }

  /** Where the search for order i ends. With a block that is large enough it takes the first of the first list that
      has one. Without, the last grow's new block: one grow suffices when there is an order above i to come from, two
      are made when i is the largest order, and from fewer orders the arena first grows up to i. */
  ghost predicate Chosen(t: Tiles, l: seq<seq<nat>>, c: nat, t2: Tiles, l2: seq<seq<nat>>, c2: nat,
                         merging: bool, i: nat, b: nat, j: nat)
    requires |l| == |l2| == BUCKETS
  {
    if FreeFrom(t, i) then
      t2 == t && l2 == l && c2 == c && BestFit(t, b, i) && j == t[b].order < BUCKETS && l[j] != [] && b == l[j][0]
    else
      i < c || !merging ==>
        && c <= c2 < BUCKETS && t2 == GrownBy(t, c, c2 - c) && l2 == ListsGrownBy(l, c, c2 - c)
        && (if i == 0 && c == 0 then b == 0 && j == 0 && c2 == 1
            else b == Pow2(j) && c2 == MostGrows(i, c) && j == if i + 1 < c then c - 1 else if i < c then c else i + 1)
  }

  // ---- The search, step by step ----

  /** The blocks and lists are those of t0 and l0 after c - c0 grows with nothing merged. */
  ghost predicate Grown(t0: Tiles, l0: seq<seq<nat>>, c0: nat, t: Tiles, l: seq<seq<nat>>, c: nat) {
    && c0 <= c < BUCKETS == |l0| && t == GrownBy(t0, c0, c - c0) && l == ListsGrownBy(l0, c0, c - c0)
  }

  lemma GrownOnce(t0: Tiles, l0: seq<seq<nat>>, c0: nat, t: Tiles, l: seq<seq<nat>>, c: nat)
    requires Grown(t0, l0, c0, t, l, c) && c + 1 < BUCKETS
    ensures Grown(t0, l0, c0, t[Arena(c) := Tile(NewOrder(c), true)], OneGrown(l, c), c + 1)
  {
  }

  ghost predicate EmptyFrom(l: seq<seq<nat>>, i: nat) {
    |l| == BUCKETS && forall k :: i <= k < BUCKETS ==> l[k] == []
  }

  lemma SomeFree(t: Tiles, l: seq<seq<nat>>, i: nat, k: nat)
    requires ListsHold(t, l, {}) && i <= k < BUCKETS && l[k] != []
    ensures FreeFrom(t, i)
  {
    var b := l[k][0];
    assert b in l[k];
    assert b in t && t[b].order == k;
  }

  lemma NoneFree(t: Tiles, l: seq<seq<nat>>, i: nat)
    requires ListsHold(t, l, {})
    ensures !FreeFrom(t, i) ==> EmptyFrom(l, i)
  {
    forall k | i <= k < BUCKETS && l[k] != [] ensures FreeFrom(t, i) { SomeFree(t, l, i, k); }
  }

  /** While the search still grows up to order i. */
  ghost predicate Begun(t0: Tiles, l0: seq<seq<nat>>, c0: nat, t: Tiles, l: seq<seq<nat>>, c: nat,
                        plain: bool, i: nat) {
    && c0 <= c <= (if i < c0 then c0 else i + 1) && |l| == BUCKETS
    && (FreeFrom(t0, i) ==> t == t0 && l == l0 && c == c0)
    && (!FreeFrom(t0, i) && plain ==>
          Grown(t0, l0, c0, t, l, c) && if i == 0 && c > c0 then c == 1 && l[0] == [0] else EmptyFrom(l, i))
  }

  lemma BegunOnce(t0: Tiles, l0: seq<seq<nat>>, c0: nat, t: Tiles, l: seq<seq<nat>>, c: nat, plain: bool, i: nat,
                  t2: Tiles, l2: seq<seq<nat>>)
    requires Begun(t0, l0, c0, t, l, c, plain, i) && !FreeFrom(t0, i) && c <= i < BUCKETS - 1 && |l2| == BUCKETS
    requires plain ==> t2 == t[Arena(c) := Tile(NewOrder(c), true)] && l2 == OneGrown(l, c)
    ensures Begun(t0, l0, c0, t2, l2, c + 1, plain, i)
  {
    if plain { GrownOnce(t0, l0, c0, t, l, c); }
  }

  /** While the search looks for a list above i, at j. With a free block that is large enough, some list m has one. */
  ghost predicate Looking(t0: Tiles, l0: seq<seq<nat>>, c0: nat, t: Tiles, l: seq<seq<nat>>, c: nat,
                          plain: bool, i: nat, m: nat, j: nat) {
    var c1 := if i < c0 then c0 else i + 1;
    && |l| == BUCKETS && i < j <= c && c1 <= c <= c1 + 2 && c < BUCKETS
    && (c == c1 ==> (j < c || j == i + 1) && forall k :: i <= k < j ==> l[k] == [])
    && (c == c1 + 1 ==> l[j] != [] || j == i + 1 == c - 1)
    && (c == c1 + 2 ==> l[j] != [] && i + 1 == c1)
    && (FreeFrom(t0, i) ==> t == t0 && l == l0 && c == c1 == c0 && i <= m < c && l[m] != [])
    && (!FreeFrom(t0, i) && plain ==>
          && Grown(t0, l0, c0, t, l, c) && (i > 0 || c0 > 0)
          && (c == c1 ==> EmptyFrom(l, i))
          && (c == c1 + 1 ==> if i + 1 < c1 then j == c1 - 1 && l[j] == [Pow2(j)] else j == c1 && l[j] == [])
          && (c == c1 + 2 ==> j == c1 && l[j] == [Pow2(j)]))
  }

  lemma LookingStarts(t0: Tiles, l0: seq<seq<nat>>, c0: nat, t: Tiles, l: seq<seq<nat>>, c: nat,
                      plain: bool, i: nat, m: nat)
    requires Begun(t0, l0, c0, t, l, c, plain, i) && i < c < BUCKETS == |l0| && l[i] == []
    requires FreeFrom(t0, i) ==> i <= m < c0 && m < BUCKETS && l0[m] != []
    ensures Looking(t0, l0, c0, t, l, c, plain, i, m, i + 1)
  {
  }

  /** When the search finds list j empty and has no order above it, it may grow, and nothing will merge. */
  lemma MayGrow(t0: Tiles, l0: seq<seq<nat>>, c0: nat, t: Tiles, l: seq<seq<nat>>, c: nat,
                plain: bool, i: nat, m: nat, j: nat)
    requires Looking(t0, l0, c0, t, l, c, plain, i, m, j) && l[j] == []
    ensures 0 < j <= c && c <= i + 3 + c0
    ensures j + 1 >= c ==> !FreeFrom(t0, i) && l[c - 1] == [] && c + 1 <= MostGrows(i, c0)
  {
  }

  lemma LookedOn(t0: Tiles, l0: seq<seq<nat>>, c0: nat, t: Tiles, l: seq<seq<nat>>, c: nat,
                 plain: bool, i: nat, m: nat, j: nat, t2: Tiles, l2: seq<seq<nat>>, c2: nat, k: nat)
    requires Looking(t0, l0, c0, t, l, c, plain, i, m, j) && l[j] == [] && c + 1 < BUCKETS
    requires if j + 1 < c then k == j + 1 && t2 == t && l2 == l && c2 == c
      else k == j && t2 == t[Arena(c) := Tile(NewOrder(c), true)] && l2 == OneGrown(l, c) && c2 == c + 1
    ensures Looking(t0, l0, c0, t2, l2, c2, plain, i, m, k)
  {
    MayGrow(t0, l0, c0, t, l, c, plain, i, m, j);
    if j + 1 >= c && plain { GrownOnce(t0, l0, c0, t, l, c); }
  }

  lemma BestOfLists(t: Tiles, l: seq<seq<nat>>, i: nat, b: nat)
    requires ListsHold(t, l, {}) && b in t && t[b].free && t[b].order >= i
    requires forall k :: i <= k < t[b].order && k < BUCKETS ==> l[k] == []
    ensures BestFit(t, b, i)
  {
    forall x | x in t && t[x].free && t[x].order >= i ensures t[b].order <= t[x].order {
      if t[x].order < t[b].order { EmptyList(t, l, t[x].order); }
    }
  }

  /** The search ends at once, with the first block of list i. */
  lemma ChosenAtOnce(t0: Tiles, l0: seq<seq<nat>>, c0: nat, t: Tiles, l: seq<seq<nat>>, c: nat,
                     merging: bool, i: nat, b: nat)
    requires Begun(t0, l0, c0, t, l, c, !merging || i < c0, i) && i < c < BUCKETS == |l0| && l[i] != [] && b == l[i][0]
    requires ListsHold(t, l, {}) && b in t && t[b] == Tile(i, true)
    ensures Chosen(t0, l0, c0, t, l, c, merging, i, b, i)
    ensures i < c <= if FreeFrom(t0, i) then c0 else MostGrows(i, c0)
  {
    BestOfLists(t, l, i, b);
  }

  /** The search ends with the first block of list j. */
  lemma ChosenLater(t0: Tiles, l0: seq<seq<nat>>, c0: nat, t: Tiles, l: seq<seq<nat>>, c: nat,
                    merging: bool, i: nat, m: nat, b: nat, j: nat)
    requires |l0| == BUCKETS && Looking(t0, l0, c0, t, l, c, !merging || i < c0, i, m, j) && l[j] != [] && b == l[j][0]
    requires ListsHold(t, l, {}) && b in t && t[b] == Tile(j, true)
    ensures Chosen(t0, l0, c0, t, l, c, merging, i, b, j)
    ensures i < j && i < c <= if FreeFrom(t0, i) then c0 else MostGrows(i, c0)
  {
    if FreeFrom(t0, i) { BestOfLists(t, l, i, b); }
  }

  /** With a large enough block the smallest such is handed out, and whole when it has the order asked for. */
  lemma ChosenFits(t: Tiles, l: seq<seq<nat>>, c: nat, t2: Tiles, l2: seq<seq<nat>>, c2: nat, merging: bool,
                   i: nat, b: nat, t3: Tiles, l3: seq<seq<nat>>)
    requires |l| == |l2| == BUCKETS && b in t2
    requires Chosen(t, l, c, t2, l2, c2, merging, i, b, t2[b].order) && HandedOut(t2, l2, t3, l3, b, i)
    ensures FreeFrom(t, i) ==> BestFit(t, b, i) && HandedOut(t, l, t3, l3, b, i)
    ensures (exists x :: x in t && t[x] == Tile(i, true)) ==> t3 == t[b := Tile(i, false)]
  {
    hide HandedOut;
    if x :| x in t && t[x] == Tile(i, true) {
      assert FreeFrom(t, i);
      HandedOutWhole(t, l, t3, l3, b, i);
    }
  }
}
