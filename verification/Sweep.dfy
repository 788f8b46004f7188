/** Dirty regions and the sweep of `db_commit` over their sorted boundaries. */
module Sweep {

  datatype Region = Region(lo: nat, hi: nat)

  datatype Boundary = Boundary(start: bool, pos: nat)

  predicate Within(r: Region, x: nat) { r.lo <= x < r.hi }

  /** Some region of rs holds byte x. */
  ghost predicate InSome(rs: seq<Region>, x: nat) {
    exists i :: 0 <= i < |rs| && Within(rs[i], x)
  }

  ghost predicate NonEmpty(rs: seq<Region>) {
    forall i :: 0 <= i < |rs| ==> rs[i].lo < rs[i].hi
  }

  /** The array `db_invalidate_region` builds: a start and an end per region. */
  function Boundaries(rs: seq<Region>): (bs: seq<Boundary>)
    ensures |bs| == 2 * |rs|
  {
    if |rs| == 0 then [] else
      Boundaries(rs[..|rs| - 1]) +
      [Boundary(true, rs[|rs| - 1].lo), Boundary(false, rs[|rs| - 1].hi)]
  }

  /** bs holds the two boundaries of each region of rs, in order. */
  ghost predicate Pairs(bs: seq<Boundary>, rs: seq<Region>) {
    && |bs| == 2 * |rs|
    && forall i {:trigger rs[i]} :: 0 <= i < |rs| ==>
         bs[2 * i] == Boundary(true, rs[i].lo) && bs[2 * i + 1] == Boundary(false, rs[i].hi)
  }

  /** bs holds the boundaries of rs, non-empty regions below n. */
  ghost predicate BoundariesOf(bs: seq<Boundary>, rs: seq<Region>, n: nat) {
    && Pairs(bs, rs)
    && NonEmpty(rs)
    && forall i :: 0 <= i < |rs| ==> rs[i].hi <= n
  }

  lemma BoundariesOfLonger(bs: seq<Boundary>, rs: seq<Region>, n: nat, m: nat)
    requires BoundariesOf(bs, rs, n) && n <= m
    ensures BoundariesOf(bs, rs, m)
  {
  }

  lemma {:induction false} PairsAreBoundaries(bs: seq<Boundary>, rs: seq<Region>)
    requires Pairs(bs, rs)
    ensures bs == Boundaries(rs)
  {
    if |rs| > 0 {
      var n := |rs| - 1;
      PairsAreBoundaries(bs[..2 * n], rs[..n]);
      assert bs == bs[..2 * n] + [bs[2 * n], bs[2 * n + 1]];
      assert rs[n] == rs[n];
    }
  }

  /** Sorted by position; boundaries at one position come in any order. */
  ghost predicate SortedByPosition(bs: seq<Boundary>) {
    forall i, j :: 0 <= i < j < |bs| ==> bs[i].pos <= bs[j].pos
  }

  ghost predicate Ascending(rs: seq<Region>) {
    && NonEmpty(rs)
    && forall i, j :: 0 <= i < j < |rs| ==> rs[i].hi <= rs[j].lo
  }

  /** The loop variables of the sweep and the regions written so far. */
  datatype State = State(nesting: int, start: nat, out: seq<Region>)

  function Step(s: State, b: Boundary): State {
    if b.start then
      State(s.nesting + 1, if s.nesting == 0 then b.pos else s.start, s.out)
    else if s.nesting - 1 == 0 then
      State(0, s.start, s.out + [Region(s.start, b.pos)])
    else
      s.(nesting := s.nesting - 1)
  }

  function Run(bs: seq<Boundary>): State {
    if |bs| == 0 then State(0, 0, []) else Step(Run(bs[..|bs| - 1]), bs[|bs| - 1])
  }

  lemma RunStep(order: seq<Boundary>, i: nat)
    requires i < |order|
    ensures Run(order[..i + 1]) == Step(Run(order[..i]), order[i])
  {
    assert order[..i + 1][..i] == order[..i];
  }

  /** The sweep only adds to what it has emitted. */
  lemma {:induction false} RunGrows(order: seq<Boundary>, i: nat)
    requires i <= |order|
    ensures Run(order[..i]).out <= Run(order).out
    decreases |order| - i
  {
    if i < |order| {
      RunStep(order, i);
      RunGrows(order, i + 1);
    } else {
      assert order[..i] == order;
    }
  }

  /** Regions that are non-empty and end at or below n. */
  ghost predicate Inside(rs: seq<Region>, n: nat) {
    forall j :: 0 <= j < |rs| ==> rs[j].lo < rs[j].hi <= n
  }

  // ---- Counting boundaries ----

  function Weigh(bs: seq<Boundary>, w: Boundary -> int): int {
    if |bs| == 0 then 0 else Weigh(bs[..|bs| - 1], w) + w(bs[|bs| - 1])
  }

  function Sign(): Boundary -> int {
    (b: Boundary) => if b.start then 1 else -1
  }

  /** Counts the boundaries at or before x. */
  function UpTo(x: nat): Boundary -> int {
    (b: Boundary) => if b.pos > x then 0 else if b.start then 1 else -1
  }

  /** Counts the starts before x against the ends at or before x. */
  function StrictlyOpen(x: nat): Boundary -> int {
    (b: Boundary) => if b.start then (if b.pos < x then 1 else 0) else (if b.pos <= x then -1 else 0)
  }

  lemma {:induction false} WeighConcat(a: seq<Boundary>, b: seq<Boundary>, w: Boundary -> int)
    ensures Weigh(a + b, w) == Weigh(a, w) + Weigh(b, w)
  {
    if |b| == 0 {
      assert a + b == a;
    } else {
      assert (a + b)[..|a + b| - 1] == a + b[..|b| - 1];
      WeighConcat(a, b[..|b| - 1], w);
    }
  }

  lemma {:induction false} WeighAtMost(bs: seq<Boundary>, v: Boundary -> int, w: Boundary -> int)
    requires forall i :: 0 <= i < |bs| ==> v(bs[i]) <= w(bs[i])
    ensures Weigh(bs, v) <= Weigh(bs, w)
  {
    if |bs| > 0 { WeighAtMost(bs[..|bs| - 1], v, w); }
  }

  lemma {:induction false} WeighZero(bs: seq<Boundary>, w: Boundary -> int)
    requires forall i :: 0 <= i < |bs| ==> w(bs[i]) == 0
    ensures Weigh(bs, w) == 0
  {
    if |bs| > 0 { WeighZero(bs[..|bs| - 1], w); }
  }

  lemma TakenOut(p: seq<Boundary>, x: Boundary, q: seq<Boundary>)
    ensures multiset(p + ([x] + q)) == multiset(p + q) + multiset{x}
  {
    assert p + ([x] + q) == (p + [x]) + q;
  }

  lemma WeighTakenOut(p: seq<Boundary>, x: Boundary, q: seq<Boundary>, w: Boundary -> int)
    ensures Weigh(p + ([x] + q), w) == Weigh(p + q, w) + w(x)
  {
    WeighConcat(p, q, w);
    WeighConcat(p, [x] + q, w);
    WeighConcat([x], q, w);
    assert Weigh([x], w) == w(x) by { assert [x][..0] == []; }
  }

  /** The last boundary of a, found in a permutation of a. */
  lemma FindLast(a: seq<Boundary>, b: seq<Boundary>) returns (i: nat)
    requires |a| > 0 && multiset(a) == multiset(b)
    ensures i < |b| && b[i] == a[|a| - 1]
    ensures multiset(a[..|a| - 1]) == multiset(b[..i] + b[i + 1..])
  {
    var x, rest := a[|a| - 1], a[..|a| - 1];
    assert x in multiset(b);
    i :| 0 <= i < |b| && b[i] == x;
    TakenOut(b[..i], x, b[i + 1..]);
    assert b == b[..i] + ([x] + b[i + 1..]);
    TakenOut(rest, x, []);
    assert a == rest + ([x] + []) && rest + [] == rest;
    SameRest(multiset(rest), multiset(b[..i] + b[i + 1..]), x);
  }

  lemma SameRest(m: multiset<Boundary>, n: multiset<Boundary>, x: Boundary)
    requires m + multiset{x} == n + multiset{x}
    ensures m == n
  {
    assert m == (m + multiset{x}) - multiset{x};
  }

  /** Sorting does not change what is counted. */
  lemma {:induction false} WeighPermuted(a: seq<Boundary>, b: seq<Boundary>, w: Boundary -> int)
    requires multiset(a) == multiset(b)
    ensures Weigh(a, w) == Weigh(b, w)
    decreases |a|
  {
    if |a| == 0 {
      assert |multiset(b)| == 0;
    } else {
      var i := FindLast(a, b);
      var p, x, q := b[..i], b[i], b[i + 1..];
      WeighPermuted(a[..|a| - 1], p + q, w);
      WeighTakenOut(p, x, q, w);
      assert b == p + ([x] + q);
    }
  }

  /** Counting a region's two boundaries up to x tells whether the region holds x. */
  lemma {:induction false} UpToIsDepth(rs: seq<Region>, x: nat)
    requires NonEmpty(rs)
    ensures Weigh(Boundaries(rs), UpTo(x)) >= 0
    ensures Weigh(Boundaries(rs), UpTo(x)) > 0 <==> InSome(rs, x)
    ensures Weigh(Boundaries(rs), StrictlyOpen(x)) >= 0
  {
    if |rs| > 0 {
      var n := |rs| - 1;
      var a, b := Boundary(true, rs[n].lo), Boundary(false, rs[n].hi);
      UpToIsDepth(rs[..n], x);
      PairWeight(Boundaries(rs[..n]), a, b, UpTo(x));
      PairWeight(Boundaries(rs[..n]), a, b, StrictlyOpen(x));
      if InSome(rs[..n], x) {
        var i :| 0 <= i < n && Within(rs[..n][i], x);
        assert Within(rs[i], x);
      }
      if InSome(rs, x) && !Within(rs[n], x) {
        var i :| 0 <= i < |rs| && Within(rs[i], x);
        assert Within(rs[..n][i], x);
      }
    }
  }

  lemma PairWeight(bs: seq<Boundary>, a: Boundary, b: Boundary, w: Boundary -> int)
    ensures Weigh(bs + [a, b], w) == Weigh(bs, w) + w(a) + w(b)
  {
    assert (bs + [a, b])[..|bs| + 1] == bs + [a];
    assert (bs + [a])[..|bs|] == bs;
  }

  // ---- The sweep ----

  /** The nesting counter is the sum of what has been read. */
  lemma {:induction false} NestingIsSum(bs: seq<Boundary>)
    ensures Run(bs).nesting == Weigh(bs, Sign())
  {
    if |bs| > 0 { NestingIsSum(bs[..|bs| - 1]); }
  }

  ghost predicate IsSortOf(order: seq<Boundary>, rs: seq<Region>) {
    multiset(order) == multiset(Boundaries(rs)) && SortedByPosition(order) && NonEmpty(rs)
  }

  /** Boundaries at or after x never add to what is strictly open at x, and an end at x takes one off. */
  lemma {:induction false} TailCloses(bs: seq<Boundary>, x: nat, t: nat)
    requires forall i :: 0 <= i < |bs| ==> bs[i].pos >= x
    ensures Weigh(bs, StrictlyOpen(x)) <= 0
    ensures t < |bs| && bs[t] == Boundary(false, x) ==> Weigh(bs, StrictlyOpen(x)) <= -1
  {
    if |bs| > 0 { TailCloses(bs[..|bs| - 1], x, t); }
  }

  /** The counter covers every end that is still to come at the current position. */
  lemma NestingCoversTail(rs: seq<Region>, order: seq<Boundary>, i: nat, x: nat)
    requires IsSortOf(order, rs) && i <= |order|
    requires forall j :: 0 <= j < i ==> order[j].pos <= x
    ensures Run(order[..i]).nesting >= -Weigh(order[i..], StrictlyOpen(x))
  {
    hide Run, Weigh, Boundaries, InSome;
    NestingIsSum(order[..i]);
    UpToIsDepth(rs, x);
    WeighPermuted(order, Boundaries(rs), StrictlyOpen(x));
    assert order == order[..i] + order[i..];
    WeighConcat(order[..i], order[i..], StrictlyOpen(x));
    WeighAtMost(order[..i], StrictlyOpen(x), Sign());
  }

  /** However ties are broken, the counter never goes below zero. */
  lemma NestingNonNegative(rs: seq<Region>, order: seq<Boundary>, i: nat)
    requires IsSortOf(order, rs) && i <= |order|
    ensures Run(order[..i]).nesting >= 0
  {
    if i > 0 {
      var x := order[i - 1].pos;
      NestingCoversTail(rs, order, i, x);
      TailCloses(order[i..], x, 0);
    }
  }

  /** Between two boundaries the counter is positive exactly inside some region. */
  lemma NestingIsCoverage(rs: seq<Region>, order: seq<Boundary>, i: nat, x: nat)
    requires IsSortOf(order, rs) && i <= |order|
    requires forall j :: 0 <= j < i ==> order[j].pos <= x
    requires forall j :: i <= j < |order| ==> order[j].pos > x
    ensures Run(order[..i]).nesting > 0 <==> InSome(rs, x)
    ensures i == |order| ==> Run(order[..i]).nesting == 0
  {
    hide Run, Weigh, Boundaries, InSome;
    NestingIsSum(order[..i]);
    UpToIsDepth(rs, x);
    WeighPermuted(order, Boundaries(rs), UpTo(x));
    assert order == order[..i] + order[i..];
    WeighConcat(order[..i], order[i..], UpTo(x));
    WeighAtMost(order[..i], UpTo(x), Sign());
    WeighAtMost(order[..i], Sign(), UpTo(x));
    WeighZero(order[i..], UpTo(x));
    if i == |order| {
      WeighPermuted(order, Boundaries(rs), Sign());
      SumIsZero(rs);
      assert order[..i] == order;
    }
  }

  lemma {:induction false} SumIsZero(rs: seq<Region>)
    ensures Weigh(Boundaries(rs), Sign()) == 0
  {
    if |rs| > 0 {
      var n := |rs| - 1;
      SumIsZero(rs[..n]);
      PairWeight(Boundaries(rs[..n]), Boundary(true, rs[n].lo), Boundary(false, rs[n].hi), Sign());
    }
  }

  /** The last position read, or zero. */
  function Front(order: seq<Boundary>, i: nat): nat
    requires i <= |order|
  {
    if i == 0 then 0 else order[i - 1].pos
  }

  /** What holds after i boundaries: the written regions are ascending and end by the front,
      an open region starts after them and before the front, and both together cover
      exactly the dirty bytes before the front. */
  ghost predicate SweepInv(rs: seq<Region>, order: seq<Boundary>, i: nat)
    requires i <= |order|
  {
    var s := Run(order[..i]);
    && s.nesting >= 0
    && Ascending(s.out)
    && (forall j :: 0 <= j < |s.out| ==> s.out[j].hi <= Front(order, i))
    && (s.nesting > 0 ==> s.start <= Front(order, i))
    && (s.nesting > 0 ==> forall j :: 0 <= j < |s.out| ==> s.out[j].hi <= s.start)
    && (forall x: nat :: x < Front(order, i) ==>
          (InSome(rs, x) <==> InSome(s.out, x) || (s.nesting > 0 && s.start <= x)))
  }

  lemma SweepStep(rs: seq<Region>, order: seq<Boundary>, i: nat)
    requires IsSortOf(order, rs) && i < |order| && SweepInv(rs, order, i)
    ensures SweepInv(rs, order, i + 1)
  {
    var b := order[i];
    assert order[..i + 1][..i] == order[..i];
    var s := Run(order[..i]);
    var t := Run(order[..i + 1]);
    assert t == Step(s, b);
    NestingNonNegative(rs, order, i + 1);
    var q, p := Front(order, i), b.pos;
    forall x: nat | x < p
      ensures InSome(rs, x) <==> InSome(s.out, x) || (s.nesting > 0 && s.start <= x)
    {
      if x >= q {
        NestingIsCoverage(rs, order, i, x);
        assert !InSome(s.out, x);
      }
    }
    if !b.start && t.nesting == 0 {
      TieNeverEmpty(rs, order, i);
      var r := Region(s.start, p);
      forall x: nat | x < p
        ensures InSome(t.out, x) <==> InSome(s.out, x) || s.start <= x
      {
        if InSome(s.out, x) {
          var j :| 0 <= j < |s.out| && Within(s.out[j], x);
          assert Within(t.out[j], x);
        }
        if s.start <= x { assert Within(t.out[|s.out|], x); }
        if InSome(t.out, x) {
          var j :| 0 <= j < |t.out| && Within(t.out[j], x);
          if j < |s.out| { assert Within(s.out[j], x); }
        }
      }
    }
  }

  /** A region that is open is never closed at the position it was opened at. */
  lemma TieNeverEmpty(rs: seq<Region>, order: seq<Boundary>, i: nat)
    requires IsSortOf(order, rs) && i < |order| && !order[i].start
    requires SweepInv(rs, order, i) && Run(order[..i]).nesting > 0
    ensures Run(order[..i]).start < order[i].pos
  {
    var p := order[i].pos;
    var j := OpenedAt(order, i);
    if Run(order[..i]).start == p {
      NestingCoversTail(rs, order, j, p);
      assert order[j..][i - j] == order[i];
      TailCloses(order[j..], p, i - j);
    }
  }

  /** The boundary that opened the current region. */
  lemma {:induction false} OpenedAt(order: seq<Boundary>, i: nat) returns (j: nat)
    requires i <= |order| && Run(order[..i]).nesting > 0
    ensures j < i && order[j].pos == Run(order[..i]).start
    ensures Run(order[..j]).nesting == 0
  {
    var k := i - 1;
    assert order[..i][..k] == order[..k];
    if Run(order[..k]).nesting == 0 {
      j := k;
    } else {
      j := OpenedAt(order, k);
    }
  }

  lemma {:induction false} SweepHolds(rs: seq<Region>, order: seq<Boundary>, i: nat)
    requires IsSortOf(order, rs) && i <= |order|
    ensures SweepInv(rs, order, i)
  {
    if i > 0 {
      SweepHolds(rs, order, i - 1);
      SweepStep(rs, order, i - 1);
    }
  }

  /** The sweep ends balanced, and what it writes is ascending, disjoint and
      exactly the union of the dirty regions. */
  lemma SweepIsUnion(rs: seq<Region>, order: seq<Boundary>)
    requires IsSortOf(order, rs)
    ensures Run(order).nesting == 0
    ensures Ascending(Run(order).out)
    ensures forall x: nat :: InSome(Run(order).out, x) <==> InSome(rs, x)
  {
    var n := |order|;
    assert order[..n] == order;
    SweepHolds(rs, order, n);
    NestingIsCoverage(rs, order, n, Front(order, n));
    var out := Run(order).out;
    forall x: nat ensures InSome(out, x) <==> InSome(rs, x) {
      if x >= Front(order, n) {
        NestingIsCoverage(rs, order, n, x);
        assert !InSome(out, x);
      }
    }
  }

  /** Sorted boundaries of regions below n stay at or below n. */
  lemma PositionsInside(bs: seq<Boundary>, rs: seq<Region>, n: nat, order: seq<Boundary>)
    requires BoundariesOf(bs, rs, n) && multiset(order) == multiset(bs)
    ensures forall i :: 0 <= i < |order| ==> order[i].pos <= n
  {
    forall i | 0 <= i < |order| ensures order[i].pos <= n {
      assert order[i] in multiset(bs);
      var j :| 0 <= j < |bs| && bs[j] == order[i];
      var r := rs[j / 2];
      assert j == 2 * (j / 2) || j == 2 * (j / 2) + 1;
    }
  }

  /** What the sweep has written after i boundaries lies inside the image. */
  lemma WrittenInside(bs: seq<Boundary>, rs: seq<Region>, n: nat, order: seq<Boundary>, i: nat)
    requires BoundariesOf(bs, rs, n) && multiset(order) == multiset(bs) && SortedByPosition(order) && i <= |order|
    ensures IsSortOf(order, rs)
    ensures Run(order[..i]).nesting >= 0
    ensures Inside(Run(order[..i]).out, n)
  {
    PairsAreBoundaries(bs, rs);
    PositionsInside(bs, rs, n, order);
    SweepHolds(rs, order, i);
  }

  /** What the whole sweep emits. */
  lemma SortedSweep(bs: seq<Boundary>, rs: seq<Region>, n: nat, order: seq<Boundary>)
    requires BoundariesOf(bs, rs, n) && multiset(order) == multiset(bs) && SortedByPosition(order)
    ensures IsSortOf(order, rs) && Inside(Run(order).out, n)
  {
    WrittenInside(bs, rs, n, order, |order|);
    assert order[..|order|] == order;
  }

  lemma StartOfRun()
    ensures Run([]) == State(0, 0, [])
  {
  }

  lemma NothingDirty(n: nat)
    ensures BoundariesOf([], [], n)
  {
  }
}
