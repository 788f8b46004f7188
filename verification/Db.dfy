/** The database object of db.c: allocator, dirty regions, journal and commit,
    all over one private image, one shared image and one journal. */
module Db {
  import opened Bytes
  import opened Dyadic
  import opened Tiling
  import opened HeapImage
  import opened FreeLists
  import opened Heap
  import opened Fit
  import opened Lists
  import opened Sweep
  import opened Journal
  import opened Crash
  import opened TornTail

  /** A C pointer into the private map; offset zero is the header and not null. */
  datatype Ptr = Null | At(off: nat)

  function BucketSize(i: nat): nat { UNIT * Pow2(i) }

  function NetSize(i: nat): nat { BucketSize(i) - 1 }

  /** The order `db_alloc` looks for. */
  ghost predicate FitsBest(size: nat, i: nat) {
    && i < BUCKETS
    && (i < BUCKETS - 1 ==> NetSize(i) >= size)
    && (i > 0 ==> NetSize(i - 1) < size)
  }

  /** A request that fits 32 bits never makes an arena too large that is two grows short of the largest. */
  lemma RequestFits(size: nat, i: nat, c: nat)
    requires size < 0x1_0000_0000 && FitsBest(size, i) && c + 2 <= MAX_ORDER
    ensures MostGrows(i, c) <= MAX_ORDER
  {
    LargestArena();
    if i > 28 { Pow2Monotone(28, i - 1); }
  }

  /** The search of `db_alloc` has one answer. */
  lemma FitsBestUnique(size: nat, i: nat, j: nat)
    requires FitsBest(size, i) && FitsBest(size, j)
    ensures i == j
  {
    if i < j { Pow2Monotone(i, j - 1); }
    if j < i { Pow2Monotone(j, i - 1); }
  }

  lemma PaddedSettled(log: seq<Entry>, img: seq<byte>, length: nat)
    requires Settled(log, img)
    ensures Settled(log, Padded(img, length))
  {
    hide Settled;
    if |img| <= length { SettledGrown(log, img, Zeros(length - |img|)); }
  }

  /** Where a database is killed: inside an open transaction, when the file may already have been extended, or
      inside a commit whose sort has left the boundaries in some order. */
  datatype Kill = InTransaction(length: nat) | InCommit(order: seq<Boundary>, cut: Cut)

  class Database {
    /** Whether growing also updates the header's size field. The program never does:
        false is the code as it stands. */
    const sizeFollowsArena: bool

    var priv: seq<byte>
    var shared: seq<byte>
    var journal: seq<byte>
    var dirty: seq<Boundary>
    var transactions: int
    var changed: bool

    ghost var regions: seq<Region>
    ghost var log: seq<Entry>
    ghost var tiles: Tiles
    ghost var lists: seq<seq<nat>>
    /** The heap of the last commit, which the shared image holds. */
    ghost var savedTiles: Tiles
    ghost var savedLists: seq<seq<nat>>

    /** The dirty array holds the boundaries of non-empty regions of the image. */
    ghost predicate DirtyOk()
      reads this`dirty, this`regions, this`priv, this`changed
    {
      && BoundariesOf(dirty, regions, |priv|)
      && (regions != [] ==> changed)
    }

    /** The two images agree outside the dirty regions. */
    ghost predicate Agrees()
      reads this`shared, this`priv, this`regions
    {
      && |shared| == |priv|
      && forall x :: 0 <= x < |priv| && priv[x] != shared[x] ==> InSome(regions, x)
    }

    ghost predicate HeapOk()
      reads this`priv, this`tiles, this`lists
    {
      HeapIn(priv, tiles, lists, sizeFollowsArena)
    }

    /** The journal consists of whole records that the shared image already has. */
    ghost predicate JournalOk()
      reads this`journal, this`log, this`shared
    {
      journal == EncodeAll(log) && Settled(log, shared)
    }

    /** What a restart would find: such a journal, and the heap of the last commit. */
    ghost predicate DiskOk()
      reads this`journal, this`log, this`shared, this`savedTiles, this`savedLists
    {
      JournalOk() && HeapIn(shared, savedTiles, savedLists, sizeFollowsArena)
    }

    ghost predicate Valid()
      reads this
    {
      HeapOk() && DirtyOk() && Agrees() && DiskOk()
    }

    /** `db_open` on a new file: an empty heap, written and committed by `db_init`. */
    constructor Create(follow: bool)
      ensures Valid() && tiles == savedTiles == map[] && shared == priv && journal == [] && transactions == 0
      ensures sizeFollowsArena == follow && Size(priv) == HEADER
    {
      hide Zeros, HeapIn, EncodeAll, Settled, BoundariesOf, SortedByPosition, Run, WritesOf, Inside, Arena, Le;
      sizeFollowsArena := follow;
      priv, shared, journal, dirty := Zeros(HEADER), Zeros(HEADER), [], [];
      transactions, changed := 0, false;
      regions, log, tiles, lists := [], [], map[], seq(BUCKETS, _ => []);
      savedTiles, savedLists := map[], seq(BUCKETS, _ => []);
      new;
      InitHeader();
      Commit(dirty, |EncodeAll(Writes(dirty))|, true, true);
    }

    /** The part of `db_init` before its commit. */
    method InitHeader()
      requires priv == shared == Zeros(HEADER) && journal == [] && log == [] && dirty == [] && regions == []
      requires transactions == 0 && tiles == savedTiles == map[] && lists == savedLists && |lists| == BUCKETS
      requires forall k :: 0 <= k < BUCKETS ==> lists[k] == []
      modifies this`priv, this`dirty, this`changed, this`regions, this`transactions
      ensures Valid() && changed && SortedByPosition(dirty) && transactions == 1 && Size(priv) == HEADER
    {
      hide Layout, EncodeAll, Settled, SetSize, SetCount, Size, Count, Le, BoundariesOf;
      Spans();
      ghost var p0 := priv;
      ZeroHeader(shared);
      EmptyHeap(shared, lists);
      BeginTransaction();
      priv := SetSize(priv, HEADER);
      priv := SetCount(priv, 0);
      FreshHeader(p0, priv);
      EmptyHeap(priv, lists);
      NothingDirty(|priv|);
      InvalidateRegion(At(0), HEADER);
      HeaderDirty();
      NothingLogged(shared);
    }

    lemma HeaderDirty()
      requires DirtyOk() && regions == [Region(0, HEADER)] && |shared| == |priv| == HEADER
      ensures Agrees() && SortedByPosition(dirty)
    {
      assert regions[0] == Region(0, HEADER);
      assert dirty[2 * 0] == Boundary(true, 0) && dirty[2 * 0 + 1] == Boundary(false, HEADER);
      forall x | 0 <= x < HEADER ensures InSome(regions, x) {
        assert Within(regions[0], x);
      }
    }

    /** `db_open` on an existing file: the journal is checked and, when committed, replayed. */
    constructor Open(image: seq<byte>, journalBytes: seq<byte>, follow: bool,
                     ghost log0: seq<Entry>, ghost tiles0: Tiles, ghost lists0: seq<seq<nat>>)
      ensures shared == priv == Recover(Disk(journalBytes, image)).image && journal == journalBytes
      ensures dirty == [] && regions == [] && !changed && transactions == 0 && sizeFollowsArena == follow
      ensures tiles == savedTiles == tiles0 && lists == savedLists == lists0 && log == log0
      ensures DirtyOk() && Agrees()
      ensures HeapIn(shared, tiles0, lists0, follow) ==> HeapOk() && (JournalOk() ==> Valid())
    {
      sizeFollowsArena := follow;
      priv, shared, journal, dirty := image, image, journalBytes, [];
      transactions, changed := 0, false;
      regions, log, tiles, lists := [], log0, tiles0, lists0;
      savedTiles, savedLists := tiles0, lists0;
      new;
      hide HeapIn, EncodeAll, Settled, Check, Replay;
      var verdict := CheckJournal();
      if verdict == 1 { ReplayJournal(); }
      priv := shared;
      NothingDirty(|priv|);
    }

    /** The disk a kill leaves behind. */
    ghost function LeftBy(kill: Kill): Disk
      requires DirtyOk() && Possible(kill)
      reads this`dirty, this`regions, this`priv, this`changed, this`journal, this`shared, this`log
    {
      match kill
      case InTransaction(length) => Disk(journal, Padded(shared, length))
      case InCommit(order, cut) => CommitUpTo(log, Writes(order), shared, cut)
    }

    /** The file never becomes longer than the largest arena, and a commit sorts the dirty array. */
    ghost predicate Possible(kill: Kill)
      reads this`dirty
    {
      match kill
      case InTransaction(length) => length <= HEADER + UNIT * MAX_UNITS
      case InCommit(order, _) => multiset(order) == multiset(dirty) && SortedByPosition(order)
    }

    /** The journal entries of a commit, given the sorted boundaries. */
    function Writes(order: seq<Boundary>): (ws: seq<Entry>)
      requires DirtyOk() && multiset(order) == multiset(dirty) && SortedByPosition(order)
      ensures Inside(Run(order).out, |priv|) && ws == WritesOf(Run(order).out, priv)
      reads this`dirty, this`regions, this`priv, this`changed
    {
      SortedSweep(dirty, regions, |priv|, order);
      WritesOf(Run(order).out, priv)
    }

    /** The kill came after the commit record was whole. */
    ghost predicate Installs(kill: Kill)
      requires DirtyOk() && Possible(kill)
      reads this`dirty, this`regions, this`priv, this`changed
    {
      kill.InCommit? && Committed(Writes(kill.order), kill.cut)
    }

    /** What the restart after a kill reads from the disk. */
    lemma KilledImage(kill: Kill)
      requires Valid() && Possible(kill)
      ensures Recover(LeftBy(kill)).image ==
        if Installs(kill) then priv else if kill.InTransaction? then Padded(shared, kill.length) else shared
    {
      hide HeapIn, BoundariesOf, EncodeAll, CommitUpTo, Settled, Run, WritesOf, SortedByPosition, ApplyAll;
      match kill
      case InTransaction(length) =>
        PaddedSettled(log, shared, length);
        SettledDisk(log, Padded(shared, length));
      case InCommit(order, cut) =>
        ImageSize();
        SortedSweep(dirty, regions, |priv|, order);
        SweepIsUnion(regions, order);
        CrashAtomic(log, Run(order).out, priv, shared, cut);
    }

    /** A kill while the journal is written leaves one that is clean or spoils some next commit. */
    lemma TornJournal(kill: Kill)
      requires Valid() && Possible(kill) && kill.InCommit? && !Installs(kill)
      ensures NextCommitInstalls(LeftBy(kill).journal, shared) <==> Clean(LeftBy(kill).journal, shared)
    {
      hide HeapIn, BoundariesOf, EncodeAll, CommitUpTo, Settled, Run, WritesOf, SortedByPosition, NextCommitInstalls;
      ImageSize();
      SortedSweep(dirty, regions, |priv|, kill.order);
      SweepIsUnion(regions, kill.order);
      AfterTornCommit(log, Run(kill.order).out, priv, shared, kill.cut.n);
    }

    /** A database killed anywhere is found again with a sound heap: that of the transaction whose commit
        record was whole, or else that of the last commit. It is valid again if and only if every next
        commit is installed, and it is valid unless the kill came while the journal was written. */
    static method Restart(killed: Database, ghost kill: Kill, disk: Disk) returns (db: Database)
      requires killed.Valid() && killed.Possible(kill) && disk == killed.LeftBy(kill)
      ensures fresh(db) && db.HeapOk() && db.DirtyOk() && db.Agrees() && db.transactions == 0
      ensures db.journal == disk.journal
      ensures killed.Installs(kill) ==> db.priv == db.shared == killed.priv && db.tiles == killed.tiles
      ensures !killed.Installs(kill) ==> db.priv == db.shared && db.tiles == killed.savedTiles
      ensures !killed.Installs(kill) ==>
        db.priv == if kill.InTransaction? then Padded(killed.shared, kill.length) else killed.shared
      ensures kill.InTransaction? || killed.Installs(kill) ==> db.Valid()
      ensures db.Valid() <==> NextCommitInstalls(db.journal, db.priv)
    {
      hide HeapIn, BoundariesOf, EncodeAll, CommitUpTo, Settled, Run, WritesOf, SortedByPosition, Recover;
      killed.KilledImage(kill);
      ghost var installed := killed.Installs(kill);
      ghost var tiles0 := if installed then killed.tiles else killed.savedTiles;
      ghost var lists0 := if installed then killed.lists else killed.savedLists;
      ghost var found := Recover(disk).image;
      ghost var log0: seq<Entry> := if Clean(disk.journal, found) then LogOf(disk.journal, found) else [];
      if kill.InTransaction? || installed { killed.KilledJournal(kill); } else { killed.TornJournal(kill); }
      if kill.InTransaction? {
        HeapInGrown(killed.shared, killed.savedTiles, killed.savedLists, killed.sizeFollowsArena, kill.length);
      }
      if Clean(disk.journal, found) { CleanInstalls(disk.journal, found); }
      db := new Database.Open(disk.image, disk.journal, killed.sizeFollowsArena, log0, tiles0, lists0);
    }

    /** Outside of journal writing a kill leaves a journal that the found image already has. */
    lemma KilledJournal(kill: Kill)
      requires Valid() && Possible(kill) && (kill.InTransaction? || Installs(kill))
      ensures Clean(LeftBy(kill).journal, if kill.InTransaction? then Padded(shared, kill.length) else priv)
    {
      hide HeapIn, BoundariesOf, EncodeAll, Settled, Run, WritesOf, SortedByPosition, ApplyAll, Replay, PartialReplay;
      match kill
      case InTransaction(length) =>
        PaddedSettled(log, shared, length);
      case InCommit(order, cut) =>
        ImageSize();
        SortedSweep(dirty, regions, |priv|, order);
        SweepIsUnion(regions, order);
        TrackedBatch(Run(order).out, priv, shared);
        CleanAfter(log, Writes(order), priv, shared, cut);
    }

    method InvalidateRegion(ptr: Ptr, size: nat)
      requires DirtyOk()
      requires ptr.At? ==> size > 0 && ptr.off + size <= |priv|
      modifies this`dirty, this`changed, this`regions
      ensures DirtyOk()
      ensures regions == if ptr.At? then old(regions) + [Region(ptr.off, ptr.off + size)] else old(regions)
      ensures old(changed) ==> changed
    {
      if ptr.Null? { return; }
      changed := true;
      dirty := dirty + [Boundary(true, ptr.off), Boundary(false, ptr.off + size)];
      regions := regions + [Region(ptr.off, ptr.off + size)];
    }

    /** The writes of `extract_bucket`. */
    method Unlink(b: nat)
      requires |priv| >= HEADER && b < Units(priv) && Order(priv, b) < BUCKETS
      requires LinkInside(ViewOf(priv), Prev(priv, b)) && LinkInside(ViewOf(priv), Next(priv, b))
      requires Prev(priv, b) < Span(7) && Next(priv, b) < Span(7) < Span(8)
      modifies this`priv
      ensures priv == Unlinked(old(priv), b)
    {
      var k, p, nx := Order(priv, b), Prev(priv, b), Next(priv, b);
      if p != 0 { priv := SetNext(priv, PosOf(p), nx); }
      if nx != 0 { priv := SetPrev(priv, PosOf(nx), p); }
      if Head(priv, k) == UnitAt(b) { priv := SetHead(priv, k, nx); }
      priv := SetPrev(priv, b, 0);
      priv := SetNext(priv, b, 0);
    }

    /** Marks a block, its list neighbours and the head of its list. */
    method InvalidateLinks(b: nat, p: nat, nx: nat, k: nat)
      requires DirtyOk() && k < BUCKETS && HEADER <= |priv|
      requires UnitAt(b) + UNIT <= |priv| && p + UNIT <= |priv| && nx + UNIT <= |priv|
      modifies this`dirty, this`changed, this`regions
      ensures DirtyOk() && regions == LinkRegions(old(regions), b, p, nx, k)
    {
      hide DirtyOk;
      InvalidateRegion(At(UnitAt(b)), UNIT);
      InvalidateRegion(if p == 0 then Null else At(p), UNIT);
      InvalidateRegion(if nx == 0 then Null else At(nx), UNIT);
      InvalidateRegion(At(HeadAt(k)), 8);
    }

    /** `extract_bucket`: block b leaves its free list; nothing else changes. */
    method ExtractBucket(b: nat, ghost out: set<nat>, ghost n: nat)
      requires Layout(priv, tiles, lists, out, n) && DirtyOk()
      requires b in tiles && tiles[b].free && b !in out
      modifies this`priv, this`dirty, this`changed, this`regions, this`lists
      ensures Layout(priv, tiles, lists, out + {b}, n) && DirtyOk()
      ensures |priv| == |old(priv)| && Count(priv) == old(Count(priv)) && Size(priv) == old(Size(priv))
      ensures Evolved(old(priv), old(regions), priv, regions, Live(tiles))
      ensures forall x :: UnitAt(b) <= x < UnitAt(b) + UNIT ==> InSome(regions, x)
      ensures lists == old(lists)[tiles[b].order := Dropped(old(lists)[tiles[b].order], b)]
    {
      hide Layout, Unlinked, Evolved, LinkRegions;
      ghost var i := ExtractStep(priv, regions, tiles, lists, out, n, b);
      var k, p, nx := Order(priv, b), Prev(priv, b), Next(priv, b);
      LayoutParts(priv, tiles, lists, out, n);
      ListedOnce(k);
      DroppedAt(lists[k], i);
      Unlink(b);
      lists := lists[k := Without(lists[k], i)];
      InLinkRegions(regions, b, p, nx, k);
      InvalidateLinks(b, p, nx, k);
    }

    lemma ListedOnce(k: nat)
      requires |priv| >= HEADER && Linked(ViewOf(priv), lists) && k < BUCKETS == |lists|
      ensures Distinct(lists[k])
    {
      assert IsList(ViewOf(priv), lists[k], k);
    }

    /** The writes of `insert_bucket`. */
    method Push(b: nat)
      requires |priv| >= HEADER && b < Units(priv) && Order(priv, b) < BUCKETS
      requires LinkInside(ViewOf(priv), Head(priv, Order(priv, b)))
      requires Head(priv, Order(priv, b)) < Span(7) && UnitAt(b) < Span(7) < Span(8)
      modifies this`priv
      ensures priv == Pushed(old(priv), b)
    {
      var k := Order(priv, b);
      var nx := Head(priv, k);
      priv := SetNext(priv, b, nx);
      priv := SetPrev(priv, b, 0);
      if nx != 0 { priv := SetPrev(priv, PosOf(nx), UnitAt(b)); }
      priv := SetHead(priv, k, UnitAt(b));
    }

    /** `insert_bucket`: the free block b becomes the first of its list. */
    method InsertBucket(b: nat, ghost out: set<nat>, ghost n: nat)
      requires Layout(priv, tiles, lists, out, n) && DirtyOk()
      requires b in tiles && tiles[b].free && b in out && tiles[b].order < BUCKETS
      modifies this`priv, this`dirty, this`changed, this`regions, this`lists
      ensures Layout(priv, tiles, lists, out - {b}, n) && DirtyOk()
      ensures |priv| == |old(priv)| && Count(priv) == old(Count(priv)) && Size(priv) == old(Size(priv))
      ensures Evolved(old(priv), old(regions), priv, regions, Live(tiles))
      ensures forall x :: UnitAt(b) <= x < UnitAt(b) + UNIT ==> InSome(regions, x)
      ensures lists == old(lists)[tiles[b].order := [b] + old(lists)[tiles[b].order]]
    {
      hide Layout, Pushed, Evolved, LinkRegions;
      InsertStep(priv, regions, tiles, lists, out, n, b);
      var k := Order(priv, b);
      var nx := Head(priv, k);
      Push(b);
      lists := lists[k := [b] + lists[k]];
      InLinkRegions(regions, b, 0, nx, k);
      InvalidateLinks(b, 0, nx, k);
    }

    /** Both halves of a block join the list of their order. */
    method InsertHalves(b: nat, buddy: nat, order: nat, ghost n: nat)
      requires Layout(priv, tiles, lists, {b, buddy}, n) && DirtyOk() && b != buddy && order < BUCKETS
      requires b in tiles && buddy in tiles && tiles[b] == tiles[buddy] == Tile(order, true)
      modifies this`priv, this`dirty, this`changed, this`regions, this`lists
      ensures Layout(priv, tiles, lists, {}, n) && DirtyOk()
      ensures |priv| == |old(priv)| && Count(priv) == old(Count(priv)) && Size(priv) == old(Size(priv))
      ensures Evolved(old(priv), old(regions), priv, regions, Live(tiles)) && InSome(regions, UnitAt(buddy))
      ensures |old(lists)| == BUCKETS && lists == old(lists)[order := [buddy, b] + old(lists)[order]]
    {
      hide Le, Count, Size, Layout, Evolved, InSome, BoundariesOf, Live, Tiled, ListsHold, Linked, ViewOf;
      ghost var p0, r0, m0 := priv, regions, lists;
      LayoutParts(priv, tiles, lists, {b, buddy}, n);
      InsertBucket(b, {b, buddy}, n);
      ghost var p1, r1 := priv, regions;
      assert {b, buddy} - {b} == {buddy} && {buddy} - {buddy} == {};
      InsertBucket(buddy, {buddy}, n);
      assert [buddy] + ([b] + m0[order]) == [buddy, b] + m0[order];
      EvolvedTwice(p0, r0, p1, r1, priv, regions, Live(tiles));
    }

    /** `split_bucket`: a free block becomes two free halves. */
    method SplitBucket(b: nat, ghost n: nat)
      requires Layout(priv, tiles, lists, {}, n) && DirtyOk()
      requires b in tiles && tiles[b].free && 0 < tiles[b].order < BUCKETS
      modifies this`priv, this`dirty, this`changed, this`regions, this`lists, this`tiles
      ensures Layout(priv, tiles, lists, {}, n) && DirtyOk()
      ensures |priv| == |old(priv)| && Count(priv) == old(Count(priv)) && Size(priv) == old(Size(priv))
      ensures tiles == Split(old(tiles), b) && Live(tiles) == Live(old(tiles))
      ensures Evolved(old(priv), old(regions), priv, regions, Live(old(tiles)))
      ensures OneCut(old(lists), b, old(tiles)[b].order - 1, lists)
    {
      hide Le, ToLe, Poke, Count, Size, Layout, Evolved, InSome, BoundariesOf, Live, Split, SetTag, Tiled;
      hide ListsHold, Linked, ViewOf, Dropped, OneCut;
      ghost var p0, r0, t0, l0, m0 := priv, regions, tiles, Live(tiles), lists;
      LayoutParts(priv, tiles, lists, {}, n);
      BlockFacts(priv, tiles, lists, {}, n, b);
      var order := Order(priv, b) - 1;
      assert {} + {b} == {b};
      ExtractBucket(b, {}, n);
      ghost var p1, r1, m1 := priv, regions, lists;
      var buddy := PosOf(UnitAt(b) + BucketSize(order));
      assert buddy == b + Pow2(order);
      LayoutParts(priv, tiles, lists, {b}, n);
      BlockFacts(priv, tiles, lists, {b}, n, b);
      priv := SetTag(priv, b, order, true);
      ghost var p2 := priv;
      priv := SetTag(priv, buddy, order, true);
      ghost var p3 := priv;
      SplitStep(p1, p2, p3, tiles, lists, n, b, buddy);
      tiles := Split(tiles, b);
      SplitFacts(t0, b);
      LayoutParts(priv, tiles, lists, {b, buddy}, n);
      InsertHalves(b, buddy, order, n);
      OneCutSteps(m0, b, order, buddy, m1, lists);
      SplitEvolves(p0, r0, p1, r1, p2, p3, priv, regions, t0, tiles, n, b, buddy);
      InvalidateSplit(b, buddy, order, n, p0, r0, l0);
    }

    /** The regions that `split_bucket` invalidates at its end. */
    method InvalidateSplit(b: nat, buddy: nat, order: nat, ghost n: nat, ghost p0: seq<byte>, ghost r0: seq<Region>,
                           ghost live: map<nat, nat>)
      requires Layout(priv, tiles, lists, {}, n) && DirtyOk() && b in tiles && buddy in tiles && order < BUCKETS
      requires Evolved(p0, r0, priv, regions, live)
      modifies this`dirty, this`changed, this`regions
      ensures DirtyOk() && Evolved(p0, r0, priv, regions, live)
    {
      hide Le, ToLe, Count, Size, Layout, Evolved, InSome, BoundariesOf;
      ghost var r1 := regions;
      LayoutParts(priv, tiles, lists, {}, n);
      BlockFacts(priv, tiles, lists, {}, n, b);
      BlockFacts(priv, tiles, lists, {}, n, buddy);
      InvalidateRegion(At(UnitAt(buddy)), UNIT);
      InvalidateRegion(At(UnitAt(b)), UNIT);
      InvalidateRegion(At(HeadAt(order)), 8);
      EvolvedMore(p0, r0, priv, r1, regions, live);
    }

    /** Whether the size field admits a unit position (`get_bucket_at_position` is not null). */
    predicate Admits(pos: nat)
      requires |priv| >= HEADER
      reads this`priv
    {
      HEADER + pos * UNIT < Size(priv)
    }

    /** One round of `merge_buckets`: two free buddies become one block of the next order. */
    method MergePair(bucket: nat, buddy: nat, ghost n: nat) returns (first: nat)
      requires Layout(priv, tiles, lists, {}, n) && DirtyOk()
      requires bucket in tiles && tiles[bucket].free && FreeBuddy(tiles, bucket)
      requires buddy == Buddy(bucket, tiles[bucket].order) && buddy != bucket
      requires tiles[bucket].order < MAX_ORDER
      modifies this`priv, this`dirty, this`changed, this`regions, this`lists, this`tiles
      ensures Layout(priv, tiles, lists, {}, n) && DirtyOk()
      ensures |priv| == |old(priv)| && Count(priv) == old(Count(priv)) && Size(priv) == old(Size(priv))
      ensures first == (if buddy < bucket then buddy else bucket)
      ensures tiles == Merge(old(tiles), bucket) && Live(tiles) == Live(old(tiles))
      ensures first in tiles && tiles[first] == Tile(old(tiles)[bucket].order + 1, true)
      ensures Evolved(old(priv), old(regions), priv, regions, Live(old(tiles)))
      ensures var k := old(tiles)[bucket].order;
        var m := old(lists)[k := Dropped(Dropped(old(lists)[k], bucket), buddy)];
        lists == m[k + 1 := [first] + m[k + 1]]
    {
      hide Le, ToLe, Poke, Count, Size, Layout, Evolved, InSome, BoundariesOf, Live, Merge, SetTag, Tiled;
      hide ListsHold, Linked, ViewOf, Buddy;
      ghost var p1, r1, t1 := priv, regions, tiles;
      LayoutParts(priv, tiles, lists, {}, n);
      BlockFacts(priv, tiles, lists, {}, n, bucket);
      BlockFacts(priv, tiles, lists, {}, n, buddy);
      assert {} + {bucket} == {bucket} && {bucket} + {buddy} == {bucket, buddy};
      ExtractBucket(bucket, {}, n);
      ghost var p2, r2 := priv, regions;
      ExtractBucket(buddy, {bucket}, n);
      ghost var p3, r3 := priv, regions;
      LayoutParts(priv, tiles, lists, {bucket, buddy}, n);
      BlockFacts(priv, tiles, lists, {bucket, buddy}, n, bucket);
      BlockFacts(priv, tiles, lists, {bucket, buddy}, n, buddy);
      first := if buddy < bucket then buddy else bucket;
      priv := SetTag(priv, first, Order(priv, first) + 1, true);
      ghost var p4 := priv;
      MergeStep(p3, p4, tiles, lists, n, bucket, buddy, first);
      tiles := Merge(tiles, bucket);
      assert {first} - {first} == {};
      InsertBucket(first, {first}, n);
      MergeEvolves(p1, r1, p2, r2, p3, r3, p4, priv, regions, t1, n, first);
    }

    /** `merge_buckets`: while its buddy is admitted, free and of equal order, the block grows. */
    method MergeBuckets(b: nat, ghost n: nat)
      requires Layout(priv, tiles, lists, {}, n) && DirtyOk()
      requires b in tiles && tiles[b].free
      modifies this`priv, this`dirty, this`changed, this`regions, this`lists, this`tiles
      ensures Layout(priv, tiles, lists, {}, n) && DirtyOk()
      ensures |priv| == |old(priv)| && Count(priv) == old(Count(priv)) && Size(priv) == old(Size(priv))
      ensures Live(tiles) == Live(old(tiles))
      ensures Evolved(old(priv), old(regions), priv, regions, Live(old(tiles)))
      ensures !FreeBuddy(old(tiles), b) || old(!Admits(Buddy(b, tiles[b].order))) ==>
        tiles == old(tiles) && lists == old(lists) && priv == old(priv)
      ensures Size(priv) == HEADER + UNIT * n && CoalescedBut(old(tiles), b) ==> Coalesced(tiles)
    {
      hide Le, ToLe, Poke, Count, Size, Layout, Evolved, InSome, BoundariesOf, Live, Merge, SetTag, Tiled;
      hide ListsHold, Linked, ViewOf, CoalescedBut, Coalesced, Buddy;
      ghost var p0, r0, t0, l0 := priv, regions, tiles, Live(tiles);
      var bucket := b;
      LayoutParts(priv, tiles, lists, {}, n);
      BlockFacts(priv, tiles, lists, {}, n, b);
      NullWrite(priv, regions, regions, tiles, n);
      while true
        invariant Layout(priv, tiles, lists, {}, n) && DirtyOk()
        invariant |priv| == |p0| >= HEADER + UNIT * n
        invariant Count(priv) == Count(p0) && Size(priv) == Size(p0)
        invariant bucket in tiles && tiles[bucket].free && tiles[bucket].order < MAX_ORDER
        invariant Live(tiles) == l0
        invariant Evolved(p0, r0, priv, regions, l0)
        invariant bucket != b || tiles != t0 ==> FreeBuddy(t0, b) && HEADER + Buddy(b, t0[b].order) * UNIT < Size(p0)
        invariant bucket == b && tiles == t0 ==> lists == old(lists) && priv == p0
        invariant CoalescedBut(t0, b) ==> CoalescedBut(tiles, bucket)
        decreases MAX_ORDER - tiles[bucket].order
      {
        ghost var p1, r1, t1 := priv, regions, tiles;
        BlockFacts(priv, tiles, lists, {}, n, bucket);
        LayoutParts(priv, tiles, lists, {}, n);
        var order := Order(priv, bucket);
        var buddy := Buddy(bucket, order);
        if !Admits(buddy) { break; }
        BuddyIsGenuine(tiles, n, bucket);
        BlockFacts(priv, tiles, lists, {}, n, buddy);
        if !Free(priv, buddy) || Order(priv, buddy) != order { break; }
        MergeCoalescedIf(tiles, n, bucket);
        bucket := MergePair(bucket, buddy, n);
        LayoutParts(priv, tiles, lists, {}, n);
        BlockFacts(priv, tiles, lists, {}, n, bucket);
        EvolvedTwice(p0, r0, p1, r1, priv, regions, l0);
      }
      if CoalescedBut(t0, b) && Size(priv) == HEADER + UNIT * n {
        LayoutParts(priv, tiles, lists, {}, n);
        BuddyOutside(tiles, n, bucket);
        CoalescedAll(tiles, n, bucket);
      }
    }

    /** A pointer that `db_alloc` has returned and nobody has freed. */
    ghost predicate IsLive(ptr: Ptr)
      reads this`tiles
    {
      && ptr.At? && ptr.off > HEADER - 1 && ptr.off - 1 == UnitAt(PosOf(ptr.off - 1))
      && PosOf(ptr.off - 1) in Live(tiles)
    }

    /** `db_free` */
    method FreeBlock(ptr: Ptr)
      requires HeapOk() && DirtyOk() && (ptr.At? ==> IsLive(ptr))
      modifies this`priv, this`dirty, this`changed, this`regions, this`lists, this`tiles
      ensures HeapOk() && DirtyOk()
      ensures ptr.Null? ==> priv == old(priv) && tiles == old(tiles) && regions == old(regions)
      ensures |priv| == |old(priv)| && Count(priv) == old(Count(priv)) && Size(priv) == old(Size(priv))
      ensures ptr.At? ==> Live(tiles) == Live(old(tiles)) - {PosOf(ptr.off - 1)}
      ensures Evolved(old(priv), old(regions), priv, regions, Live(tiles))
      ensures old(Agrees()) ==> Agrees()
      ensures ptr.At? ==> var b := PosOf(ptr.off - 1);
        !sizeFollowsArena || !FreeBuddy(old(tiles), b) ==> GivenBack(old(tiles), old(lists), tiles, lists, b)
      ensures sizeFollowsArena && Coalesced(old(tiles)) ==> Coalesced(tiles)
      ensures !sizeFollowsArena && Coalesced(old(tiles)) && ptr.At? ==>
        (Coalesced(tiles) <==> !FreeBuddy(old(tiles), PosOf(ptr.off - 1)))
    {
      hide Le, ToLe, Poke, Count, Size, Layout, Recorded, PayloadsKept, Padded, InSome, BoundariesOf, SetTag;
      hide Tiled, ListsHold, Linked, ViewOf, Buddy, FreeBuddy, Coalesced;
      ghost var n := Arena(Count(priv));
      LayoutParts(priv, tiles, lists, {}, n);
      if ptr.Null? {
        NullWrite(priv, regions, regions, tiles, n);
        return;
      }
      ghost var p0, r0, t0 := priv, regions, tiles;
      var b := PosOf(ptr.off - 1);
      BlockFacts(priv, tiles, lists, {}, n, b);
      priv := SetTag(priv, b, Order(priv, b), true);
      StatusStep(p0, priv, tiles, lists, {}, n, b, true);
      tiles := tiles[b := tiles[b].(free := true)];
      FreedTiles(t0, n, b);
      ghost var p1, t1 := priv, tiles;
      assert {b} - {b} == {};
      InsertBucket(b, {b}, n);
      ghost var p2, r2 := priv, regions;
      TagEvolves(p0, r0, p1, r2, t1, n, b);
      EvolvedVia(p0, r0, p1, r2, r0, p2, r2, Live(t1));
      MergeBuckets(b, n);
      EvolvedTwice(p0, r0, p2, r2, priv, regions, Live(t1));
      LayoutParts(priv, tiles, lists, {}, n);
      if old(Agrees()) { TrackingKeptInPlace(p0, priv, shared, r0, regions); }
    }

    /** `fallocate`: a shorter file gains zero bytes, and both maps show them. */
    method Extend(length: nat)
      modifies this`priv, this`shared
      ensures priv == Padded(old(priv), length) && shared == Padded(old(shared), length)
    {
      priv := Padded(priv, length);
      shared := Padded(shared, length);
    }

    /** The one step the program lacks: with sizeFollowsArena, record the arena's size in the header. */
    method UpdateSize(ghost t: Tiles, n: nat)
      requires DirtyOk() && Tiled(t, n) && |priv| >= HEADER + UNIT * n && 0 < n <= MAX_UNITS
      requires Linked(ViewOf(priv), lists)
      modifies this`priv, this`dirty, this`changed, this`regions
      ensures DirtyOk() && |priv| == |old(priv)| && Count(priv) == old(Count(priv))
      ensures Size(priv) == if sizeFollowsArena then HEADER + UNIT * n else old(Size(priv))
      ensures Linked(ViewOf(priv), lists)
      ensures forall c :: 0 <= c < n ==> Order(priv, c) == Order(old(priv), c) && Free(priv, c) == Free(old(priv), c)
      ensures Evolved(old(priv), old(regions), priv, regions, Live(t))
    {
      hide Le, ToLe, Count, Size, SetSize, Tiled, Linked, ViewOf, Live, Recorded, PayloadsKept, BoundariesOf;
      ghost var p0, r0 := priv, regions;
      if sizeFollowsArena {
        PtrFits(0, n);
        SizeWrite(priv, lists, HEADER + UNIT * n);
        priv := SetSize(priv, HEADER + UNIT * n);
        InvalidateRegion(At(8), 8);
        HeaderEvolves(p0, r0, priv, regions, t, n, 8, 8);
      } else {
        NullWrite(priv, regions, regions, t, n);
      }
    }

    /** The file of a grow: extended to m units, with the size field updated if it follows. All blocks and lists,
        and the block that is about to be tagged, are in place. */
    method ExtendArena(s: nat, k: nat, m: nat, ghost t: Tiles)
      requires HeapOk() && DirtyOk() && Count(priv) < MAX_ORDER && |shared| == |priv|
      requires s == Arena(Count(priv)) && k == (if Count(priv) == 0 then 0 else Count(priv) - 1)
      requires m == Arena(Count(priv) + 1) == s + Pow2(k) <= MAX_UNITS && t == tiles[s := Tile(k, true)]
      requires Tiled(t, m) && Live(t) == Live(tiles)
      modifies this`priv, this`shared, this`dirty, this`changed, this`regions
      ensures HEADER + UNIT * m <= |priv| <= HEADER + UNIT * MAX_UNITS && Linked(ViewOf(priv), lists)
      ensures DirtyOk() && Count(priv) == old(Count(priv))
      ensures forall c :: c in t && c != s ==> c < m && Order(priv, c) == t[c].order && Free(priv, c) == t[c].free
      ensures Size(priv) == if sizeFollowsArena then HEADER + UNIT * m else old(Size(priv))
      ensures |shared| == |priv| >= |old(priv)| && shared == Padded(old(shared), |priv|)
      ensures |priv| == if |old(priv)| < HEADER + UNIT * m then HEADER + UNIT * m else |old(priv)|
      ensures Evolved(old(priv), old(regions), priv, regions, Live(t))
    {
      hide Le, ToLe, Poke, Count, Size, Layout, Recorded, PayloadsKept, InSome, BoundariesOf, SetSize, Arena, Pow2;
      hide Tiled, ListsHold, Linked, ViewOf, Live, UnitAt;
      ghost var n := Arena(Count(priv));
      ghost var p0, r0 := priv, regions;
      LayoutParts(priv, tiles, lists, {}, n);
      Extended(priv, tiles, lists, n, HEADER + UNIT * m);
      ExtendedEvolves(priv, regions, tiles, n, HEADER + UNIT * m);
      BoundariesOfLonger(dirty, regions, |priv|, |Padded(priv, HEADER + UNIT * m)|);
      Extend(HEADER + UNIT * m);
      ghost var p1 := priv;
      UpdateSize(t, m);
      EvolvedTwice(p0, r0, p1, r0, priv, regions, Live(t));
    }

    /** The block a grow adds: the file is extended, the block tagged and put on its list. */
    method AddBlock() returns (s: nat)
      requires HeapOk() && DirtyOk() && Count(priv) < MAX_ORDER && |shared| == |priv|
      modifies this`priv, this`shared, this`dirty, this`changed, this`regions, this`lists, this`tiles
      ensures var c := old(Count(priv));
        && s == Arena(c) && Layout(priv, tiles, lists, {}, Arena(c + 1)) && DirtyOk()
        && tiles == old(tiles)[s := Tile(if c == 0 then 0 else c - 1, true)]
        && Live(tiles) == Live(old(tiles))
        && (Coalesced(old(tiles)) ==> CoalescedBut(tiles, s))
        && |lists| == BUCKETS == |old(lists)|
        && var k := if c == 0 then 0 else c - 1;
        && lists == old(lists)[k := [s] + old(lists)[k]]
        && (old(lists)[k] == [] ==> !FreeBuddy(tiles, s))
      ensures Count(priv) == old(Count(priv))
      ensures Size(priv) == if sizeFollowsArena then HEADER + UNIT * Arena(old(Count(priv)) + 1) else old(Size(priv))
      ensures |shared| == |priv| >= |old(priv)| && shared == Padded(old(shared), |priv|)
      ensures var length := HEADER + UNIT * Arena(old(Count(priv)) + 1);
        |priv| == if |old(priv)| < length then length else |old(priv)|
      ensures Evolved(old(priv), old(regions), priv, regions, Live(tiles))
    {
      hide Le, ToLe, Poke, Count, Size, Layout, Recorded, PayloadsKept, InSome, BoundariesOf, SetTag, SetSize;
      hide Arena, Pow2;
      hide Span, Tiled, ListsHold, Linked, ViewOf, Buddy, Live, Coalesced, CoalescedBut, FreeBuddy;
      var order := Count(priv);
      ArenaSteps(order);
      ghost var p0, r0, n := priv, regions, Arena(order);
      LayoutParts(priv, tiles, lists, {}, n);
      s := if order == 0 then 0 else Pow2(order - 1);
      var m := s + if order == 0 then 1 else s;
      var k := if order == 0 then 0 else order - 1;
      GrownTiles(tiles, lists, order);
      ghost var t := tiles[s := Tile(k, true)];
      BlocksInside(t, m);
      ExtendArena(s, k, m, t);
      tiles := t;
      ghost var p2, r2 := priv, regions;
      RetagLayout(priv, tiles, lists, {s}, m, s);
      priv := SetTag(priv, s, k, true);
      ghost var p3 := priv;
      if order > 0 { InvalidateRegion(At(UnitAt(s)), 1); }
      ghost var r3 := regions;
      assert {s} - {s} == {};
      InsertBucket(s, {s}, m);
      GrowEvolves(p0, r0, p2, r2, p3, r3, priv, regions, tiles, m, s, Live(tiles));
      LayoutParts(priv, tiles, lists, {}, m);
    }

    /** The end of `db_grow`: one more list is in use. */
    method RaiseCount(count: nat, ghost n: nat)
      requires Layout(priv, tiles, lists, {}, n) && DirtyOk() && count <= MAX_ORDER
      modifies this`priv, this`dirty, this`changed, this`regions
      ensures Layout(priv, tiles, lists, {}, n) && DirtyOk()
      ensures |priv| == |old(priv)| && Count(priv) == count && Size(priv) == old(Size(priv))
      ensures Evolved(old(priv), old(regions), priv, regions, Live(tiles))
    {
      hide Le, ToLe, Poke, Count, Size, Layout, Recorded, PayloadsKept, InSome, BoundariesOf, SetCount, Tiled, Live;
      Spans();
      ghost var p0, r0 := priv, regions;
      LayoutParts(priv, tiles, lists, {}, n);
      CountWrite(priv, tiles, lists, n, count);
      priv := SetCount(priv, count);
      InvalidateRegion(At(0), HEADER);
      HeaderEvolves(p0, r0, priv, regions, tiles, n, 16, 8);
    }

    /** `db_grow`: the arena doubles, its new half one free block, merged as far as it goes. */
    method Grow()
      requires HeapOk() && DirtyOk() && Count(priv) < MAX_ORDER && |shared| == |priv|
      modifies this`priv, this`shared, this`dirty, this`changed, this`regions, this`lists, this`tiles
      ensures HeapOk() && DirtyOk()
      ensures Count(priv) == old(Count(priv)) + 1
      ensures |shared| == |priv| >= |old(priv)| && shared == Padded(old(shared), |priv|)
      ensures var length := HEADER + UNIT * Arena(old(Count(priv)) + 1);
        |priv| == if |old(priv)| < length then length else |old(priv)|
      ensures Live(tiles) == Live(old(tiles))
      ensures Evolved(old(priv), old(regions), priv, regions, Live(tiles))
      ensures sizeFollowsArena && Coalesced(old(tiles)) ==> Coalesced(tiles)
      ensures !sizeFollowsArena && Coalesced(old(tiles)) ==>
        var c := old(Count(priv));
        Coalesced(tiles) <==> !(c > 0 && 0 in old(tiles) && old(tiles)[0] == Tile(c - 1, true))
      ensures |lists| == BUCKETS == |old(lists)|
      ensures var c := old(Count(priv));
        !sizeFollowsArena || c == 0 || old(lists)[c - 1] == [] ==>
          tiles == old(tiles)[Arena(c) := Tile(NewOrder(c), true)] && lists == OneGrown(old(lists), c)
    {
      hide Le, ToLe, Poke, Count, Size, Layout, Recorded, PayloadsKept, InSome, BoundariesOf, SetCount, Tiled;
      hide ListsHold, Linked, ViewOf, Buddy, Live, Coalesced, CoalescedBut, FreeBuddy, Pow2;
      var order := Count(priv);
      ghost var m := Arena(order + 1);
      ghost var p0, r0, t0 := priv, regions, tiles;
      LayoutParts(priv, tiles, lists, {}, Arena(order));
      var s := AddBlock();
      ghost var p1, r1, t1 := priv, regions, tiles;
      LayoutParts(priv, tiles, lists, {}, m);
      NullWrite(priv, regions, regions, tiles, m);
      assert [s] + [] == [s];
      if order > 0 { MergeBuckets(s, m); }
      LayoutParts(priv, tiles, lists, {}, m);
      ghost var p2, r2 := priv, regions;
      RaiseCount(order + 1, m);
      EvolvedTwice(p0, r0, p1, r1, p2, r2, Live(tiles));
      EvolvedTwice(p0, r0, p2, r2, priv, regions, Live(tiles));
      if order == 0 { OneTile(t0, t1); } else { GrownBuddy(t0, order - 1); }
    }

    /** `get_bucket_for_size`: the smallest order whose net size is enough, or the largest there is. */
    method GetBucketForSize(size: nat) returns (i: nat)
      ensures FitsBest(size, i)
    {
      i := BUCKETS - 1;
      while i > 0 && NetSize(i - 1) >= size
        invariant i < BUCKETS
        invariant forall j :: i <= j < BUCKETS - 1 ==> NetSize(j) >= size
      {
        i := i - 1;
      }
    }

    /** The heap is sound, and since an earlier state only recorded writes outside live
        blocks and file growth have happened. */
    ghost predicate Carried(p0: seq<byte>, s0: seq<byte>, r0: seq<Region>, live0: map<nat, nat>)
      reads this
    {
      && HeapOk() && DirtyOk()
      && |s0| == |p0| <= |priv| == |shared| && shared == Padded(s0, |priv|)
      && Live(tiles) == live0
      && Evolved(p0, r0, priv, regions, live0)
    }

    /** One more grow, seen from an earlier state. */
    method GrowFrom(ghost p0: seq<byte>, ghost s0: seq<byte>, ghost r0: seq<Region>, ghost live0: map<nat, nat>)
      requires Carried(p0, s0, r0, live0) && Count(priv) < MAX_ORDER
      modifies this`priv, this`shared, this`dirty, this`changed, this`regions, this`lists, this`tiles
      ensures Carried(p0, s0, r0, live0) && Count(priv) == old(Count(priv)) + 1
      ensures sizeFollowsArena && Coalesced(old(tiles)) ==> Coalesced(tiles)
      ensures |lists| == BUCKETS == |old(lists)|
      ensures var c := old(Count(priv));
        !sizeFollowsArena || c == 0 || old(lists)[c - 1] == [] ==>
          tiles == old(tiles)[Arena(c) := Tile(NewOrder(c), true)] && lists == OneGrown(old(lists), c)
    {
      hide HeapOk, DirtyOk, Live, Recorded, PayloadsKept, Padded, Coalesced, Count, Size;
      ghost var p1, r1 := priv, regions;
      Grow();
      PaddedTwice(s0, |p1|, |priv|);
      EvolvedTwice(p0, r0, p1, r1, priv, regions, live0);
    }

    /** There is a free block of order i or more. */
    ghost predicate Available(i: nat)
      reads this`tiles
    {
      FreeFrom(tiles, i)
    }

    /** A request is met by a free block there is, or the arena can grow for it. */
    ghost predicate CanServe(size: nat)
      requires |priv| >= HEADER
      reads this`priv, this`tiles
    {
      forall i :: FitsBest(size, i) ==> Available(i) || MostGrows(i, Count(priv)) <= MAX_ORDER
    }

    /** The order of a free block that is large enough, whose list is not empty; zero if there is none. */
    lemma LargeEnough(i: nat) returns (m: nat)
      requires HeapOk()
      ensures Available(i) ==> i <= m < Count(priv) && m < MAX_ORDER && |lists| == BUCKETS && lists[m] != []
    {
      hide Layout, Pow2, Linked;
      m := 0;
      if Available(i) {
        var b :| b in tiles && tiles[b].free && tiles[b].order >= i;
        m := tiles[b].order;
        LayoutParts(priv, tiles, lists, {}, Arena(Count(priv)));
        OrderFits(tiles, Arena(Count(priv)), b);
        if m >= Count(priv) > 0 { Pow2Monotone(Count(priv) - 1, m); }
        assert b in lists[m];
      }
    }

    /** The loop of the search that grows while there is no order j, one order down each time. */
    method NextOrder(j: nat, ghost p0: seq<byte>, ghost s0: seq<byte>, ghost r0: seq<Region>,
                     ghost live0: map<nat, nat>)
      returns (k: nat)
      requires Carried(p0, s0, r0, live0) && |lists| == BUCKETS && 0 < j <= Count(priv) + 1
      requires j >= Count(priv) ==> 0 < Count(priv) < MAX_ORDER && lists[Count(priv) - 1] == []
      modifies this`priv, this`shared, this`dirty, this`changed, this`regions, this`lists, this`tiles
      ensures Carried(p0, s0, r0, live0) && |lists| == BUCKETS
      ensures var c := old(Count(priv));
        && (j < c ==> k == j && Count(priv) == c && lists == old(lists) && tiles == old(tiles))
        && (j >= c ==>
              && k == j - 1 && Count(priv) == c + 1
              && tiles == old(tiles)[Arena(c) := Tile(NewOrder(c), true)] && lists == OneGrown(old(lists), c))
      ensures sizeFollowsArena && Coalesced(old(tiles)) ==> Coalesced(tiles)
    {
      hide Layout, Evolved, DirtyOk, Live, Padded, Coalesced, Count, Size, Pow2, Arena;
      k := j;
      ghost var c := Count(priv);
      while k >= Count(priv)
        invariant Carried(p0, s0, r0, live0) && |lists| == BUCKETS
        invariant c <= Count(priv) <= c + 1
        invariant Count(priv) == c ==> k == j && lists == old(lists) && tiles == old(tiles)
        invariant Count(priv) == c + 1 ==> c <= j && k == j - 1
        invariant Count(priv) == c + 1 ==>
          tiles == old(tiles)[Arena(c) := Tile(NewOrder(c), true)] && lists == OneGrown(old(lists), c)
        invariant sizeFollowsArena && Coalesced(old(tiles)) ==> Coalesced(tiles)
        decreases k - Count(priv) + 2
      {
        GrowFrom(p0, s0, r0, live0);
        k := k - 1;
      }
    }

    /** The first loop of the search: grows until order i exists. */
    method GrowUpTo(i: nat)
      requires HeapOk() && DirtyOk() && |shared| == |priv|
      requires Available(i) || MostGrows(i, Count(priv)) <= MAX_ORDER
      modifies this`priv, this`shared, this`dirty, this`changed, this`regions, this`lists, this`tiles
      ensures Carried(old(priv), old(shared), old(regions), Live(old(tiles))) && i < Count(priv) < BUCKETS == |lists|
      ensures Begun(old(tiles), old(lists), old(Count(priv)), tiles, lists, Count(priv), Plain(i, old(Count(priv))), i)
      ensures sizeFollowsArena && Coalesced(old(tiles)) ==> Coalesced(tiles)
    {
      hide Layout, Evolved, DirtyOk, Live, Padded, Coalesced, Count, Size, Arena, Le, Begun, FreeFrom, Pow2, OneGrown;
      ghost var p0, s0, r0, t0, m0, c0 := priv, shared, regions, tiles, lists, Count(priv);
      ghost var m := LargeEnough(i);
      Unmoved();
      Unstarted(i);
      while i >= Count(priv)
        invariant Carried(p0, s0, r0, Live(t0)) && |lists| == BUCKETS
        invariant FreeFrom(t0, i) ==> i < c0
        invariant Begun(t0, m0, c0, tiles, lists, Count(priv), Plain(i, c0), i)
        invariant c0 <= Count(priv) <= (if i < c0 then c0 else i + 1)
        invariant sizeFollowsArena && Coalesced(t0) ==> Coalesced(tiles)
        decreases i - Count(priv)
      {
        ghost var t1, m1, c1 := tiles, lists, Count(priv);
        GrowFrom(p0, s0, r0, Live(t0));
        BegunOnce(t0, m0, c0, t1, m1, c1, Plain(i, c0), i, tiles, lists);
      }
    }

    /** Nothing merges in the search. */
    ghost predicate Plain(i: nat, c: nat) {
      !sizeFollowsArena || i < c
    }

    lemma Unstarted(i: nat)
      requires HeapOk()
      ensures var c := Count(priv); |lists| == BUCKETS && Begun(tiles, lists, c, tiles, lists, c, Plain(i, c), i)
    {
      hide Layout;
      LayoutParts(priv, tiles, lists, {}, Arena(Count(priv)));
      NoneFree(tiles, lists, i);
    }

    /** The second loop of the search: from i + 1 up, growing when there is no higher order, until a list has a
        block. */
    method LookAbove(i: nat, ghost m: nat, ghost p0: seq<byte>, ghost s0: seq<byte>, ghost r0: seq<Region>,
                     ghost t0: Tiles, ghost m0: seq<seq<nat>>, ghost c0: nat)
      returns (j: nat)
      requires Carried(p0, s0, r0, Live(t0)) && i + 1 < BUCKETS
      requires FreeFrom(t0, i) || MostGrows(i, c0) <= MAX_ORDER
      requires Looking(t0, m0, c0, tiles, lists, Count(priv), Plain(i, c0), i, m, i + 1)
      modifies this`priv, this`shared, this`dirty, this`changed, this`regions, this`lists, this`tiles
      ensures Carried(p0, s0, r0, Live(t0)) && j < BUCKETS && Head(priv, j) != 0
      ensures Looking(t0, m0, c0, tiles, lists, Count(priv), Plain(i, c0), i, m, j)
      ensures sizeFollowsArena && Coalesced(old(tiles)) ==> Coalesced(tiles)
    {
      hide Layout, Evolved, DirtyOk, Live, Padded, Coalesced, Count, Size, Head, Arena, Le, FreeFrom, Pow2;
      hide Looking, OneGrown, MostGrows;
      j := i + 1;
      while Head(priv, j) == 0
        invariant Carried(p0, s0, r0, Live(t0)) && j < BUCKETS
        invariant Looking(t0, m0, c0, tiles, lists, Count(priv), Plain(i, c0), i, m, j)
        invariant sizeFollowsArena && Coalesced(old(tiles)) ==> Coalesced(tiles)
        decreases i + 3 + c0 - Count(priv), Count(priv) - j
      {
        ghost var t1, m1, c1 := tiles, lists, Count(priv);
        HeadBlock(priv, tiles, lists, Arena(c1), j);
        MayGrow(t0, m0, c0, t1, m1, c1, Plain(i, c0), i, m, j);
        ghost var j1 := j;
        j := NextOrder(j + 1, p0, s0, r0, Live(t0));
        LookedOn(t0, m0, c0, t1, m1, c1, Plain(i, c0), i, m, j1, tiles, lists, Count(priv), j);
      }
    }

    /** The search of `db_alloc`: grows until order i exists, then takes the head of the first
        non-empty list from i up, growing again when there is none. */
    method FindBlock(i: nat) returns (bucket: nat, j: nat)
      requires HeapOk() && DirtyOk() && |shared| == |priv|
      requires Available(i) || MostGrows(i, Count(priv)) <= MAX_ORDER
      modifies this`priv, this`shared, this`dirty, this`changed, this`regions, this`lists, this`tiles
      ensures Carried(old(priv), old(shared), old(regions), Live(old(tiles)))
      ensures i <= j < MAX_ORDER && bucket in tiles && tiles[bucket] == Tile(j, true)
      ensures |lists| == BUCKETS == |old(lists)|
      ensures Chosen(old(tiles), old(lists), old(Count(priv)), tiles, lists, Count(priv),
                     sizeFollowsArena, i, bucket, j)
      ensures i < Count(priv) <= if old(Available(i)) then old(Count(priv)) else MostGrows(i, old(Count(priv)))
      ensures sizeFollowsArena && Coalesced(old(tiles)) ==> Coalesced(tiles)
    {
      hide Layout, Evolved, DirtyOk, Live, Padded, Coalesced, Count, Size, Head, Arena, Le, FreeFrom, Pow2;
      hide Begun, Looking, OneGrown, Chosen, MostGrows;
      ghost var p0, s0, r0, t0, m0, c0 := priv, shared, regions, tiles, lists, Count(priv);
      ghost var m := LargeEnough(i);
      Unstarted(i);
      GrowUpTo(i);
      HeadBlock(priv, tiles, lists, Arena(Count(priv)), i);
      j := i;
      if Head(priv, i) == 0 {
        j := i + 1;
        LookingStarts(t0, m0, c0, tiles, lists, Count(priv), Plain(i, c0), i, m);
        j := LookAbove(i, m, p0, s0, r0, t0, m0, c0);
        HeadBlock(priv, tiles, lists, Arena(Count(priv)), j);
        bucket := PosOf(Head(priv, j));
        LayoutParts(priv, tiles, lists, {}, Arena(Count(priv)));
        ChosenLater(t0, m0, c0, tiles, lists, Count(priv), sizeFollowsArena, i, m, bucket, j);
      } else {
        bucket := PosOf(Head(priv, j));
        LayoutParts(priv, tiles, lists, {}, Arena(Count(priv)));
        ChosenAtOnce(t0, m0, c0, tiles, lists, Count(priv), sizeFollowsArena, i, bucket);
      }
    }

    /** Nothing has happened yet. */
    lemma Unmoved()
      requires HeapOk() && DirtyOk() && |shared| == |priv|
      ensures Carried(priv, shared, regions, Live(tiles))
    {
      hide Tiled, ListsHold, Linked, TagsMatch;
      NullWrite(priv, regions, regions, tiles, Arena(Count(priv)));
      assert Padded(shared, |priv|) == shared;
    }

    /** One round of the split loop, seen from an earlier state. */
    method SplitFrom(bucket: nat, j: nat, ghost n: nat, ghost p0: seq<byte>, ghost r0: seq<Region>,
                     ghost t0: Tiles, ghost l0: seq<seq<nat>>)
      requires Layout(priv, tiles, lists, {}, n) && DirtyOk() && CutTo(t0, l0, tiles, lists, bucket, j + 1)
      requires bucket in tiles && tiles[bucket] == Tile(j + 1, true) && j + 1 < BUCKETS
      requires Evolved(p0, r0, priv, regions, Live(tiles))
      modifies this`priv, this`dirty, this`changed, this`regions, this`lists, this`tiles
      ensures Layout(priv, tiles, lists, {}, n) && DirtyOk() && CutTo(t0, l0, tiles, lists, bucket, j)
      ensures bucket in tiles && tiles[bucket] == Tile(j, true) && Live(tiles) == Live(old(tiles))
      ensures |priv| == |old(priv)| && Count(priv) == old(Count(priv)) && Size(priv) == old(Size(priv))
      ensures Evolved(p0, r0, priv, regions, Live(tiles))
      ensures CoalescedBut(old(tiles), bucket) ==> CoalescedBut(tiles, bucket)
    {
      hide Le, Layout, Evolved, BoundariesOf, Live, Split, CoalescedBut, Count, Size, Tiled, ListsHold;
      hide Linked, ViewOf, Aligned, CutTo, OneCut, Pow2;
      ghost var p1, r1, t1, l1 := priv, regions, tiles, lists;
      LayoutParts(priv, tiles, lists, {}, n);
      SplitCoalescedIf(tiles, n, bucket);
      SplitFacts(tiles, bucket);
      SplitTiles(tiles, n, bucket);
      SplitBucket(bucket, n);
      EvolvedTwice(p0, r0, p1, r1, priv, regions, Live(t1));
      CutToOnce(t0, l0, t1, l1, bucket, j, lists);
    }

    /** The split loop of `db_alloc`: halves the block until it has the wanted order. */
    method SplitDown(bucket: nat, i: nat, ghost n: nat)
      requires Layout(priv, tiles, lists, {}, n) && DirtyOk()
      requires bucket in tiles && tiles[bucket].free && i <= tiles[bucket].order < BUCKETS
      modifies this`priv, this`dirty, this`changed, this`regions, this`lists, this`tiles
      ensures Layout(priv, tiles, lists, {}, n) && DirtyOk()
      ensures |priv| == |old(priv)| && Count(priv) == old(Count(priv)) && Size(priv) == old(Size(priv))
      ensures bucket in tiles && tiles[bucket] == Tile(i, true)
      ensures Live(tiles) == Live(old(tiles))
      ensures Evolved(old(priv), old(regions), priv, regions, Live(tiles))
      ensures CoalescedBut(old(tiles), bucket) ==> CoalescedBut(tiles, bucket)
      ensures CutTo(old(tiles), old(lists), tiles, lists, bucket, i)
    {
      hide Le, Layout, Evolved, BoundariesOf, Live, Split, CoalescedBut, Count, Size, Tiled, ListsHold;
      hide Linked, ViewOf, Aligned, CutTo, Pow2;
      ghost var p0, r0, l0, t0, m0 := priv, regions, Live(tiles), tiles, lists;
      LayoutParts(priv, tiles, lists, {}, n);
      NullWrite(priv, regions, regions, tiles, n);
      BlockFacts(priv, tiles, lists, {}, n, bucket);
      var j := Order(priv, bucket);
      CutToNone(tiles, lists, bucket);
      while j > i
        invariant Layout(priv, tiles, lists, {}, n) && DirtyOk()
        invariant |priv| == |p0| >= HEADER && Count(priv) == Count(p0) && Size(priv) == Size(p0)
        invariant i <= j < BUCKETS && bucket in tiles && tiles[bucket] == Tile(j, true)
        invariant Live(tiles) == l0 && Evolved(p0, r0, priv, regions, l0)
        invariant CoalescedBut(t0, bucket) ==> CoalescedBut(tiles, bucket)
        invariant CutTo(t0, m0, tiles, lists, bucket, j)
      {
        SplitFrom(bucket, j - 1, n, p0, r0, t0, m0);
        LayoutParts(priv, tiles, lists, {}, n);
        j := j - 1;
      }
    }

    /** The end of `db_alloc`: the block leaves its list and is marked as handed out. */
    method TakeBlock(bucket: nat, ghost n: nat)
      requires Layout(priv, tiles, lists, {}, n) && DirtyOk()
      requires bucket in tiles && tiles[bucket].free
      modifies this`priv, this`dirty, this`changed, this`regions, this`lists, this`tiles
      ensures Layout(priv, tiles, lists, {}, n) && DirtyOk()
      ensures |priv| == |old(priv)| && Count(priv) == old(Count(priv)) && Size(priv) == old(Size(priv))
      ensures bucket !in Live(old(tiles))
      ensures Live(tiles) == Live(old(tiles))[bucket := old(tiles)[bucket].order]
      ensures Evolved(old(priv), old(regions), priv, regions, Live(old(tiles)))
      ensures CoalescedBut(old(tiles), bucket) ==> Coalesced(tiles)
      ensures tiles == old(tiles)[bucket := Tile(old(tiles)[bucket].order, false)]
      ensures var k := old(tiles)[bucket].order; lists == old(lists)[k := Dropped(old(lists)[k], bucket)]
    {
      hide Layout, Evolved, InSome, BoundariesOf, CoalescedBut, Coalesced, Count, Size, Tiled, SetTag;
      hide ListsHold, Linked, ViewOf;
      ghost var p0, r0, t0 := priv, regions, tiles;
      LayoutParts(priv, tiles, lists, {}, n);
      TakenTiles(tiles, n, bucket);
      assert {} + {bucket} == {bucket};
      ExtractBucket(bucket, {}, n);
      ghost var p1, r1 := priv, regions;
      LayoutParts(priv, tiles, lists, {bucket}, n);
      BlockFacts(priv, tiles, lists, {bucket}, n, bucket);
      priv := SetTag(priv, bucket, Order(priv, bucket), false);
      StatusStep(p1, priv, tiles, lists, {bucket}, n, bucket, false);
      TagEvolves(p1, r1, priv, r1, tiles, n, bucket);
      EvolvedTwice(p0, r0, p1, r1, priv, r1, Live(t0));
      tiles := tiles[bucket := tiles[bucket].(free := false)];
    }

    /** `db_alloc` */
    method Alloc(size: nat) returns (ptr: Ptr, ghost found: Tiles, ghost foundLists: seq<seq<nat>>)
      requires HeapOk() && DirtyOk() && |shared| == |priv| && CanServe(size)
      modifies this`priv, this`shared, this`dirty, this`changed, this`regions, this`lists, this`tiles
      ensures HeapOk() && DirtyOk()
      ensures IsLive(ptr)
      ensures var b := PosOf(ptr.off - 1);
        && b !in Live(old(tiles)) && FitsBest(size, Live(tiles)[b]) && NetSize(Live(tiles)[b]) >= size
        && Live(tiles) == Live(old(tiles))[b := Live(tiles)[b]]
        && var i, c := Live(tiles)[b], old(Count(priv));
        && i < Count(priv) <= (if old(Available(i)) then c else MostGrows(i, c))
        && |old(lists)| == BUCKETS == |foundLists| && b in found
        && Chosen(old(tiles), old(lists), c, found, foundLists, Count(priv), sizeFollowsArena, i, b, found[b].order)
        && HandedOut(found, foundLists, tiles, lists, b, i)
      ensures var b := PosOf(ptr.off - 1);
        var i := Live(tiles)[b];
        && (old(Available(i)) ==> BestFit(old(tiles), b, i) && HandedOut(old(tiles), old(lists), tiles, lists, b, i))
        && ((exists x :: x in old(tiles) && old(tiles)[x] == Tile(i, true)) ==>
              tiles == old(tiles)[b := Tile(i, false)])
      ensures |old(priv)| <= |priv| == |shared| && shared == Padded(old(shared), |priv|)
      ensures Evolved(old(priv), old(regions), priv, regions, Live(old(tiles)))
      ensures old(Agrees()) ==> Agrees()
      ensures old(DiskOk()) ==> DiskOk()
      ensures sizeFollowsArena && Coalesced(old(tiles)) ==> Coalesced(tiles)
    {
      hide Layout, Recorded, PayloadsKept, InSome, BoundariesOf, CoalescedBut, Coalesced, Count, Size, Tiled;
      hide ListsHold, Linked, ViewOf, Live, Settled, EncodeAll, Arena, Padded, Chosen, HandedOut, CutTo;
      hide MostGrows, FreeFrom, BestFit, Pow2, NetSize;
      ghost var p0, s0, r0, l0 := priv, shared, regions, Live(tiles);
      var i := GetBucketForSize(size);
      var bucket, j := FindBlock(i);
      found, foundLists := tiles, lists;
      ghost var t0, m0, c0 := old(tiles), old(lists), old(Count(priv));
      ghost var n := Arena(Count(priv));
      ghost var p1, r1 := priv, regions;
      CoalescedIsBut(tiles, bucket);
      SplitDown(bucket, i, n);
      ghost var p2, r2, t2, m2 := priv, regions, tiles, lists;
      TakeBlock(bucket, n);
      EvolvedTwice(p0, r0, p1, r1, p2, r2, l0);
      EvolvedTwice(p0, r0, p2, r2, priv, regions, l0);
      ptr := At(UnitAt(bucket) + 1);
      CutAndTaken(found, foundLists, t2, m2, bucket, i);
      ChosenFits(t0, m0, c0, found, foundLists, Count(priv), sizeFollowsArena, i, bucket, tiles, lists);
      if old(Agrees()) { TrackingKept(p0, priv, s0, r0, regions); }
      if old(DiskOk()) { GrownDisk(s0); }
    }

    lemma GrownDisk(s0: seq<byte>)
      requires Settled(log, s0) && HeapIn(s0, savedTiles, savedLists, sizeFollowsArena)
      requires HeapOk() && |s0| <= |priv| == |shared| && shared == Padded(s0, |shared|)
      ensures Settled(log, shared) && HeapIn(shared, savedTiles, savedLists, sizeFollowsArena)
    {
      PaddedSettled(log, s0, |shared|);
      HeapInGrown(s0, savedTiles, savedLists, sizeFollowsArena, |shared|);
    }

    /** A stretch of a live block's payload, in bytes of the image. */
    ghost predicate InPayload(ptr: Ptr, at: nat, len: nat)
      reads this`tiles
    {
      IsLive(ptr) && at + len <= NetSize(Live(tiles)[PosOf(ptr.off - 1)])
    }

    /** `memcpy` into a live block: the heap and all other blocks stay as they are. */
    method CopyInto(ptr: Ptr, at: nat, data: seq<byte>)
      requires HeapOk() && DirtyOk() && InPayload(ptr, at, |data|)
      modifies this`priv
      ensures HeapOk() && DirtyOk()
      ensures ptr.off + at + |data| <= |priv| == |old(priv)| && Count(priv) == old(Count(priv))
      ensures priv == Poke(old(priv), ptr.off + at, data)
      ensures PayloadsKept(old(priv), priv, Live(tiles) - {PosOf(ptr.off - 1)})
    {
      hide Layout, BoundariesOf, Recorded, PayloadsKept, Tiled, ListsHold, Linked, Count, Size, Le;
      ghost var n, b := Arena(Count(priv)), PosOf(ptr.off - 1);
      LayoutParts(priv, tiles, lists, {}, n);
      LiveInside(priv, tiles, n, b);
      ghost var p0 := priv;
      priv := Poke(priv, ptr.off + at, data);
      PayloadWrite(p0, priv, tiles, lists, n, b, ptr.off + at, |data|);
      assert Count(priv) == ViewOf(priv).count && Size(priv) == ViewOf(priv).size;
      assert Count(p0) == ViewOf(p0).count && Size(p0) == ViewOf(p0).size;
    }

    /** A caller writes into its block and marks what it wrote. */
    method WriteBlock(ptr: Ptr, at: nat, data: seq<byte>)
      requires HeapOk() && DirtyOk() && InPayload(ptr, at, |data|) && |data| > 0
      modifies this`priv, this`dirty, this`changed, this`regions
      ensures HeapOk() && DirtyOk()
      ensures ptr.off + at + |data| <= |priv| == |old(priv)|
      ensures priv == Poke(old(priv), ptr.off + at, data)
      ensures PayloadsKept(old(priv), priv, Live(tiles) - {PosOf(ptr.off - 1)})
      ensures old(Agrees()) ==> Agrees()
    {
      hide HeapOk, BoundariesOf, Recorded, PayloadsKept, InSome;
      ghost var p0, r0 := priv, regions;
      CopyInto(ptr, at, data);
      InvalidateRegion(At(ptr.off + at), |data|);
      PokeRecorded(p0, ptr.off + at, data, regions);
      if old(Agrees()) { TrackingKeptInPlace(p0, priv, shared, r0, regions); }
    }

    /** Copies the whole payload of one block into another and frees the first. */
    method Relocate(ptr: Ptr, np: Ptr, net: nat)
      requires HeapOk() && DirtyOk() && IsLive(ptr) && IsLive(np) && ptr != np
      requires net == NetSize(Live(tiles)[PosOf(ptr.off - 1)]) <= NetSize(Live(tiles)[PosOf(np.off - 1)])
      modifies this`priv, this`dirty, this`changed, this`regions, this`lists, this`tiles
      ensures HeapOk() && DirtyOk() && |priv| == |old(priv)| && Count(priv) == old(Count(priv))
      ensures Live(tiles) == Live(old(tiles)) - {PosOf(ptr.off - 1)}
      ensures ptr.off + net <= |priv| && np.off + net <= |priv|
      ensures priv[np.off..np.off + net] == old(priv)[ptr.off..ptr.off + net]
      ensures PayloadsKept(old(priv), priv, Live(old(tiles)) - {PosOf(ptr.off - 1), PosOf(np.off - 1)})
      ensures Recorded(old(priv), priv, regions + [Region(np.off, np.off + net)]) && old(regions) <= regions
      ensures sizeFollowsArena && Coalesced(old(tiles)) ==> Coalesced(tiles)
    {
      hide HeapOk, BoundariesOf, Recorded, PayloadsKept, InSome, Live, Padded, Coalesced, FreeBuddy;
      hide Count, Size, Poke, Pow2;
      ghost var b, c, l1 := PosOf(ptr.off - 1), PosOf(np.off - 1), Live(tiles);
      LiveFacts(b);
      LiveFacts(c);
      ghost var p1, r1 := priv, regions;
      var payload := priv[ptr.off..ptr.off + net];
      CopyInto(np, 0, payload);
      ghost var p2 := priv;
      FreeBlock(ptr);
      ghost var p3, r3 := priv, regions;
      Transferred(p1, r1, p2, p3, r3, l1, b, c, np.off, payload);
    }

    /** The moving case of `db_realloc`: a new block, the old payload copied, the old block freed. */
    method MoveBlock(ptr: Ptr, net: nat, newSize: nat) returns (np: Ptr)
      requires HeapOk() && DirtyOk() && |shared| == |priv| && IsLive(ptr)
      requires net == NetSize(Live(tiles)[PosOf(ptr.off - 1)]) < newSize
      requires CanServe(newSize)
      modifies this`priv, this`shared, this`dirty, this`changed, this`regions, this`lists, this`tiles
      ensures HeapOk() && DirtyOk()
      ensures IsLive(np) && NetSize(Live(tiles)[PosOf(np.off - 1)]) >= newSize
      ensures var c, i := PosOf(np.off - 1), Live(tiles)[PosOf(np.off - 1)];
        FitsBest(newSize, i) && (old(Available(i)) ==> BestFit(old(tiles), c, i))
      ensures |old(priv)| <= |priv| == |shared| && shared == Padded(old(shared), |priv|)
      ensures PosOf(np.off - 1) !in Live(old(tiles))
      ensures var b, c := PosOf(ptr.off - 1), PosOf(np.off - 1);
        Live(tiles) == (Live(old(tiles)) - {b})[c := Live(tiles)[c]]
      ensures PayloadsKept(old(priv), priv, Live(old(tiles)) - {PosOf(ptr.off - 1)})
      ensures ptr.off + net <= |old(priv)| && np.off + net <= |priv|
      ensures priv[np.off..np.off + net] == old(priv)[ptr.off..ptr.off + net]
      ensures Recorded(old(priv), priv, regions) && old(regions) <= regions
      ensures old(DiskOk()) ==> DiskOk()
      ensures sizeFollowsArena && Coalesced(old(tiles)) ==> Coalesced(tiles)
    {
      hide HeapOk, BoundariesOf, Recorded, PayloadsKept, InSome, Live, Settled, EncodeAll, Padded, Coalesced;
      hide Chosen, HandedOut, BestFit, FreeFrom, NetSize, HeapIn;
      hide FreeBuddy, FitsBest, Count, Size, Pow2;
      ghost var p0, r0, l0 := priv, regions, Live(tiles);
      ghost var b := PosOf(ptr.off - 1);
      LiveFacts(b);
      ghost var found, foundLists;
      np, found, foundLists := Alloc(newSize);
      ghost var p1, r1, l1, c := priv, regions, Live(tiles), PosOf(np.off - 1);
      PayloadOf(p0, p1, l0, b, ptr.off + net);
      Relocate(ptr, np, net);
      InvalidateRegion(np, net);
      RecordedTwice(p0, p1, priv, r1, regions);
      KeptByMove(p0, p1, priv, l0, l1, b, c);
    }

    /** `db_realloc` */
    method Realloc(ptr: Ptr, newSize: nat) returns (np: Ptr)
      requires HeapOk() && DirtyOk() && |shared| == |priv| && (ptr.At? ==> IsLive(ptr))
      requires ptr.Null? || NetSize(Live(tiles)[PosOf(ptr.off - 1)]) < newSize ==> CanServe(newSize)
      modifies this`priv, this`shared, this`dirty, this`changed, this`regions, this`lists, this`tiles
      ensures HeapOk() && DirtyOk()
      ensures IsLive(np) && NetSize(Live(tiles)[PosOf(np.off - 1)]) >= newSize
      ensures |old(priv)| <= |priv| == |shared| && shared == Padded(old(shared), |priv|)
      ensures np == ptr || PosOf(np.off - 1) !in Live(old(tiles))
      ensures np == ptr <==> ptr.At? && NetSize(Live(old(tiles))[PosOf(ptr.off - 1)]) >= newSize
      ensures np == ptr ==> priv == old(priv) && shared == old(shared) && tiles == old(tiles) && regions == old(regions)
      ensures np != ptr ==>
        var c, i := PosOf(np.off - 1), Live(tiles)[PosOf(np.off - 1)];
        FitsBest(newSize, i) && (old(Available(i)) ==> BestFit(old(tiles), c, i))
      ensures ptr.Null? ==> Live(tiles) == Live(old(tiles))[PosOf(np.off - 1) := Live(tiles)[PosOf(np.off - 1)]]
      ensures ptr.Null? ==> PayloadsKept(old(priv), priv, Live(old(tiles)))
      ensures ptr.At? ==>
        Live(tiles) == (Live(old(tiles)) - {PosOf(ptr.off - 1)})[PosOf(np.off - 1) := Live(tiles)[PosOf(np.off - 1)]]
      ensures ptr.At? ==> PayloadsKept(old(priv), priv, Live(old(tiles)) - {PosOf(ptr.off - 1)})
      ensures ptr.At? ==> var net := NetSize(Live(old(tiles))[PosOf(ptr.off - 1)]);
        && ptr.off + net <= |old(priv)| && np.off + net <= |priv|
        && priv[np.off..np.off + net] == old(priv)[ptr.off..ptr.off + net]
      ensures old(Agrees()) ==> Agrees()
      ensures old(DiskOk()) ==> DiskOk()
      ensures sizeFollowsArena && Coalesced(old(tiles)) ==> Coalesced(tiles)
    {
      hide HeapOk, BoundariesOf, Recorded, PayloadsKept, InSome, Live, Settled, EncodeAll, Padded, Coalesced;
      hide Chosen, HandedOut, BestFit, FreeFrom;
      hide FreeBuddy, FitsBest, Count, Size;
      if ptr.Null? {
        ghost var found, foundLists;
        np, found, foundLists := Alloc(newSize);
        return;
      }
      ghost var b := PosOf(ptr.off - 1);
      LiveFacts(b);
      var net := NetSize(Order(priv, PosOf(ptr.off - 1)));
      if net >= newSize {
        np := ptr;
        Unmoved();
        SameLive(Live(tiles), b);
        SamePayloads(priv, regions, Live(tiles), b);
        return;
      }
      ghost var p0, s0, r0 := priv, shared, regions;
      np := MoveBlock(ptr, net, newSize);
      if old(Agrees()) { TrackingKept(p0, priv, s0, r0, regions); }
    }

    lemma LiveFacts(b: nat)
      requires HeapOk() && b in Live(tiles)
      ensures |priv| >= HEADER && b < Units(priv) && Order(priv, b) == Live(tiles)[b]
      ensures UnitAt(b) + 1 + NetSize(Live(tiles)[b]) == UnitAt(b + Pow2(Live(tiles)[b])) <= |priv|
    {
      hide Layout;
      var n := Arena(Count(priv));
      LayoutParts(priv, tiles, lists, {}, n);
      LiveInside(priv, tiles, n, b);
      BlockFacts(priv, tiles, lists, {}, n, b);
    }

    /** `db_check_journal` */
    method CheckJournal() returns (verdict: int)
      ensures verdict == Check(journal, 0)
    {
      var pos := 0;
      verdict := 0;
      while pos < |journal|
        invariant pos <= |journal|
        invariant Check(journal[pos..], verdict) == Check(journal, 0)
        decreases |journal| - pos
      {
        ghost var bs := journal[pos..];
        if |journal| - pos < 4 { return -1; }
        var kind := Le(journal[pos..pos + 4]);
        assert bs[..4] == journal[pos..pos + 4];
        if kind == WRITE {
          if |journal| - pos < 20 { return -1; }
          var size := Le(journal[pos + 12..pos + 20]);
          assert bs[12..20] == journal[pos + 12..pos + 20];
          if size >= 0x8000_0000_0000_0000 { return -1; }
          verdict := -1;
          if pos + 20 + size <= |journal| {
            pos := pos + 20 + size;
            assert bs[20 + size..] == journal[pos..];
          } else {
            pos := |journal|;
            assert journal[pos..] == [];
          }
        } else {
          if kind == COMMIT { verdict := 1; }
          pos := pos + 4;
          assert bs[4..] == journal[pos..];
        }
      }
    }

    /** `db_replay_journal` */
    method ReplayJournal()
      modifies this`shared
      ensures shared == Replay(journal, old(shared))
    {
      var pos := 0;
      while pos < |journal|
        invariant pos <= |journal|
        invariant Replay(journal[pos..], shared) == Replay(journal, old(shared))
        decreases |journal| - pos
      {
        ghost var bs := journal[pos..];
        if |journal| - pos < 4 { return; }
        var kind := Le(journal[pos..pos + 4]);
        assert bs[..4] == journal[pos..pos + 4];
        if kind == WRITE {
          if |journal| - pos < 20 { return; }
          var ptr, size := Le(journal[pos + 4..pos + 12]), Le(journal[pos + 12..pos + 20]);
          assert bs[4..12] == journal[pos + 4..pos + 12] && bs[12..20] == journal[pos + 12..pos + 20];
          pos := pos + 20;
          if size >= 0x8000_0000_0000_0000 {
            assert bs[20..] == journal[pos..];
            continue;
          }
          if pos + size > |journal| {
            assert bs[20..] == journal[pos..];
            shared := Overlay(shared, ptr, journal[pos..]);
            return;
          }
          assert bs[20..20 + size] == journal[pos..pos + size];
          shared := Overlay(shared, ptr, journal[pos..pos + size]);
          pos := pos + size;
          assert bs[20 + size..] == journal[pos..];
        } else {
          pos := pos + 4;
          assert bs[4..] == journal[pos..];
        }
      }
    }

    /** `db_begin_transaction` */
    method BeginTransaction()
      modifies this`transactions
      ensures transactions == old(transactions) + 1
    {
      transactions := transactions + 1;
    }

    /** `write` to the journal file, which may come to its end. */
    method Append(data: seq<byte>, room: nat) returns (left: nat, ok: bool)
      modifies this`journal
      ensures journal == old(journal) + Taken(data, room)
      ensures ok == (|data| <= room) && (ok ==> left == room - |data|)
    {
      ok := |data| <= room;
      left := if ok then room - |data| else 0;
      journal := journal + Taken(data, room);
    }

    /** The journal record of one swept region, field by field. */
    method WriteRecord(lo: nat, hi: nat, room: nat) returns (left: nat, ok: bool)
      requires lo <= hi <= |priv|
      modifies this`journal
      ensures var bytes := Encode(Write(lo, priv[lo..hi]));
        && journal == old(journal) + Taken(bytes, room)
        && ok == (|bytes| <= room) && (ok ==> left == room - |bytes|)
    {
      hide ToLe, Taken;
      ghost var j0 := journal;
      var kind, ptr, size, data := ToLe(WRITE, 4), ToLe(lo, 8), ToLe(hi - lo, 8), priv[lo..hi];
      TakenBoth(kind, ptr, room);
      TakenBoth(kind + ptr, size, room);
      TakenBoth(kind + ptr + size, data, room);
      left, ok := Append(kind, room);
      if !ok { return; }
      Whole(kind, room);
      ghost var left1 := left;
      left, ok := Append(ptr, left);
      assert journal == j0 + (kind + Taken(ptr, left1));
      if !ok { return; }
      Whole(ptr, left1);
      ghost var left2 := left;
      left, ok := Append(size, left);
      assert journal == j0 + (kind + ptr + Taken(size, left2));
      if !ok { return; }
      Whole(size, left2);
      ghost var left3 := left;
      left, ok := Append(data, left);
      assert journal == j0 + (kind + ptr + size + Taken(data, left3));
    }

    /** The sweep loop of `db_commit` over the sorted boundaries, and where it gives up. */
    method WriteJournal(order: seq<Boundary>, room: nat) returns (ok: bool)
      requires DirtyOk() && multiset(order) == multiset(dirty) && SortedByPosition(order)
      modifies this`journal
      ensures IsSortOf(order, regions) && Inside(Run(order).out, |priv|)
      ensures var bytes := EncodeAll(WritesOf(Run(order).out, priv));
        journal == old(journal) + Taken(bytes, room) && ok == (|bytes| <= room)
    {
      hide Run, WritesOf, EncodeAll, IsSortOf, BoundariesOf, SortedByPosition, Encode, Taken;
      var nesting, start: nat, left: nat := 0, 0, room;
      ghost var j0, out := journal, [];
      assert order[..0] == [];
      StartOfRun();
      NoWrites(priv);
      WrittenInside(dirty, regions, |priv|, order, 0);
      SortedSweep(dirty, regions, |priv|, order);
      for i := 0 to |order|
        invariant State(nesting, start, out) == Run(order[..i])
        invariant nesting >= 0 && Inside(out, |priv|)
        invariant journal == j0 + EncodeAll(WritesOf(out, priv))
        invariant left == room - |EncodeAll(WritesOf(out, priv))|
      {
        var region := order[i];
        RunStep(order, i);
        WrittenInside(dirty, regions, |priv|, order, i + 1);
        if region.start {
          if nesting == 0 { start := region.pos; }
          nesting := nesting + 1;
        } else {
          nesting := nesting - 1;
          if nesting == 0 {
            ghost var more := out + [Region(start, region.pos)];
            assert more[|out|] == Region(start, region.pos);
            OneMoreWrite(out, Region(start, region.pos), priv);
            ghost var rest := left;
            left, ok := WriteRecord(start, region.pos, left);
            if !ok {
              RunGrows(order, i + 1);
              CutRecord(out, Region(start, region.pos), Run(order).out, room);
              return;
            }
            Whole(Encode(Write(start, priv[start..region.pos])), rest);
            out := more;
          }
        }
      }
      assert order[..|order|] == order;
      Whole(EncodeAll(WritesOf(out, priv)), room);
      ok := true;
    }

    /** A record that does not fit ends what the file takes of the whole batch. */
    lemma CutRecord(out: seq<Region>, r: Region, all: seq<Region>, room: nat)
      requires Inside(out, |priv|) && Inside(all, |priv|) && out + [r] <= all && r.lo < r.hi <= |priv|
      requires Inside(out + [r], |priv|)
      requires |EncodeAll(WritesOf(out, priv))| <= room
      requires room < |EncodeAll(WritesOf(out, priv))| + |Encode(Write(r.lo, priv[r.lo..r.hi]))|
      ensures var bytes := EncodeAll(WritesOf(all, priv));
        && room < |bytes|
        && Taken(bytes, room) == EncodeAll(WritesOf(out, priv)) +
             Taken(Encode(Write(r.lo, priv[r.lo..r.hi])), room - |EncodeAll(WritesOf(out, priv))|)
    {
      hide Encode, EncodeAll, WritesOf, Taken;
      OneMoreWrite(out, r, priv);
      FewerWrites(out + [r], all, priv);
      TakenInside(EncodeAll(WritesOf(all, priv)), EncodeAll(WritesOf(out, priv)),
                  Encode(Write(r.lo, priv[r.lo..r.hi])), room);
    }

    lemma Whole(bytes: seq<byte>, room: nat)
      requires |bytes| <= room
      ensures Taken(bytes, room) == bytes
    {
    }

    /** `db_commit` from the commit record on: the record, and the replay onto the shared image. */
    method InstallBatch(order: seq<Boundary>)
      requires DirtyOk() && Agrees() && Settled(log, shared) && |priv| <= MAP_SIZE
      requires multiset(order) == multiset(dirty) && SortedByPosition(order)
      requires journal == EncodeAll(log) + EncodeAll(Writes(order))
      modifies this`journal, this`shared, this`log
      ensures shared == priv && JournalOk()
      ensures Disk(journal, shared) == CommitUpTo(old(log), Writes(order), old(shared), AtEnd(false))
    {
      hide EncodeAll, Replay, Settled, Run, WritesOf, IsSortOf, BoundariesOf, SortedByPosition, ApplyAll, InSome, ToLe;
      ghost var s0, log0, ws := shared, log, Writes(order);
      SortedSweep(dirty, regions, |priv|, order);
      SweepIsUnion(regions, order);
      TrackedBatch(Run(order).out, priv, shared);
      CommitJournal(log0, ws);
      journal := journal + ToLe(COMMIT, 4);
      ReplayInstalls(log0, ws, priv, s0, 0);
      SettledAgain(log0, ws, priv, s0);
      ReplayJournal();
      log := log0 + (ws + [Journal.Commit]);
    }

    /** A commit that gave up while it wrote its journal, after n bytes: a restart would find the last commit, and the
        database is still valid if and only if every next commit is installed. */
    ghost method GiveUp(order: seq<Boundary>, n: nat)
      requires HeapOk() && DirtyOk() && Agrees() && Settled(log, shared)
      requires HeapIn(shared, savedTiles, savedLists, sizeFollowsArena)
      requires multiset(order) == multiset(dirty) && SortedByPosition(order)
      requires n <= |EncodeAll(Writes(order))|
      requires journal == CommitUpTo(log, Writes(order), shared, InJournal(n)).journal
      modifies this`log
      ensures Recover(Disk(journal, shared)).image == shared
      ensures Valid() <==> NextCommitInstalls(journal, shared)
    {
      hide HeapIn, EncodeAll, Settled, Run, WritesOf, BoundariesOf, SortedByPosition, InSome, Recover;
      hide NextCommitInstalls;
      ImageSize();
      SortedSweep(dirty, regions, |priv|, order);
      SweepIsUnion(regions, order);
      LongerBatch(Writes(order));
      AfterTornCommit(log, Run(order).out, priv, shared, n);
      CrashAtomic(log, Run(order).out, priv, shared, InJournal(n));
      if Clean(journal, shared) { log := LogOf(journal, shared); }
    }

    /** Where a commit stops when its journal file takes room more bytes, and its journal sync and its final sync
        succeed or not. */
    ghost function Stop(order: seq<Boundary>, room: nat, logged: bool, synced: bool): Cut
      requires DirtyOk() && multiset(order) == multiset(dirty) && SortedByPosition(order)
      reads this`dirty, this`regions, this`priv, this`changed
    {
      var n := |EncodeAll(Writes(order))|;
      if room < n then InJournal(room) else if !logged then InJournal(n) else AtEnd(synced)
    }

    /** The outermost `db_commit` with changes. */
    method StoreBatch(order: seq<Boundary>, room: nat, logged: bool, synced: bool)
      requires Valid() && multiset(order) == multiset(dirty) && SortedByPosition(order) && changed
      modifies this`journal, this`shared, this`dirty, this`changed, this`regions, this`log
      modifies this`savedTiles, this`savedLists
      ensures HeapOk() && DirtyOk() && Agrees()
      ensures Disk(journal, shared) ==
        CommitUpTo(old(log), old(Writes(order)), old(shared), old(Stop(order, room, logged, synced)))
      ensures if old(Stop(order, room, logged, synced)).AtEnd?
        then Valid() && shared == priv && savedTiles == tiles && regions == [] && changed == !synced
        else
          && dirty == old(dirty) && regions == old(regions) && changed && savedTiles == old(savedTiles)
          && shared == old(shared) == Recover(Disk(journal, shared)).image
          && (Valid() <==> NextCommitInstalls(journal, shared))
    {
      hide HeapIn, EncodeAll, Replay, Settled, Run, WritesOf, BoundariesOf, Inside, SortedByPosition, Recover;
      hide NextCommitInstalls, Agrees, DirtyOk, Clean;
      ImageSize();
      ghost var ws := Writes(order);
      var ok := WriteJournal(order, room);
      LongerBatch(ws);
      if !ok || !logged {
        GiveUp(order, if ok then |EncodeAll(ws)| else room);
        return;
      }
      InstallBatch(order);
      savedTiles, savedLists := tiles, lists;
      EndCommit(synced);
    }

    /** The end of `db_commit`: the journal is cut off once the image is on disk, and nothing is dirty any more. */
    method EndCommit(synced: bool)
      requires HeapOk() && shared == priv && savedTiles == tiles && savedLists == lists && JournalOk() && changed
      modifies this`journal, this`log, this`dirty, this`changed, this`regions
      ensures Valid() && regions == [] && changed == !synced && journal == if synced then [] else old(journal)
    {
      hide HeapIn, EncodeAll, Settled, BoundariesOf;
      if synced {
        journal := [];
        log := [];
        changed := false;
        NothingLogged(priv);
      }
      dirty := [];
      regions := [];
      NothingDirty(|priv|);
    }

    /** `db_commit`, given the order in which the sort leaves the boundaries, the bytes of records that the journal file
        takes, and whether the journal sync and the final sync succeed. */
    method Commit(order: seq<Boundary>, room: nat, logged: bool, synced: bool)
      requires Valid() && multiset(order) == multiset(dirty) && SortedByPosition(order)
      modifies this`transactions, this`journal, this`shared, this`dirty, this`changed, this`regions, this`log
      modifies this`savedTiles, this`savedLists
      ensures HeapOk() && DirtyOk() && Agrees() && transactions == old(transactions) - 1
      ensures transactions > 0 || !old(changed) ==>
        && Valid() && journal == old(journal) && shared == old(shared)
        && dirty == old(dirty) && regions == old(regions) && changed == old(changed)
      ensures transactions > 0 ==> savedTiles == old(savedTiles)
      ensures transactions <= 0 && !old(changed) ==> shared == priv && savedTiles == tiles && regions == []
      ensures var stop := old(Stop(order, room, logged, synced));
        var n := |EncodeAll(old(Writes(order)))|;
        && (stop.AtEnd? <==> logged && n <= room) && (stop.AtEnd? ==> stop.truncated == synced)
        && (!stop.AtEnd? ==> stop == InJournal(if room < n then room else n))
      ensures transactions <= 0 && old(changed) ==> var stop := old(Stop(order, room, logged, synced));
        && Disk(journal, shared) == CommitUpTo(old(log), old(Writes(order)), old(shared), stop)
        && if stop.AtEnd?
           then Valid() && shared == priv && savedTiles == tiles && regions == [] && changed == !synced
           else
             && dirty == old(dirty) && regions == old(regions) && changed && savedTiles == old(savedTiles)
             && shared == old(shared) == Recover(Disk(journal, shared)).image
             && (Valid() <==> NextCommitInstalls(journal, shared))
    {
      hide HeapIn, EncodeAll, Replay, Settled, WritesOf, BoundariesOf, SortedByPosition, Recover, NextCommitInstalls;
      hide CommitUpTo;
      transactions := transactions - 1;
      if transactions > 0 { return; }
      if !changed {
        CleanIsEqual();
        savedTiles, savedLists := tiles, lists;
        return;
      }
      StoreBatch(order, room, logged, synced);
    }

    lemma CleanIsEqual()
      requires Agrees() && regions == []
      ensures shared == priv
    {
      assert forall x :: 0 <= x < |priv| ==> priv[x] == shared[x];
    }

    lemma ImageSize()
      requires HeapOk()
      ensures HEADER <= |priv| <= MAP_SIZE
    {
    }
  }
}
