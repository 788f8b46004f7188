/** The ban index of persistence.c and bans.c: a doubly linked list of all bans, a hash map
    from normalised address ranges to the head of a second doubly linked list, and the
    prefix probing that must agree with a scan of the first. */
module Bans {
  import opened Chains
  import HashMap
  import opened Ip
  import opened Lists

  datatype Kind = Flood | CaptchaOnce | CaptchaPermanent | Blacklist
  datatype Target = Post | Report

  const SIGNED_LIMIT := 0x8000_0000_0000_0000

  /** `struct ban`; the links change, what the ban says does not. */
  class Ban {
    const range: Range
    const enabled: bool
    const kind: Kind
    const target: Target
    const timestamp: nat
    const duration: int
    /** None for a global ban, else board ids up to a negative one. */
    const boards: Option<seq<int>>

    var nextBan: Ban?
    var prevBan: Ban?
    var nextInBucket: Ban?
    var prevInBucket: Ban?

    /** A zeroed record with its fields filled in. */
    constructor (range: Range, enabled: bool, kind: Kind, target: Target, timestamp: nat, duration: int,
                 boards: Option<seq<int>>)
      ensures this.range == range && this.enabled == enabled && this.kind == kind && this.target == target
      ensures this.timestamp == timestamp && this.duration == duration && this.boards == boards
      ensures Unlinked()
    {
      this.range, this.enabled, this.kind, this.target := range, enabled, kind, target;
      this.timestamp, this.duration, this.boards := timestamp, duration, boards;
      nextBan, prevBan, nextInBucket, prevInBucket := null, null, null, null;
    }

    predicate Unlinked()
      reads this
    {
      nextBan == null && nextInBucket == null && prevInBucket == null
    }

    ghost function Key(): Key
      requires ValidRange(range)
    {
      KeyOf(range)
    }
  }

  /** A ban the index accepts: a range that fits its version, a board list that ends, times a clock gives. */
  ghost predicate ValidBan(b: Ban) {
    && ValidRange(b.range) && b.timestamp < SIGNED_LIMIT && -SIGNED_LIMIT <= b.duration < SIGNED_LIMIT
    && (b.boards.Some? ==> exists i :: 0 <= i < |b.boards.value| && b.boards.value[i] < 0)
  }

  // ---- Lists of bans ----

  ghost predicate Within(c: seq<Ban>, l: seq<Ban>) {
    forall i :: 0 <= i < |c| ==> c[i] in l
  }

  ghost function At(l: seq<Ban>, i: int): Ban? {
    if 0 <= i < |l| then l[i] else null
  }

  ghost predicate ListedAt(l: seq<Ban>, i: int)
    requires 0 <= i < |l|
    reads l`nextBan, l`prevBan
  {
    l[i].nextBan == At(l, i + 1) && l[i].prevBan == At(l, i - 1)
  }

  ghost predicate ChainedAt(l: seq<Ban>, i: int)
    requires 0 <= i < |l|
    reads l`nextInBucket, l`prevInBucket
  {
    l[i].nextInBucket == At(l, i + 1) && l[i].prevInBucket == At(l, i - 1)
  }

  ghost predicate Listed(l: seq<Ban>)
    reads l`nextBan, l`prevBan
  {
    Distinct(l) && forall i :: 0 <= i < |l| ==> ListedAt(l, i)
  }

  ghost predicate Chained(l: seq<Ban>)
    reads l`nextInBucket, l`prevInBucket
  {
    Distinct(l) && forall i :: 0 <= i < |l| ==> ChainedAt(l, i)
  }

  /** The links that `insert_ban_into_hashmap` sets when the chain has a head. */
  method LinkBefore(ban: Ban, head: Ban, ghost chain: seq<Ban>)
    requires Chained(chain) && At(chain, 0) == head && ban !in chain && ban.prevInBucket == null
    modifies ban`nextInBucket, head`prevInBucket
    ensures Chained([ban] + chain)
  {
    head.prevInBucket := ban;
    ban.nextInBucket := head;
    forall i | 0 <= i < |chain| + 1 ensures ChainedAt([ban] + chain, i) {
      if i > 0 { assert old(ChainedAt(chain, i - 1)); }
    }
  }

  lemma Alone(ban: Ban)
    requires ban.nextInBucket == null && ban.prevInBucket == null
    ensures Chained([ban])
  {
  }

  /** Where a chain starts after a ban has left it. */
  lemma HeadWithout(chain: seq<Ban>, ban: Ban)
    requires Distinct(chain) && ban in chain
    ensures At(Without(chain, {ban}), 0) == if chain[0] == ban then At(chain, 1) else chain[0]
  {
    var i :| 0 <= i < |chain| && chain[i] == ban;
    CutIsWithout(chain, i);
  }

  lemma ChainedHead(chain: seq<Ban>)
    requires Chained(chain) && |chain| > 0
    ensures Distinct(chain) && chain[0].nextInBucket == At(chain, 1)
  {
    assert ChainedAt(chain, 0);
  }

  /** The links that `delete_ban_from_hashmap` resets: the ban's neighbours in its chain meet. */
  method Bypass(ban: Ban, ghost chain: seq<Ban>)
    requires Chained(chain) && ban in chain
    modifies chain`nextInBucket, chain`prevInBucket
    ensures Chained(Without(chain, {ban})) && ban.nextInBucket == old(ban.nextInBucket)
  {
    hide Without;
    ghost var i :| 0 <= i < |chain| && chain[i] == ban;
    CutIsWithout(chain, i);
    ghost var rest := Without(chain, {ban});
    assert ChainedAt(chain, i);
    var prev := ban.prevInBucket;
    var next := ban.nextInBucket;
    if prev != null { prev.nextInBucket := next; }
    if next != null { next.prevInBucket := prev; }
    forall m | 0 <= m < |rest| ensures ChainedAt(rest, m) {
      assert old(ChainedAt(chain, if m < i then m else m + 1));
    }
  }

  lemma ListedEnds(l: seq<Ban>)
    requires Listed(l) && |l| > 0
    ensures Distinct(l)
    ensures l[0].nextBan == At(l, 1) && l[|l| - 1].prevBan == At(l, |l| - 2)
  {
    assert ListedAt(l, 0) && ListedAt(l, |l| - 1);
  }

  lemma LastWithout(l: seq<Ban>, ban: Ban)
    requires Distinct(l) && ban in l
    ensures var r := Without(l, {ban});
      At(r, |r| - 1) == if l[|l| - 1] == ban then At(l, |l| - 2) else l[|l| - 1]
  {
    var i :| 0 <= i < |l| && l[i] == ban;
    CutIsWithout(l, i);
  }

  /** The links that `delete_ban` resets: the ban's neighbours in the list of all bans meet. */
  method Skip(ban: Ban, ghost l: seq<Ban>) returns (prev: Ban?, next: Ban?)
    requires Listed(l) && ban in l
    modifies l`nextBan, l`prevBan
    ensures Listed(Without(l, {ban})) && prev == old(ban.prevBan) && next == old(ban.nextBan)
  {
    hide Without;
    ghost var i :| 0 <= i < |l| && l[i] == ban;
    CutIsWithout(l, i);
    ghost var rest := Without(l, {ban});
    assert ListedAt(l, i);
    prev := ban.prevBan;
    next := ban.nextBan;
    if prev != null { prev.nextBan := next; }
    if next != null { next.prevBan := prev; }
    forall m | 0 <= m < |rest| ensures ListedAt(rest, m) {
      assert old(ListedAt(l, if m < i then m else m + 1));
    }
  }

  /** The list without the bans in gone, in the same order. */
  ghost function Without(l: seq<Ban>, gone: set<Ban>): (r: seq<Ban>)
    ensures forall b :: b in l ==> (b in r <==> b !in gone)
    ensures forall b :: b in r ==> b in l
  {
    if |l| == 0 then []
    else if l[|l| - 1] in gone then Without(l[..|l| - 1], gone)
    else Without(l[..|l| - 1], gone) + [l[|l| - 1]]
  }

  lemma {:induction false} WithoutNone(l: seq<Ban>, gone: set<Ban>)
    requires forall b :: b in l ==> b !in gone
    ensures Without(l, gone) == l
  {
    if |l| > 0 { WithoutNone(l[..|l| - 1], gone); }
  }

  lemma {:induction false} WithoutConcat(a: seq<Ban>, b: seq<Ban>, gone: set<Ban>)
    ensures Without(a + b, gone) == Without(a, gone) + Without(b, gone)
  {
    if |b| == 0 {
      assert a + b == a;
    } else {
      assert (a + b)[..|a + b| - 1] == a + b[..|b| - 1];
      WithoutConcat(a, b[..|b| - 1], gone);
    }
  }

  lemma {:induction false} WithoutTwice(l: seq<Ban>, x: set<Ban>, y: set<Ban>)
    ensures Without(Without(l, x), y) == Without(l, x + y)
  {
    if |l| > 0 { WithoutTwice(l[..|l| - 1], x, y); }
  }

  /** Cutting out the place of a ban is leaving out the ban. */
  lemma CutIsWithout(l: seq<Ban>, i: nat)
    requires i < |l| && Distinct(l)
    ensures Without(l, {l[i]}) == l[..i] + l[i + 1..]
  {
    assert l == l[..i] + [l[i]] + l[i + 1..];
    WithoutConcat(l[..i] + [l[i]], l[i + 1..], {l[i]});
    WithoutConcat(l[..i], [l[i]], {l[i]});
    WithoutNone(l[..i], {l[i]});
    WithoutNone(l[i + 1..], {l[i]});
  }

  // ---- Grouping ----

  ghost function ChainAt(chains: map<Key, seq<Ban>>, k: Key): seq<Ban> {
    if k in chains then chains[k] else []
  }

  /** Every ban of l is in the chain of its key; chains hold nothing else and are never empty. */
  ghost predicate Grouped(l: seq<Ban>, chains: map<Key, seq<Ban>>) {
    && (forall k :: k in chains ==> |chains[k]| > 0)
    && (forall b :: b in l ==> ValidBan(b) && b in ChainAt(chains, b.Key()))
    && (forall k, b :: k in chains && b in chains[k] ==> b in l && b.Key() == k)
  }

  /** The map takes every key to the head of its chain. */
  ghost predicate Heads(m: map<Key, Ban>, chains: map<Key, seq<Ban>>) {
    && m.Keys == chains.Keys
    && forall k :: k in chains ==> |chains[k]| > 0 && m[k] == chains[k][0]
  }

  lemma HeadsRechained(m: map<Key, Ban>, chains: map<Key, seq<Ban>>, k: Key, l: seq<Ban>)
    requires Heads(m, chains)
    ensures Heads(if |l| == 0 then m - {k} else m[k := l[0]], Rechained(chains, k, l))
    ensures k in chains && |l| > 0 && l[0] == chains[k][0] ==> m[k := l[0]] == m
  {
  }

  /** The chain that takes the place of another's; an empty one leaves the map. */
  ghost function Rechained(chains: map<Key, seq<Ban>>, k: Key, l: seq<Ban>): (r: map<Key, seq<Ban>>)
    ensures forall q :: ChainAt(r, q) == if q == k then l else ChainAt(chains, q)
  {
    if |l| == 0 then chains - {k} else chains[k := l]
  }

  lemma ChainMember(l: seq<Ban>, chains: map<Key, seq<Ban>>, k: Key, b: Ban)
    requires Grouped(l, chains) && b in ChainAt(chains, k)
    ensures b in l && ValidBan(b) && ValidRange(b.range) && KeyOf(b.range) == k
  {
  }

  lemma ChainOf(l: seq<Ban>, chains: map<Key, seq<Ban>>, b: Ban)
    requires Grouped(l, chains) && b in l
    ensures ValidBan(b) && b.Key() in chains && b in chains[b.Key()]
  {
  }

  /** A ban is in no chain but its key's. */
  lemma OneChain(l: seq<Ban>, chains: map<Key, seq<Ban>>, b: Ban)
    requires Grouped(l, chains) && ValidBan(b)
    ensures forall k :: k in chains && k != b.Key() ==> b !in chains[k]
  {
  }

  lemma GroupedWith(l: seq<Ban>, chains: map<Key, seq<Ban>>, ban: Ban)
    requires Grouped(l, chains) && ValidBan(ban)
    ensures Within(ChainAt(chains, ban.Key()), l)
    ensures Grouped(l + [ban], chains[ban.Key() := [ban] + ChainAt(chains, ban.Key())])
  {
    hide KeyOf;
    var k, l2 := ban.Key(), l + [ban];
    var chain := ChainAt(chains, k);
    var chains2 := chains[k := [ban] + chain];
    forall i | 0 <= i < |chain| ensures chain[i] in l { assert chain[i] in chain; }
    forall b | b in l2 ensures ValidBan(b) && b in ChainAt(chains2, b.Key()) {
      if b != ban { assert b in l; }
    }
    forall q, b | q in chains2 && b in chains2[q] ensures b in l2 && b.Key() == q {
      if q != k || b != ban { assert q in chains && b in chains[q]; }
    }
  }

  /** Every chain is what it was without the bans in gone. */
  ghost predicate LeftOut(chains0: map<Key, seq<Ban>>, chains: map<Key, seq<Ban>>, gone: set<Ban>) {
    forall k :: ChainAt(chains, k) == Without(ChainAt(chains0, k), gone)
  }

  lemma ChainsWithout(l: seq<Ban>, chains: map<Key, seq<Ban>>, ban: Ban)
    requires Grouped(l, chains) && ban in l
    ensures var chains2 := Rechained(chains, ban.Key(), Without(ChainAt(chains, ban.Key()), {ban}));
      && LeftOut(chains, chains2, {ban})
      && (forall k :: k in chains2 ==> |chains2[k]| > 0)
  {
    hide KeyOf, Without;
    var chains2 := Rechained(chains, ban.Key(), Without(ChainAt(chains, ban.Key()), {ban}));
    forall k ensures ChainAt(chains2, k) == Without(ChainAt(chains, k), {ban}) {
      if k != ban.Key() { WithoutNone(ChainAt(chains, k), {ban}); }
    }
  }

  lemma GroupedWithout(l: seq<Ban>, chains: map<Key, seq<Ban>>, ban: Ban, chains2: map<Key, seq<Ban>>)
    requires Grouped(l, chains) && ban in l
    requires LeftOut(chains, chains2, {ban})
    requires forall k :: k in chains2 ==> |chains2[k]| > 0
    ensures Grouped(Without(l, {ban}), chains2)
  {
    hide KeyOf, Without;
    var l2 := Without(l, {ban});
    forall b | b in l2 ensures ValidBan(b) && b in ChainAt(chains2, b.Key()) {
      assert b in l;
    }
    forall k, b | k in chains2 && b in chains2[k] ensures b in l2 && b.Key() == k {
      assert b in Without(ChainAt(chains, k), {ban});
    }
  }

  /** The bucket links run along every chain but those of some keys. */
  ghost predicate Threaded(chains: map<Key, seq<Ban>>, l: seq<Ban>, but: set<Key>)
    reads l`nextInBucket, l`prevInBucket
  {
    forall k :: k in chains && k !in but ==> Within(chains[k], l) && Chained(chains[k])
  }

  lemma ThreadedWith(chains: map<Key, seq<Ban>>, l: seq<Ban>, ban: Ban, k: Key)
    requires Threaded(chains, l, {k}) && Within(ChainAt(chains, k), l) && Chained([ban] + ChainAt(chains, k))
    ensures Threaded(chains[k := [ban] + ChainAt(chains, k)], l + [ban], {})
  {
  }

  lemma ChainsDisjoint(l: seq<Ban>, chains: map<Key, seq<Ban>>, k: Key)
    requires Grouped(l, chains)
    ensures forall q, i :: q in chains && q != k && 0 <= i < |chains[q]| ==> chains[q][i] !in ChainAt(chains, k)
    ensures Within(ChainAt(chains, k), l)
  {
    hide KeyOf, ValidBan;
    forall q, i | q in chains && q != k && 0 <= i < |chains[q]| ensures chains[q][i] !in ChainAt(chains, k) {
      if chains[q][i] in ChainAt(chains, k) {
        ChainMember(l, chains, k, chains[q][i]);
        ChainMember(l, chains, q, chains[q][i]);
      }
    }
    forall i | 0 <= i < |ChainAt(chains, k)| ensures ChainAt(chains, k)[i] in l {
      ChainMember(l, chains, k, ChainAt(chains, k)[i]);
    }
  }

  lemma ThreadedAt(chains: map<Key, seq<Ban>>, l: seq<Ban>, k: Key)
    requires Threaded(chains, l, {}) && k in chains
    ensures Chained(chains[k]) && Distinct(chains[k])
  {
  }

  lemma ThreadedWithout(chains: map<Key, seq<Ban>>, l: seq<Ban>, ban: Ban, k: Key)
    requires Threaded(chains, l, {k}) && Grouped(l, chains) && ban in ChainAt(chains, k)
    requires Chained(Without(ChainAt(chains, k), {ban}))
    ensures Threaded(Rechained(chains, k, Without(ChainAt(chains, k), {ban})), Without(l, {ban}), {})
  {
    hide Grouped, Chained, Without;
    ChainsDisjoint(l, chains, k);
    var l2, rest := Without(l, {ban}), Without(ChainAt(chains, k), {ban});
    WithinWithout(ChainAt(chains, k), l, ban);
    forall q | q in chains && q != k ensures Within(chains[q], l2) {
      forall i | 0 <= i < |chains[q]| ensures chains[q][i] in l2 {}
    }
  }

  lemma WithinWithout(c: seq<Ban>, l: seq<Ban>, ban: Ban)
    requires Within(c, l)
    ensures Within(Without(c, {ban}), Without(l, {ban})) && Within(Without(c, {ban}), l)
  {
    hide Without;
    var rest := Without(c, {ban});
    forall i | 0 <= i < |rest| ensures rest[i] in Without(l, {ban}) && rest[i] in l {
      assert rest[i] in rest && rest[i] in c;
    }
  }

  // ---- What a lookup must find ----

  /** The enabled bans of a list. */
  ghost function Enabled(l: seq<Ban>): (r: seq<Ban>)
    ensures forall b :: b in l ==> (b in r <==> b.enabled)
    ensures forall b :: b in r ==> b in l
  {
    if |l| == 0 then []
    else if l[|l| - 1].enabled then Enabled(l[..|l| - 1]) + [l[|l| - 1]]
    else Enabled(l[..|l| - 1])
  }

  /** The callbacks of `find_bans` from prefix length n down. */
  ghost function CallsFrom(chains: map<Key, seq<Ban>>, ip: Address, n: int): seq<Ban>
    requires ValidAddress(ip)
    decreases n + 1
  {
    if n < 0 then [] else Enabled(ChainAt(chains, KeyOf(Range(ip, n)))) + CallsFrom(chains, ip, n - 1)
  }

  function FirstLength(v: Version): nat { match v case Dummy => 0 case V4 => 32 case V6 => 128 }

  ghost function Calls(chains: map<Key, seq<Ban>>, ip: Address): seq<Ban>
    requires ValidAddress(ip)
  {
    CallsFrom(chains, ip, FirstLength(ip.version))
  }

  lemma {:induction false} EnabledDistinct(l: seq<Ban>)
    requires Distinct(l)
    ensures Distinct(Enabled(l))
  {
    if |l| > 0 { EnabledDistinct(l[..|l| - 1]); }
  }

  lemma {:induction false} EnabledWithout(l: seq<Ban>, gone: set<Ban>)
    ensures Enabled(Without(l, gone)) == Without(Enabled(l), gone)
  {
    if |l| > 0 {
      EnabledWithout(l[..|l| - 1], gone);
      if l[|l| - 1].enabled { WithoutConcat(Enabled(l[..|l| - 1]), [l[|l| - 1]], gone); }
    }
  }

  /** The probes down to length zero meet exactly the enabled bans in range, each once. */
  lemma {:induction false} CallsAgree(l: seq<Ban>, chains: map<Key, seq<Ban>>, ip: Address, n: int)
    requires Grouped(l, chains) && ValidAddress(ip) && -1 <= n <= FirstLength(ip.version)
    requires forall k :: k in chains ==> Distinct(chains[k])
    ensures Distinct(CallsFrom(chains, ip, n))
    ensures forall b :: b in CallsFrom(chains, ip, n) <==>
      b in l && b.enabled && b.range.range <= n && InRange(b.range, ip)
  {
    hide KeyOf, InRange, Enabled;
    if n >= 0 {
      CallsAgree(l, chains, ip, n - 1);
      var k := KeyOf(Range(ip, n));
      var probe := ChainAt(chains, k);
      EnabledDistinct(probe);
      forall b | b in l ensures b in probe <==> b.range.range == n && InRange(b.range, ip) {
        ProbeFindsRange(b.range, ip, n);
      }
      var rest := CallsFrom(chains, ip, n - 1);
      forall b | b in Enabled(probe) ensures b in l && b.enabled && b.range.range == n && InRange(b.range, ip) {
        assert b in probe && k in chains;
      }
      forall i, j | 0 <= i < j < |Enabled(probe)| + |rest|
        ensures (Enabled(probe) + rest)[i] != (Enabled(probe) + rest)[j]
      {
        if i < |Enabled(probe)| <= j {
          assert Enabled(probe)[i] in Enabled(probe) && rest[j - |Enabled(probe)|] in rest;
        }
      }
    } else {
      forall b | b in l ensures b.range.range >= 0 { assert ValidBan(b); }
    }
  }

  /** `find_bans` and a scan of the ban list with `ip_in_range` find the same bans. */
  lemma ProbesAgreeWithScan(l: seq<Ban>, chains: map<Key, seq<Ban>>, ip: Address)
    requires Grouped(l, chains) && ValidAddress(ip)
    requires forall k :: k in chains ==> Distinct(chains[k])
    ensures Distinct(Calls(chains, ip))
    ensures forall b :: b in Calls(chains, ip) <==> b in l && b.enabled && InRange(b.range, ip)
  {
    hide InRange, CallsFrom;
    CallsAgree(l, chains, ip, FirstLength(ip.version));
    forall b | b in l && InRange(b.range, ip) ensures b.range.range <= FirstLength(ip.version) {
      RangeLength(b, ip);
    }
  }

  /** Callbacks come from longer prefixes first. */
  lemma {:induction false} CallsDescend(l: seq<Ban>, chains: map<Key, seq<Ban>>, ip: Address, n: int)
    requires ValidAddress(ip) && Grouped(l, chains)
    ensures forall b :: b in CallsFrom(chains, ip, n) ==> b.range.range <= n
    ensures forall i, j :: 0 <= i < j < |CallsFrom(chains, ip, n)| ==>
      CallsFrom(chains, ip, n)[i].range.range >= CallsFrom(chains, ip, n)[j].range.range
    decreases n + 1
  {
    hide Grouped, ChainAt;
    if n >= 0 {
      var probe, rest := Enabled(ChainAt(chains, KeyOf(Range(ip, n)))), CallsFrom(chains, ip, n - 1);
      CallsDescend(l, chains, ip, n - 1);
      forall b | b in probe ensures b.range.range == n {
        InChain(l, chains, KeyOf(Range(ip, n)), b);
      }
      assert forall i :: 0 <= i < |probe| ==> probe[i] in probe;
      assert forall i :: 0 <= i < |rest| ==> rest[i] in rest;
    }
  }

  lemma InChain(l: seq<Ban>, chains: map<Key, seq<Ban>>, k: Key, b: Ban)
    requires Grouped(l, chains) && b in ChainAt(chains, k)
    ensures ValidBan(b) && b.range.range == k.range
  {
    ChainMember(l, chains, k, b);
  }

  lemma RangeLength(b: Ban, ip: Address)
    requires ValidBan(b) && InRange(b.range, ip)
    ensures b.range.range <= FirstLength(ip.version)
  {
  }

  /** Leaving bans out of every chain leaves them out of the callbacks and keeps the order. */
  lemma {:induction false} CallsWithout(chains: map<Key, seq<Ban>>, chains2: map<Key, seq<Ban>>, gone: set<Ban>,
                                        ip: Address, n: int)
    requires ValidAddress(ip)
    requires LeftOut(chains, chains2, gone)
    ensures CallsFrom(chains2, ip, n) == Without(CallsFrom(chains, ip, n), gone)
    decreases n + 1
  {
    if n >= 0 {
      CallsWithout(chains, chains2, gone, ip, n - 1);
      var probe := ChainAt(chains, KeyOf(Range(ip, n)));
      EnabledWithout(probe, gone);
      WithoutConcat(Enabled(probe), CallsFrom(chains, ip, n - 1), gone);
    }
  }

  // ---- What a ban says about a request ----

  /** What is asked about; the board, if any, by its id as the signed word that board lists hold. */
  datatype Query = Query(kind: Kind, target: Target, board: Option<int>)

  /** A 64-bit word as the signed number the program reads it as. */
  function Signed(x: int): int {
    var word := x % (2 * SIGNED_LIMIT);
    if word < SIGNED_LIMIT then word else word - 2 * SIGNED_LIMIT
  }

  /** The board is listed before the end of the list. */
  ghost predicate OnBoard(boards: seq<int>, board: int) {
    exists i :: 0 <= i < |boards| && boards[i] == board && forall j :: 0 <= j <= i ==> boards[j] >= 0
  }

  ghost predicate Concerns(b: Ban, q: Query) {
    && b.kind == q.kind && b.target == q.target
    && (q.board.None? || b.boards.None? || OnBoard(b.boards.value, q.board.value))
  }

  ghost predicate Active(b: Ban, now: int) {
    b.duration < 0 || now <= b.timestamp + b.duration
  }

  /** The end of the ban is a signed 64-bit number, or it has none. */
  ghost predicate EndFits(b: Ban) {
    b.duration <= 0 || b.timestamp + b.duration < SIGNED_LIMIT
  }

  /** The ban is enabled, holds the address, concerns the request, is active, and has an end that fits. */
  ghost predicate Bans(b: Ban, ip: Address, q: Query, now: int) {
    b.enabled && InRange(b.range, ip) && Concerns(b, q) && Active(b, now) && EndFits(b)
  }

  /** One call of `is_banned_callback`. */
  ghost function Updated(expires: int, b: Ban, q: Query, now: int): int {
    if !(Concerns(b, q) && Active(b, now)) then expires
    else if b.duration <= 0 then -1
    else if Signed(b.timestamp + b.duration) > expires then Signed(b.timestamp + b.duration)
    else expires
  }

  ghost predicate AllValid(l: seq<Ban>) { forall b :: b in l ==> ValidBan(b) }

  /** What `is_banned` and its siblings return after these callbacks. */
  ghost function Answer(calls: seq<Ban>, q: Query, now: int): (r: int)
    ensures r >= -1
  {
    if |calls| == 0 then 0
    else Updated(Answer(calls[..|calls| - 1], q, now), calls[|calls| - 1], q, now)
  }

  lemma SignedEnd(x: int)
    requires 0 <= x < 2 * SIGNED_LIMIT - 1
    ensures Signed(x) == if x < SIGNED_LIMIT then x else x - 2 * SIGNED_LIMIT
  {
  }

  /** The answer is non-zero exactly when a ban found concerns the request, is active, and ends at a
      time a signed word can hold. */
  lemma {:induction false} AnswerNonZero(calls: seq<Ban>, q: Query, now: int)
    requires AllValid(calls)
    ensures Answer(calls, q, now) != 0 <==>
      exists b :: b in calls && Concerns(b, q) && Active(b, now) && EndFits(b)
  {
    hide Concerns, Active, Signed;
    if |calls| > 0 {
      assert ValidBan(calls[|calls| - 1]);
      if calls[|calls| - 1].duration > 0 { SignedEnd(calls[|calls| - 1].timestamp + calls[|calls| - 1].duration); }
      var some, b := calls[..|calls| - 1], calls[|calls| - 1];
      AnswerNonZero(some, q, now);
      assert forall x :: x in calls <==> x in some || x == b;
    }
  }

  /** A ban that counts for the request and ends some time that a signed word can hold. */
  ghost predicate Timed(b: Ban, q: Query, now: int) {
    && b.kind == q.kind && b.target == q.target && 0 < b.duration
    && now <= b.timestamp + b.duration < SIGNED_LIMIT
    && (q.board.None? || b.boards.None? || OnBoard(b.boards.value, q.board.value))
  }

  /** A ban that counts for the request and is answered with -1. */
  ghost predicate Permanent(b: Ban, q: Query, now: int) {
    && b.kind == q.kind && b.target == q.target
    && (b.duration < 0 || (b.duration == 0 && now <= b.timestamp))
    && (q.board.None? || b.boards.None? || OnBoard(b.boards.value, q.board.value))
  }

  /** The latest end of the timed bans among these, or else the other number. */
  ghost predicate LatestEnd(r: int, bans: set<Ban>, q: Query, now: int, otherwise: int) {
    && (forall b :: b in bans && Timed(b, q, now) ==> b.timestamp + b.duration <= r)
    && ((exists b :: b in bans && Timed(b, q, now) && r == b.timestamp + b.duration) ||
        (r == otherwise && forall b :: b in bans ==> !Timed(b, q, now)))
  }

  ghost function Among(calls: seq<Ban>): set<Ban> { set b | b in calls }

  /** What one callback makes of the answer. */
  lemma OneCallback(expires: int, b: Ban, q: Query, now: int)
    requires ValidBan(b) && expires >= -1
    ensures Updated(expires, b, q, now) ==
      if Permanent(b, q, now) then -1
      else if Timed(b, q, now) && b.timestamp + b.duration > expires then b.timestamp + b.duration
      else expires
  {
    hide OnBoard, Signed;
    if b.duration > 0 { SignedEnd(b.timestamp + b.duration); }
  }

  /** From place p on, with no permanent ban behind it, the answer is the latest end, or what it was at p. */
  lemma {:induction false} AnswerIsLatest(calls: seq<Ban>, p: nat, q: Query, now: nat)
    requires AllValid(calls) && p <= |calls| && Answer(calls[..p], q, now) <= 0
    requires forall b :: b in calls[p..] ==> !Permanent(b, q, now)
    ensures LatestEnd(Answer(calls, q, now), Among(calls[p..]), q, now, Answer(calls[..p], q, now))
  {
    hide Permanent, Updated, Timed;
    if p == |calls| {
      assert calls[..p] == calls;
    } else {
      var some, b := calls[..|calls| - 1], calls[|calls| - 1];
      assert some[..p] == calls[..p] && calls[p..] == some[p..] + [b];
      assert ValidBan(b) && AllValid(some);
      AnswerIsLatest(some, p, q, now);
      OneCallback(Answer(some, q, now), b, q, now);
      LatestOfMore(Answer(some, q, now), some[p..], b, q, now, Answer(calls[..p], q, now));
    }
  }

  lemma LatestOfMore(r: int, some: seq<Ban>, b: Ban, q: Query, now: nat, otherwise: int)
    requires LatestEnd(r, Among(some), q, now, otherwise) && -1 <= otherwise <= 0
    ensures LatestEnd(if Timed(b, q, now) && b.timestamp + b.duration > r then b.timestamp + b.duration else r,
                      Among(some + [b]), q, now, otherwise)
  {
    hide OnBoard;
    assert Among(some + [b]) == Among(some) + {b};
  }

  /** The value of the answer: without a permanent ban the latest end, or zero; and behind the last permanent ban called
      back the latest end again, or -1. */
  lemma AnswerValue(calls: seq<Ban>, q: Query, now: nat)
    requires AllValid(calls)
    ensures (forall b :: b in calls ==> !Permanent(b, q, now)) ==>
      LatestEnd(Answer(calls, q, now), Among(calls), q, now, 0)
    ensures forall p :: 0 <= p < |calls| && LastPermanent(calls, p, q, now) ==>
      LatestEnd(Answer(calls, q, now), Among(calls[p + 1..]), q, now, -1)
  {
    hide Permanent, Timed, LatestEnd;
    assert calls[..0] == [] && calls[0..] == calls;
    if forall b :: b in calls ==> !Permanent(b, q, now) { AnswerIsLatest(calls, 0, q, now); }
    forall p | 0 <= p < |calls| && LastPermanent(calls, p, q, now)
      ensures LatestEnd(Answer(calls, q, now), Among(calls[p + 1..]), q, now, -1)
    {
      assert calls[..p + 1][..p] == calls[..p] && calls[..p + 1][p] == calls[p];
      assert ValidBan(calls[p]);
      OneCallback(Answer(calls[..p], q, now), calls[p], q, now);
      AnswerIsLatest(calls, p + 1, q, now);
    }
  }

  /** Place p holds the last permanent ban. */
  ghost predicate LastPermanent(calls: seq<Ban>, p: nat, q: Query, now: int) {
    p < |calls| && Permanent(calls[p], q, now) && forall b :: b in calls[p + 1..] ==> !Permanent(b, q, now)
  }

  /** Bans that are not active, or whose end does not fit, do not bear on the answer. */
  lemma {:induction false} AnswerIgnores(calls: seq<Ban>, gone: set<Ban>, q: Query, now: int)
    requires forall b :: b in gone ==> !Active(b, now) || (ValidBan(b) && !EndFits(b))
    ensures Answer(Without(calls, gone), q, now) == Answer(calls, q, now)
  {
    hide Active, Concerns, Signed;
    if |calls| > 0 {
      var b := calls[|calls| - 1];
      AnswerIgnores(calls[..|calls| - 1], gone, q, now);
      if b in gone && Active(b, now) { SignedEnd(b.timestamp + b.duration); }
    }
  }

  /** A ban whose end overflows the signed word is missed, though it is active and concerns the request, and whatever
      else was found. */
  lemma FarEndIsMissed(calls: seq<Ban>, b: Ban, q: Query, now: int)
    requires ValidBan(b) && Concerns(b, q) && Active(b, now)
    requires b.duration > 0 && b.timestamp + b.duration >= SIGNED_LIMIT
    ensures Answer([b], q, now) == 0
    ensures Answer(Without(calls, {b}), q, now) == Answer(calls, q, now)
  {
    AnswerIgnores(calls, {b}, q, now);
    AnswerIgnores([b], {b}, q, now);
    assert [b][..0] == [];
  }

  ghost predicate Expired(b: Ban, now: int) {
    b.duration >= 0 && now > b.timestamp + b.duration
  }

  /** The bans `purge_expired_bans` deletes at this time. */
  ghost function ExpiredAt(l: seq<Ban>, now: int): set<Ban> {
    set b | b in l && Expired(b, now)
  }

  lemma ExpiredIsInactive(l: seq<Ban>, now: int)
    ensures forall b :: b in l ==> (b in ExpiredAt(l, now) <==> !Active(b, now))
  {
  }

  /** The list when the purge has come to place i. */
  ghost function Purged(l: seq<Ban>, i: nat, now: int): seq<Ban>
    requires i <= |l|
  {
    Without(l[..i], ExpiredAt(l[..i], now)) + l[i..]
  }

  lemma LeftOutTwice(chains0: map<Key, seq<Ban>>, chains1: map<Key, seq<Ban>>, chains2: map<Key, seq<Ban>>,
                     x: set<Ban>, y: set<Ban>)
    requires LeftOut(chains0, chains1, x) && LeftOut(chains1, chains2, y)
    ensures LeftOut(chains0, chains2, x + y)
  {
    hide Without;
    forall k ensures ChainAt(chains2, k) == Without(ChainAt(chains0, k), x + y) {
      WithoutTwice(ChainAt(chains0, k), x, y);
    }
  }

  lemma PurgedAll(l: seq<Ban>, now: int)
    ensures Purged(l, |l|, now) == Without(l, ExpiredAt(l, now))
  {
    assert l[..|l|] == l;
  }

  /** Deleting what has expired changes no later answer. */
  lemma PurgeInvisible(l: seq<Ban>, chains0: map<Key, seq<Ban>>, chains: map<Key, seq<Ban>>, ip: Address, q: Query,
                       now: int, later: int)
    requires ValidAddress(ip) && now <= later && LeftOut(chains0, chains, ExpiredAt(l, now))
    ensures Answer(Calls(chains, ip), q, later) == Answer(Calls(chains0, ip), q, later)
  {
    hide Without, KeyOf, CallsFrom;
    var gone := ExpiredAt(l, now);
    CallsWithout(chains0, chains, gone, ip, FirstLength(ip.version));
    AnswerIgnores(Calls(chains0, ip), gone, q, later);
  }

  lemma Unpurged(l: seq<Ban>, chains: map<Key, seq<Ban>>, now: int)
    ensures Purged(l, 0, now) == l && ExpiredAt(l[..0], now) == {}
    ensures LeftOut(chains, chains, {})
  {
    WithoutNone(l[..0], {});
    forall k ensures Without(ChainAt(chains, k), {}) == ChainAt(chains, k) {
      WithoutNone(ChainAt(chains, k), {});
    }
  }

  lemma {:induction false} WithoutStranger(l: seq<Ban>, gone: set<Ban>, b: Ban)
    requires b !in l
    ensures Without(l, gone + {b}) == Without(l, gone)
  {
    if |l| > 0 { WithoutStranger(l[..|l| - 1], gone, b); }
  }

  lemma WithoutOne(b: Ban, gone: set<Ban>)
    ensures Without([b], gone) == if b in gone then [] else [b]
  {
    assert [b][..0] == [];
  }

  lemma CutStep(l: seq<Ban>, i: nat, gone: set<Ban>)
    requires i < |l| && Distinct(l)
    ensures Without(l[..i + 1], gone + {l[i]}) == Without(l[..i], gone)
    ensures l[i] !in gone ==> Without(l[..i + 1], gone) == Without(l[..i], gone) + [l[i]]
  {
    hide Without;
    assert l[..i + 1] == l[..i] + [l[i]];
    WithoutStranger(l[..i], gone, l[i]);
    WithoutConcat(l[..i], [l[i]], gone + {l[i]});
    WithoutConcat(l[..i], [l[i]], gone);
    WithoutOne(l[i], gone + {l[i]});
    WithoutOne(l[i], gone);
  }

  lemma CutMiddle(kept: seq<Ban>, b: Ban, rest: seq<Ban>)
    requires b !in kept && b !in rest
    ensures Without(kept + [b] + rest, {b}) == kept + rest
  {
    WithoutConcat(kept + [b], rest, {b});
    WithoutConcat(kept, [b], {b});
    WithoutNone(kept, {b});
    WithoutNone(rest, {b});
  }

  lemma ExpiredStep(l: seq<Ban>, i: nat, now: int)
    requires i < |l|
    ensures ExpiredAt(l[..i + 1], now) == ExpiredAt(l[..i], now) + if Expired(l[i], now) then {l[i]} else {}
    ensures Distinct(l) ==> l[i] !in ExpiredAt(l[..i], now)
  {
    assert l[..i + 1] == l[..i] + [l[i]];
    assert forall b :: b in l[..i + 1] <==> b in l[..i] || b == l[i];
  }

  /** Passing place i deletes the ban there or leaves everything as it was. */
  lemma PurgeStep(l: seq<Ban>, i: nat, now: int)
    requires i < |l| && Distinct(l)
    ensures ExpiredAt(l[..i + 1], now) == ExpiredAt(l[..i], now) + if Expired(l[i], now) then {l[i]} else {}
    ensures Purged(l, i + 1, now) ==
      if Expired(l[i], now) then Without(Purged(l, i, now), {l[i]}) else Purged(l, i, now)
  {
    hide Without, ExpiredAt;
    var gone := ExpiredAt(l[..i], now);
    ExpiredStep(l, i, now);
    CutStep(l, i, gone);
    var kept := Without(l[..i], gone);
    assert gone + {} == gone && kept + l[i..] == kept + [l[i]] + l[i + 1..];
    CutMiddle(kept, l[i], l[i + 1..]);
  }

  lemma PurgedWithin(l: seq<Ban>, i: nat, now: int)
    requires i <= |l|
    ensures Within(Purged(l, i, now), l)
  {
    var p := Purged(l, i, now);
    forall j | 0 <= j < |p| ensures p[j] in l { assert p[j] in p; }
  }

  // ---- The index ----

  class BanStore {
    /** `ban_tbl` */
    const table: HashMap.HashMap<Key, Ban>
    /** `master->first_ban`, `master->last_ban` */
    var first: Ban?
    var last: Ban?

    ghost var listed: seq<Ban>
    ghost var chains: map<Key, seq<Ban>>

    ghost predicate MasterOk()
      reads this`first, this`last, this`listed, listed`nextBan, listed`prevBan
    {
      Listed(listed) && first == At(listed, 0) && last == At(listed, |listed| - 1)
    }

    /** The bans of l are in the chains of their keys, and the bucket links run along the chains. */
    ghost predicate ChainsOk(l: seq<Ban>)
      reads this`chains, l`nextInBucket, l`prevInBucket
    {
      Grouped(l, chains) && Threaded(chains, l, {})
    }

    /** The table maps each key to the head of its chain. */
    ghost predicate TableOk()
      reads this`chains, table, table.Repr
    {
      table.Valid() && Heads(table.contents, chains)
    }

    ghost predicate Apart(l: seq<Ban>)
      reads table`Repr
    {
      this !in table.Repr && forall b :: b in l ==> b !in table.Repr
    }

    ghost predicate Valid()
      reads this, table, table.Repr, listed
    {
      MasterOk() && ChainsOk(listed) && TableOk() && Apart(listed)
    }

    /** An empty index; mix is the mixing that the table applies to the hash of a range. */
    constructor (mix: nat -> nat)
      ensures Valid() && listed == [] && fresh(table) && fresh(table.Repr)
    {
      table := new HashMap.HashMap<Key, Ban>(k => mix(HashOf(k)));
      first, last := null, null;
      listed, chains := [], map[];
    }

    /** The first half of `insert_ban`: the ban joins the end of the list of all bans. */
    method AppendToList(ban: Ban)
      requires MasterOk() && ban !in listed && ban.nextBan == null
      modifies this`first, this`last, this`listed, ban`prevBan, listed`nextBan
      ensures MasterOk() && listed == old(listed) + [ban]
    {
      var prev := last;
      ban.prevBan := prev;
      if prev != null { prev.nextBan := ban; }
      if first == null { first := ban; }
      last := ban;
      listed := listed + [ban];
      forall i | 0 <= i < |listed| ensures ListedAt(listed, i) {
        if i < |listed| - 1 { assert old(ListedAt(listed, i)); }
      }
    }

    /** The first part of `insert_ban_into_hashmap`: the old head of the chain leaves the table and comes
        after the new ban. */
    method ClearHead(ban: Ban, ghost l: seq<Ban>)
      requires ChainsOk(l) && TableOk() && Apart(l + [ban]) && ban !in l && ValidBan(ban)
      requires ban.nextInBucket == null && ban.prevInBucket == null
      modifies ban`nextInBucket, l`prevInBucket, table.Repr
      ensures Threaded(chains, l, {ban.Key()}) && Chained([ban] + ChainAt(chains, ban.Key()))
      ensures table.Valid() && fresh(table.Repr - old(table.Repr))
      ensures table.contents == old(table.contents) - {ban.Key()}
    {
      hide Grouped, KeyOf, Chained, HashMap.HashMap.Valid;
      var key := KeyOf(ban.range);
      ghost var chain := ChainAt(chains, key);
      var item := table.Get(key);
      OneChain(l, chains, ban);
      if item.Some? {
        ChainMember(l, chains, key, chain[0]);
        table.Remove(KeyOf(item.value.range));
        assert Threaded(chains, l, {});
        OneChain(l, chains, item.value);
        LinkBefore(ban, item.value, chain);
      } else {
        Alone(ban);
        assert [ban] + chain == [ban];
      }
    }

    /** An entry of the table, for a key it does not have. */
    method Enter(key: Key, ban: Ban)
      requires table.Valid() && key !in table.contents
      modifies table.Repr
      ensures table.Valid() && fresh(table.Repr - old(table.Repr)) && table.contents == old(table.contents)[key := ban]
    {
      hide HashMap.HashMap.Valid;
      table.Insert(key, ban);
    }

    /** `insert_ban_into_hashmap`: the ban becomes the head of its key's chain. */
    method InsertIntoTable(ban: Ban, ghost l: seq<Ban>)
      requires ChainsOk(l) && TableOk() && Apart(l + [ban]) && ban !in l && ValidBan(ban)
      requires ban.nextInBucket == null && ban.prevInBucket == null
      modifies this`chains, ban`nextInBucket, l`prevInBucket, table.Repr
      ensures ChainsOk(l + [ban]) && TableOk() && Apart(l + [ban]) && fresh(table.Repr - old(table.Repr))
      ensures chains == old(chains)[ban.Key() := [ban] + ChainAt(old(chains), ban.Key())]
    {
      hide KeyOf, Chained, Threaded, Grouped, HashMap.HashMap.Valid;
      var key := KeyOf(ban.range);
      GroupedWith(l, chains, ban);
      ClearHead(ban, l);
      Enter(key, ban);
      ThreadedWith(chains, l, ban, key);
      chains := chains[key := [ban] + ChainAt(chains, key)];
    }

    /** `insert_ban` */
    method InsertBan(ban: Ban)
      requires Valid() && ValidBan(ban) && ban !in listed && ban !in table.Repr && ban.Unlinked()
      modifies this, ban, listed`nextBan, listed`prevInBucket, table.Repr
      ensures Valid() && listed == old(listed) + [ban] && fresh(table.Repr - old(table.Repr))
      ensures forall k :: ChainAt(chains, k) == (if k == ban.Key() then [ban] else []) + ChainAt(old(chains), k)
    {
      hide MasterOk, ChainsOk, KeyOf, HashMap.HashMap.Valid, ValidBan;
      ghost var l := listed;
      AppendToList(ban);
      InsertIntoTable(ban, l);
    }

    /** The first part of `delete_ban_from_hashmap`: the ban's neighbours in its chain meet. */
    method LeaveChain(ban: Ban, ghost l: seq<Ban>)
      requires ChainsOk(l) && ban in l
      modifies l`nextInBucket, l`prevInBucket
      ensures ValidBan(ban) && ban in ChainAt(chains, ban.Key()) && Distinct(ChainAt(chains, ban.Key()))
      ensures Threaded(chains, l, {ban.Key()}) && Within(Without(ChainAt(chains, ban.Key()), {ban}), l)
      ensures var chain := ChainAt(chains, ban.Key());
        && Chained(Without(chain, {ban})) && (chain[0] == ban ==> ban.nextInBucket == At(chain, 1))
        && (At(Without(chain, {ban}), 0) == if chain[0] == ban then ban.nextInBucket else chain[0])
    {
      hide KeyOf, Chained, Grouped, Without, ValidBan;
      ChainOf(l, chains, ban);
      ThreadedAt(chains, l, ban.Key());
      ghost var chain := ChainAt(chains, ban.Key());
      ChainsDisjoint(l, chains, ban.Key());
      ChainedHead(chain);
      HeadWithout(chain, ban);
      Bypass(ban, chain);
      WithinWithout(chain, l, ban);
    }

    /** The rest of `delete_ban_from_hashmap`: a ban that headed its chain leaves the table to the next. */
    method PassHead(ban: Ban, next: Ban?, ghost l: seq<Ban>)
      requires TableOk() && Grouped(l, chains) && ban in l && this !in table.Repr
      requires ChainAt(chains, ban.Key())[0] == ban ==> next == At(ChainAt(chains, ban.Key()), 1)
      modifies table.Repr
      ensures table.Valid() && fresh(table.Repr - old(table.Repr))
      ensures ChainAt(chains, ban.Key())[0] != ban ==> table.contents == old(table.contents)
      ensures ChainAt(chains, ban.Key())[0] == ban && next == null ==>
        table.contents == old(table.contents) - {ban.Key()}
      ensures ChainAt(chains, ban.Key())[0] == ban && next != null ==>
        table.contents == old(table.contents)[ban.Key() := next]
    {
      hide KeyOf, Grouped, HashMap.HashMap.Valid;
      ChainOf(l, chains, ban);
      ghost var chain := ChainAt(chains, ban.Key());
      if chain[0] == ban && next != null {
        assert next in chain;
        ChainMember(l, chains, ban.Key(), next);
      }
      var head := table.Get(KeyOf(ban.range));
      if head.Some? && head.value == ban {
        table.Remove(KeyOf(ban.range));
        if next != null { Enter(KeyOf(next.range), next); }
      }
      ghost var m := old(table.contents);
      assert next != null ==> (m - {ban.Key()})[ban.Key() := next] == m[ban.Key() := next];
    }

    /** `delete_ban_from_hashmap` */
    method RemoveFromTable(ban: Ban, ghost l: seq<Ban>)
      requires ChainsOk(l) && TableOk() && Apart(l) && ban in l
      modifies this`chains, l`nextInBucket, l`prevInBucket, table.Repr
      ensures ChainsOk(Without(l, {ban})) && TableOk() && Apart(l) && fresh(table.Repr - old(table.Repr))
      ensures LeftOut(old(chains), chains, {ban})
    {
      hide KeyOf, Chained, Threaded, Grouped, Without, LeftOut, Heads, Rechained, HashMap.HashMap.Valid;
      LeaveChain(ban, l);
      ghost var key := ban.Key();
      ghost var rest := Without(ChainAt(chains, key), {ban});
      HeadsRechained(table.contents, chains, key, rest);
      PassHead(ban, ban.nextInBucket, l);
      ThreadedWithout(chains, l, ban, key);
      ChainsWithout(l, chains, ban);
      GroupedWithout(l, chains, ban, Rechained(chains, key, rest));
      chains := Rechained(chains, key, rest);
    }

    /** The second half of `delete_ban`: the ban leaves the list of all bans. */
    method UnlinkFromList(ban: Ban)
      requires MasterOk() && ban in listed
      modifies this`first, this`last, this`listed, listed`nextBan, listed`prevBan
      ensures MasterOk() && listed == Without(old(listed), {ban})
    {
      hide Listed, Without;
      assert |listed| > 0;
      ListedEnds(listed);
      HeadWithout(listed, ban);
      LastWithout(listed, ban);
      var prev, next := Skip(ban, listed);
      if ban == first { first := next; }
      if ban == last { last := prev; }
      listed := Without(listed, {ban});
    }

    /** `delete_ban` */
    method DeleteBan(ban: Ban)
      requires Valid() && ban in listed
      modifies this`first, this`last, this`listed, this`chains, listed, table.Repr
      ensures Valid() && listed == Without(old(listed), {ban}) && fresh(table.Repr - old(table.Repr))
      ensures LeftOut(old(chains), chains, {ban})
    {
      hide MasterOk, ChainsOk, KeyOf, HashMap.HashMap.Valid, ValidBan, Without, LeftOut;
      ghost var rest := Without(listed, {ban});
      RemoveFromTable(ban, listed);
      assert ChainsOk(rest);
      UnlinkFromList(ban);
      assert MasterOk();
      assert listed == rest;
      assert ChainsOk(rest);
      assert ChainsOk(listed);
      assert TableOk();
      assert Apart(listed);
    }

    /** Walking one chain from its head. */
    method WalkChain(head: Ban?, ghost chain: seq<Ban>, before: seq<Ban>) returns (called: seq<Ban>)
      requires Chained(chain) && head == At(chain, 0)
      ensures called == before + Enabled(chain)
    {
      called := before;
      var ban := head;
      ghost var i := 0;
      while ban != null
        invariant 0 <= i <= |chain| && ban == At(chain, i)
        invariant called == before + Enabled(chain[..i])
        decreases |chain| - i
      {
        assert ChainedAt(chain, i);
        assert chain[..i + 1][..i] == chain[..i];
        if ban.enabled { called := called + [ban]; }
        ban := ban.nextInBucket;
        i := i + 1;
      }
      assert chain[..i] == chain;
    }

    /** One lookup of `find_bans` and the walk that follows it. */
    method Probe(ip: Address, n: nat, before: seq<Ban>) returns (called: seq<Ban>)
      requires Valid() && ValidAddress(ip)
      ensures called == before + Enabled(ChainAt(chains, KeyOf(Range(ip, n))))
    {
      hide MasterOk, KeyOf, Grouped, Chained, HashMap.HashMap.Valid;
      var key := KeyOf(Range(ip, n));
      var head := table.Get(key);
      match head {
        case Some(ban) => called := WalkChain(ban, ChainAt(chains, key), before);
        case None => called := before;
      }
    }

    /** `find_bans`; the callbacks are returned in the order they are made. */
    method FindBans(ip: Address) returns (called: seq<Ban>)
      requires Valid() && ValidAddress(ip)
      ensures called == Calls(chains, ip)
      ensures Distinct(called) && AllValid(called)
      ensures forall b :: b in called <==> b in listed && b.enabled && InRange(b.range, ip)
      ensures forall i, j :: 0 <= i < j < |called| ==> called[i].range.range >= called[j].range.range
    {
      hide Valid, KeyOf, InRange, Calls, Enabled;
      var range := FirstLength(ip.version) as int;
      called := [];
      while range >= 0
        invariant -1 <= range <= FirstLength(ip.version)
        invariant CallsFrom(chains, ip, FirstLength(ip.version)) == called + CallsFrom(chains, ip, range)
        decreases range + 1
      {
        called := Probe(ip, range, called);
        range := range - 1;
      }
      CallsAreAll(ip, called);
    }

    lemma ListedNext(i: nat)
      requires MasterOk() && i < |listed|
      ensures Distinct(listed) && listed[i].nextBan == At(listed, i + 1)
    {
      assert ListedAt(listed, i);
    }

    /** One turn of the loop of `purge_expired_bans`. */
    method PurgeOne(ban: Ban, ghost l: seq<Ban>, ghost i: nat, ghost chains0: map<Key, seq<Ban>>, now: nat)
      returns (next: Ban?)
      requires Valid() && i < |l| && l[i] == ban && Distinct(l)
      requires listed == Purged(l, i, now) && LeftOut(chains0, chains, ExpiredAt(l[..i], now))
      modifies this`first, this`last, this`listed, this`chains, listed, table.Repr
      ensures Valid() && fresh(table.Repr - old(table.Repr)) && next == At(l, i + 1)
      ensures listed == Purged(l, i + 1, now) && LeftOut(chains0, chains, ExpiredAt(l[..i + 1], now))
    {
      hide MasterOk, ChainsOk, TableOk, Apart, Without, ExpiredAt, LeftOut;
      ghost var at := |Without(l[..i], ExpiredAt(l[..i], now))|;
      assert listed[at] == ban && At(listed, at + 1) == At(l, i + 1);
      ListedNext(at);
      next := ban.nextBan;
      PurgeStep(l, i, now);
      if ban.duration >= 0 && now > ban.timestamp + ban.duration {
        ghost var before := chains;
        DeleteBan(ban);
        LeftOutTwice(chains0, before, chains, ExpiredAt(l[..i], now), {ban});
      } else {
        assert ExpiredAt(l[..i], now) + {} == ExpiredAt(l[..i], now);
      }
    }

    /** The enabled bans of the list whose range holds the address. */
    ghost function Found(ip: Address): set<Ban>
      reads this`listed
    {
      set b | b in listed && b.enabled && InRange(b.range, ip)
    }

    /** `purge_expired_bans` */
    method PurgeExpired(now: nat)
      requires Valid()
      modifies this`first, this`last, this`listed, this`chains, listed, table.Repr
      ensures Valid() && listed == Without(old(listed), ExpiredAt(old(listed), now))
      ensures forall b :: b in old(listed) ==> (b in listed <==> Active(b, now))
      ensures fresh(table.Repr - old(table.Repr))
      ensures LeftOut(old(chains), chains, ExpiredAt(old(listed), now))
      ensures forall ip, q, t: nat | ValidAddress(ip) && t >= now ::
        Answer(Calls(chains, ip), q, t) == Answer(Calls(old(chains), ip), q, t)
    {
      hide MasterOk, ChainsOk, TableOk, Apart, Without, ExpiredAt, LeftOut, Purged, Answer, Calls;
      ghost var l := listed;
      ghost var i := 0;
      var ban := first;
      Unpurged(l, chains, now);
      Starts();
      while ban != null
        invariant 0 <= i <= |l| && ban == At(l, i)
        invariant Valid() && fresh(table.Repr - old(table.Repr))
        invariant listed == Purged(l, i, now) && LeftOut(old(chains), chains, ExpiredAt(l[..i], now))
        decreases |l| - i
      {
        PurgedWithin(l, i, now);
        ban := PurgeOne(ban, l, i, old(chains), now);
        i := i + 1;
      }
      assert l[..i] == l;
      PurgedAll(l, now);
      ExpiredIsInactive(l, now);
      forall ip, q, t: nat | ValidAddress(ip) && t >= now
        ensures Answer(Calls(chains, ip), q, t) == Answer(Calls(old(chains), ip), q, t)
      {
        PurgeInvisible(l, old(chains), chains, ip, q, now, t);
      }
    }

    lemma Starts()
      requires MasterOk()
      ensures first == At(listed, 0) && Distinct(listed)
    {
    }

    lemma CallsAreAll(ip: Address, called: seq<Ban>)
      requires Valid() && ValidAddress(ip) && called == CallsFrom(chains, ip, FirstLength(ip.version))
      ensures called == Calls(chains, ip)
      ensures Distinct(called) && AllValid(called)
      ensures forall b :: b in called <==> b in listed && b.enabled && InRange(b.range, ip)
      ensures forall i, j :: 0 <= i < j < |called| ==> called[i].range.range >= called[j].range.range
    {
      hide InRange, CallsFrom, HashMap.HashMap.Valid;
      ProbesAgreeWithScan(listed, chains, ip);
      CallsDescend(listed, chains, ip, FirstLength(ip.version));
    }
  }

  /** `ban_matches_board` */
  method BanMatchesBoard(ban: Ban, board: int) returns (r: bool)
    requires ValidBan(ban)
    ensures r <==> ban.boards.None? || exists i ::
      && 0 <= i < |ban.boards.value| && ban.boards.value[i] == board
      && forall j :: 0 <= j <= i ==> ban.boards.value[j] >= 0
  {
    if ban.boards.None? { return true; }
    var boards := ban.boards.value;
    var i := 0;
    while boards[i] >= 0
      invariant 0 <= i < |boards|
      invariant forall j :: 0 <= j < i ==> boards[j] >= 0 && boards[j] != board
      decreases |boards| - i
    {
      if boards[i] == board { return true; }
      i := i + 1;
    }
    return false;
  }

  /** `is_banned_callback` */
  method IsBannedCallback(ban: Ban, q: Query, now: nat, expires: int) returns (r: int)
    requires ValidBan(ban)
    ensures r == Updated(expires, ban, q, now)
  {
    r := expires;
    if ban.kind == q.kind && ban.target == q.target && (ban.duration < 0 || now <= ban.timestamp + ban.duration) {
      var matches := true;
      if q.board.Some? { matches := BanMatchesBoard(ban, q.board.value); }
      if matches {
        if ban.duration > 0 {
          var end := Signed(ban.timestamp + ban.duration);
          if end > r { r := end; }
        } else {
          r := -1;
        }
      }
    }
  }

  /** `is_banned`, and with other kinds `is_flood_limited` and the halves of `is_captcha_required`. */
  method IsBanned(store: BanStore, ip: Address, q: Query, now: nat) returns (expires: int)
    requires store.Valid() && ValidAddress(ip)
    ensures expires == Answer(Calls(store.chains, ip), q, now)
    ensures expires != 0 <==> exists b :: b in store.listed && Bans(b, ip, q, now)
    ensures (forall b :: b in store.Found(ip) ==> !Permanent(b, q, now)) ==>
      LatestEnd(expires, store.Found(ip), q, now, 0)
    ensures forall p :: 0 <= p < |Calls(store.chains, ip)| && LastPermanent(Calls(store.chains, ip), p, q, now) ==>
      LatestEnd(expires, Among(Calls(store.chains, ip)[p + 1..]), q, now, -1)
  {
    hide InRange, Concerns, Active, Calls, ValidBan, LatestEnd, Permanent, LastPermanent, BanStore.Valid, Bans;
    var calls := store.FindBans(ip);
    assert AllValid(calls);
    expires := Ask(calls, q, now);
    AnswerNonZero(calls, q, now);
    AnswerValue(calls, q, now);
    BansFound(store.listed, calls, ip, q, now);
    assert store.Found(ip) == Among(calls);
  }

  lemma BansFound(listed: seq<Ban>, calls: seq<Ban>, ip: Address, q: Query, now: nat)
    requires forall b :: b in calls <==> b in listed && b.enabled && InRange(b.range, ip)
    ensures (exists b :: b in calls && Concerns(b, q) && Active(b, now) && EndFits(b)) <==>
      exists b :: b in listed && Bans(b, ip, q, now)
  {
    hide InRange, Concerns, Active, EndFits;
    if b :| b in listed && Bans(b, ip, q, now) { assert b in calls; }
  }

  /** The callbacks of one query, one after the other. */
  method Ask(calls: seq<Ban>, q: Query, now: nat) returns (expires: int)
    requires AllValid(calls)
    ensures expires == Answer(calls, q, now)
  {
    hide ValidBan, Updated;
    expires := 0;
    for i := 0 to |calls|
      invariant expires == Answer(calls[..i], q, now)
    {
      assert calls[..i + 1][..i] == calls[..i];
      expires := IsBannedCallback(calls[i], q, now, expires);
    }
    assert calls[..|calls|] == calls;
  }
}
