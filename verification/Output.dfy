/** The output side of context.c and print.c: chunks of memory in rings, a free list shared by
    all contexts, and buffered writing that must deliver what was written, in order. */
module Output {
  import opened Lists

  const CHUNK_SIZE := 40960

  /** `struct chunk` and the bytes that follow it; a char stands for one byte. */
  class Chunk {
    var next: Chunk
    var prev: Chunk
    var data: seq<char>

    constructor (data: seq<char>)
      ensures next == this && prev == this && this.data == data
    {
      next, prev := this, this;
      this.data := data;
    }
  }

  // ---- Rings ----

  ghost function After(l: seq<Chunk>, i: nat): Chunk
    requires i < |l|
  {
    if i == |l| - 1 then l[0] else l[i + 1]
  }

  ghost function Before(l: seq<Chunk>, i: nat): Chunk
    requires i < |l|
  {
    if i == 0 then l[|l| - 1] else l[i - 1]
  }

  ghost predicate JoinedAt(l: seq<Chunk>, i: nat)
    requires i < |l|
    reads l`next, l`prev
  {
    l[i].next == After(l, i) && l[i].prev == Before(l, i)
  }

  /** The chunks of l, in this order, are one well-formed circular list. */
  ghost predicate Ring(l: seq<Chunk>)
    reads l`next, l`prev
  {
    Distinct(l) && forall i :: 0 <= i < |l| ==> JoinedAt(l, i)
  }

  lemma RingEnds(l: seq<Chunk>)
    requires Ring(l) && |l| > 0
    ensures l[0].prev == l[|l| - 1] && l[|l| - 1].next == l[0]
    ensures l[0].next == if |l| == 1 then l[0] else l[1]
    ensures l[|l| - 1].prev == if |l| == 1 then l[0] else l[|l| - 2]
  {
    assert JoinedAt(l, 0) && JoinedAt(l, |l| - 1);
  }

  lemma SecondOnce(l: seq<Chunk>)
    requires Ring(l) && |l| > 1
    ensures l[1] != l[0] && l[1] !in l[2..]
  {
  }

  lemma NoRing()
    ensures Ring([])
  {
  }

  lemma Alone(c: Chunk)
    requires c.next == c && c.prev == c
    ensures Ring([c])
  {
  }

  /** `allocate_more_chunks` links a chunk in before the sentinel. */
  method LinkBefore(first: Chunk, c: Chunk, ghost l: seq<Chunk>)
    requires Ring(l) && |l| > 0 && l[0] == first && c !in l
    modifies c`next, c`prev, l`next, l`prev
    ensures Ring(l + [c])
  {
    RingEnds(l);
    c.next := first;
    c.prev := first.prev;
    c.next.prev := c;
    c.prev.next := c;
    forall i | 0 <= i < |l| + 1 ensures JoinedAt(l + [c], i) {
      if i < |l| { assert old(JoinedAt(l, i)); }
    }
  }

  /** `context_get_buffer` links a chunk in after the context's current one. */
  method LinkAfter(last: Chunk, c: Chunk, ghost l: seq<Chunk>)
    requires Ring(l) && |l| > 0 && l[|l| - 1] == last && c !in l
    modifies c`next, c`prev, l`next, l`prev
    ensures Ring(l + [c])
  {
    RingEnds(l);
    c.prev := last;
    c.next := last.next;
    c.prev.next := c;
    c.next.prev := c;
    forall i | 0 <= i < |l| + 1 ensures JoinedAt(l + [c], i) {
      if i < |l| { assert old(JoinedAt(l, i)); }
    }
  }

  /** `get_chunk` takes the chunk after the sentinel out of its ring. */
  method Unlink(c: Chunk, ghost l: seq<Chunk>)
    requires Ring(l) && |l| > 1 && l[1] == c
    modifies l`next, l`prev
    ensures Ring([l[0]] + l[2..]) && Ring([c])
  {
    assert JoinedAt(l, 1);
    var prev := c.prev;
    var next := c.next;
    prev.next := next;
    next.prev := prev;
    c.next := c;
    c.prev := c;
    ghost var r := [l[0]] + l[2..];
    forall i | 0 <= i < |r| ensures JoinedAt(r, i) {
      assert old(JoinedAt(l, if i == 0 then 0 else i + 1));
    }
    Alone(c);
  }

  lemma SplicedDistinct(l: seq<Chunk>, ring: seq<Chunk>)
    requires Distinct(l) && Distinct(ring) && |ring| > 0 && forall c :: c in ring ==> c !in l
    ensures Distinct(l + [ring[|ring| - 1]] + ring[..|ring| - 1])
  {
    var n, r := |l|, l + [ring[|ring| - 1]] + ring[..|ring| - 1];
    forall i, j | 0 <= i < j < |r| ensures r[i] != r[j] {
      if j >= n { assert r[j] == ring[if j == n then |ring| - 1 else j - n - 1] && r[j] in ring; }
      if i >= n { assert r[i] == ring[if i == n then |ring| - 1 else i - n - 1]; }
    }
  }

  /** `context_unref` cuts the context's ring open before its current chunk a and joins the whole of it
      to the end of the free list. */
  method Splice(sentinel: Chunk, a: Chunk, ghost l: seq<Chunk>, ghost ring: seq<Chunk>)
    requires Ring(l) && |l| > 0 && l[0] == sentinel && Ring(ring) && |ring| > 0 && ring[|ring| - 1] == a
    requires forall c :: c in ring ==> c !in l
    modifies l`next, l`prev, ring`next, ring`prev
    ensures Ring(l + [a] + ring[..|ring| - 1])
  {
    RingEnds(l);
    RingEnds(ring);
    ghost var n := |l|;
    ghost var r := l + [a] + ring[..|ring| - 1];
    var b := a.prev;
    assert a in ring && b in ring && a !in l && b !in l;
    b.next := sentinel;
    a.prev := sentinel.prev;
    b.next.prev := b;
    a.prev.next := a;
    SplicedDistinct(l, ring);
    forall i | 0 <= i < n ensures JoinedAt(r, i) {
      assert old(JoinedAt(l, i));
    }
    assert b == r[|r| - 1];
    assert JoinedAt(r, n);
    forall i | n < i < |r| ensures JoinedAt(r, i) {
      assert old(JoinedAt(ring, i - n - 1));
    }
  }

  /** The sentinel and the chunks on the free list. */
  class Pool {
    const sentinel: Chunk
    ghost var free: seq<Chunk>

    ghost predicate Valid()
      reads this, ([sentinel] + free)`next, ([sentinel] + free)`prev, free`data
    {
      Ring([sentinel] + free) && forall i :: 0 <= i < |free| ==> |free[i].data| == CHUNK_SIZE
    }

    constructor ()
      ensures Valid() && free == [] && fresh(sentinel)
    {
      sentinel := new Chunk([]);
      free := [];
      new;
      Alone(sentinel);
      assert [sentinel] + free == [sentinel];
    }

    /** One chunk of `allocate_more_chunks`. */
    method AddChunk() returns (ghost chunk: Chunk)
      requires Valid()
      modifies this, sentinel`next, sentinel`prev, free`next, free`prev
      ensures Valid() && fresh(chunk) && free == old(free) + [chunk]
    {
      var c := new Chunk(seq(CHUNK_SIZE, _ => '\0'));
      LinkBefore(sentinel, c, [sentinel] + free);
      assert [sentinel] + free + [c] == [sentinel] + (free + [c]);
      free := free + [c];
      chunk := c;
    }

    /** `allocate_more_chunks` */
    method AllocateMoreChunks() returns (ghost added: seq<Chunk>)
      requires Valid()
      modifies this, sentinel`next, sentinel`prev, free`next, free`prev
      ensures Valid() && free == old(free) + added && |added| == 10 && fresh(added)
    {
      hide Ring;
      added := [];
      var i := 0;
      while i < 10
        invariant 0 <= i <= 10 && Valid() && free == old(free) + added && |added| == i && fresh(added)
      {
        assert forall k :: 0 <= k < |free| ==> free[k] in old(free) || fresh(free[k]);
        ghost var c := AddChunk();
        added := added + [c];
        i := i + 1;
      }
    }

    /** `get_chunk`: a chunk from the free list, which is filled first if it is empty. */
    method GetChunk() returns (chunk: Chunk, ghost added: seq<Chunk>)
      requires Valid()
      modifies this, sentinel`next, sentinel`prev, free`next, free`prev
      ensures Valid() && Ring([chunk]) && |chunk.data| == CHUNK_SIZE
      ensures [chunk] + free == old(free) + added && fresh(added)
      ensures chunk !in free && chunk != sentinel && (chunk in old(free) || fresh(chunk))
      ensures forall i :: 0 <= i < |free| ==> free[i] in old(free) || fresh(free[i])
    {
      added := [];
      RingEnds([sentinel] + free);
      if sentinel.next == sentinel {
        added := AllocateMoreChunks();
        RingEnds([sentinel] + free);
      }
      ghost var l := [sentinel] + free;
      assert forall k :: 0 <= k < |l| ==> l[k] == sentinel || l[k] in old(free) || fresh(l[k]);
      chunk := sentinel.next;
      SecondOnce(l);
      Unlink(chunk, l);
      free := free[1..];
      assert l[2..] == free;
      assert [l[0]] + l[2..] == [sentinel] + free;
    }
  }

  // ---- What is sent ----

  /** A stretch of a chunk from its start, or of a file, queued for sending. */
  datatype Slice = Memory(chunk: Chunk, n: nat) | File(fd: int, offset: nat, length: nat)

  /** What the other side gets: bytes, and stretches of files. */
  datatype Item = Byte(c: char) | FromFile(fd: int, offset: nat, length: nat)

  function Items(s: seq<char>): (r: seq<Item>)
    ensures |r| == |s|
    ensures forall i :: 0 <= i < |s| ==> r[i] == Byte(s[i])
  {
    seq(|s|, i requires 0 <= i < |s| => Byte(s[i]))
  }

  lemma NoItems()
    ensures Items([]) == []
  {
  }

  lemma ItemsJoin(a: seq<char>, b: seq<char>)
    ensures Items(a + b) == Items(a) + Items(b)
  {
  }

  ghost function SliceItems(s: Slice): seq<Item>
    reads (if s.Memory? then {s.chunk} else {})`data
  {
    match s
    case Memory(chunk, n) => if n <= |chunk.data| then Items(chunk.data[..n]) else []
    case File(fd, offset, length) => [FromFile(fd, offset, length)]
  }

  /** The items of these slices, whose memory belongs to the ring. */
  ghost function Sent(batch: seq<Slice>, ring: seq<Chunk>): seq<Item>
    requires Owned(batch, ring)
    reads ring`data
  {
    if |batch| == 0 then [] else Sent(batch[..|batch| - 1], ring) + SliceItems(batch[|batch| - 1])
  }

  ghost predicate Owned(batch: seq<Slice>, ring: seq<Chunk>) {
    forall i :: 0 <= i < |batch| && batch[i].Memory? ==> batch[i].chunk in ring
  }

  lemma NothingOwned()
    ensures Owned([], [])
  {
  }

  lemma SentOne(batch: seq<Slice>, s: Slice, ring: seq<Chunk>)
    requires Owned(batch, ring) && (s.Memory? ==> s.chunk in ring)
    ensures Owned(batch + [s], ring) && Sent(batch + [s], ring) == Sent(batch, ring) + SliceItems(s)
  {
    assert (batch + [s])[..|batch|] == batch;
  }

  lemma {:induction false} SentGrows(batch: seq<Slice>, ring: seq<Chunk>, more: seq<Chunk>)
    requires Owned(batch, ring)
    ensures Owned(batch, ring + more) && Sent(batch, ring + more) == Sent(batch, ring)
  {
    if |batch| > 0 { SentGrows(batch[..|batch| - 1], ring, more); }
  }

  // ---- Escaping ----

  /** `FMT_ESC_HTML_CHAR`: the longest escape. */
  const LONGEST_ESCAPE := 6

  /** `html_escape_char` */
  function EscapeChar(c: char): (r: seq<char>)
    ensures 0 < |r| <= LONGEST_ESCAPE
  {
    if c == '&' then "&amp;" else if c == '<' then "&lt;" else if c == '>' then "&gt;"
    else if c == '\"' then "&quot;" else if c == '\'' then "&#x27;" else if c == '/' then "&#x2F;"
    else [c]
  }

  function Escape(s: seq<char>): seq<char> {
    if |s| == 0 then [] else Escape(s[..|s| - 1]) + EscapeChar(s[|s| - 1])
  }

  lemma {:induction false} EscapeJoin(a: seq<char>, b: seq<char>)
    ensures Escape(a + b) == Escape(a) + Escape(b)
  {
    hide EscapeChar;
    if |b| == 0 {
      assert a + b == a;
    } else {
      assert (a + b)[..|a + b| - 1] == a + b[..|b| - 1];
      EscapeJoin(a, b[..|b| - 1]);
    }
  }

  lemma EscapeNone(s: seq<char>)
    requires s == []
    ensures Escape(s) == []
  {
  }

  lemma EscapeStep(text: seq<char>, from: nat, s: nat)
    requires from <= s < |text|
    ensures Escape(text[from..s + 1]) == Escape(text[from..s]) + EscapeChar(text[s])
  {
    assert text[from..s + 1][..s - from] == text[from..s];
  }

  lemma EscapeOne(c: char)
    ensures Escape([c]) == EscapeChar(c)
  {
    assert [c][..0] == [];
  }

  /** The six entities. */
  lemma Entities()
    ensures Escape("&<>") == "&amp;&lt;&gt;" && Escape("\"'/") == "&quot;&#x27;&#x2F;"
  {
    hide Escape;
    ThreeEscaped('&', '<', '>');
    ThreeEscaped('\"', '\'', '/');
  }

  lemma ThreeEscaped(a: char, b: char, c: char)
    ensures Escape([a, b, c]) == EscapeChar(a) + EscapeChar(b) + EscapeChar(c)
  {
    hide EscapeChar;
    assert [a, b, c] == [a] + [b] + [c];
    EscapeJoin([a] + [b], [c]);
    EscapeJoin([a], [b]);
    EscapeOne(a);
    EscapeOne(b);
    EscapeOne(c);
  }

  predicate Harmless(c: char) {
    c != '<' && c != '>' && c != '\"' && c != '\'' && c != '/'
  }

  /** Nothing that is escaped can open or close an element, an attribute or an end tag. */
  lemma {:induction false} EscapedIsHarmless(s: seq<char>)
    ensures forall i :: 0 <= i < |Escape(s)| ==> Harmless(Escape(s)[i])
  {
    if |s| > 0 { EscapedIsHarmless(s[..|s| - 1]); }
  }

  /** The first character of an escaped text and the length of its escape. */
  function Entity(s: seq<char>): (r: (char, nat))
    requires |s| > 0
    ensures 0 < r.1 <= |s|
  {
    if "&amp;" <= s then ('&', 5) else if "&lt;" <= s then ('<', 4) else if "&gt;" <= s then ('>', 4)
    else if "&quot;" <= s then ('\"', 6) else if "&#x27;" <= s then ('\'', 6) else if "&#x2F;" <= s then ('/', 6)
    else (s[0], 1)
  }

  function Unescape(s: seq<char>): seq<char> {
    if |s| == 0 then [] else [Entity(s).0] + Unescape(s[Entity(s).1..])
  }

  lemma EntityOf(c: char, rest: seq<char>)
    ensures Entity(EscapeChar(c) + rest) == (c, |EscapeChar(c)|)
  {
    var e := EscapeChar(c);
    var s := e + rest;
    assert s[..|e|] == e && s[0] == e[0];
    assert "&amp;"[1] == 'a' && "&lt;"[1] == 'l' && "&gt;"[1] == 'g' && "&quot;"[1] == 'q';
    assert "&#x27;"[1] == '#' && "&#x27;"[4] == '7' && "&#x2F;"[4] == 'F';
    if |e| > 1 { assert s[1] == e[1]; }
    if |e| > 4 { assert s[4] == e[4]; }
  }

  lemma UnescapeStep(c: char, rest: seq<char>)
    ensures Unescape(EscapeChar(c) + rest) == [c] + Unescape(rest)
  {
    hide Entity, EscapeChar;
    EntityOf(c, rest);
    assert (EscapeChar(c) + rest)[|EscapeChar(c)|..] == rest;
  }

  /** Escaping loses nothing. */
  lemma {:induction false} EscapeRoundTrip(s: seq<char>)
    ensures Unescape(Escape(s)) == s
    decreases |s|
  {
    if |s| > 0 {
      EscapeJoin([s[0]], s[1..]);
      EscapeOne(s[0]);
      assert [s[0]] + s[1..] == s;
      EscapeRoundTrip(s[1..]);
      UnescapeStep(s[0], Escape(s[1..]));
    }
  }

  // ---- Contexts ----

  datatype Op =
    | Write(data: seq<char>)
    | WriteEscaped(text: seq<char>)
    | WriteFile(fd: int, offset: nat, length: nat)
    | Flush
    | AddRef
    | Unref

  /** How many hold a context after an operation. */
  function References(n: nat, op: Op): nat
    requires op.Unref? ==> n > 0
  {
    if op.AddRef? then n + 1 else if op.Unref? then n - 1 else n
  }

  /** What an operation adds to what the other side gets. */
  function Effect(op: Op): seq<Item> {
    match op
    case Write(data) => Items(data)
    case WriteEscaped(text) => Items(Escape(text))
    case WriteFile(fd, offset, length) => [FromFile(fd, offset, length)]
    case _ => []
  }

  /** The characters of items that are bytes. */
  function Chars(items: seq<Item>): seq<char>
    requires forall i :: 0 <= i < |items| ==> items[i].Byte?
  {
    seq(|items|, i requires 0 <= i < |items| => items[i].c)
  }

  /** Data arrives as it is. Escaped text arrives without a character that means something in HTML, and unescaping gives
      it back. A file arrives as the one stretch that was asked for, and nothing else arrives. */
  lemma WhatArrives(op: Op)
    ensures op.Write? ==>
      |Effect(op)| == |op.data| && forall i :: 0 <= i < |op.data| ==> Effect(op)[i] == Byte(op.data[i])
    ensures op.WriteEscaped? ==> forall i :: 0 <= i < |Effect(op)| ==> Effect(op)[i].Byte? && Harmless(Effect(op)[i].c)
    ensures op.WriteEscaped? ==> Unescape(Chars(Effect(op))) == op.text
    ensures op.WriteFile? ==> Effect(op) == [FromFile(op.fd, op.offset, op.length)]
    ensures op.Flush? || op.AddRef? || op.Unref? ==> Effect(op) == []
  {
    if op.WriteEscaped? {
      EscapedIsHarmless(op.text);
      EscapeRoundTrip(op.text);
      assert Chars(Effect(op)) == Escape(op.text);
    }
  }

  ghost predicate Among(l: seq<Chunk>, a: seq<Chunk>, b: seq<Chunk>, added: seq<Chunk>) {
    forall i :: 0 <= i < |l| ==> l[i] in a || l[i] in b || l[i] in added
  }

  lemma Shares(l: seq<Chunk>, m: seq<Chunk>, a: seq<Chunk>, b: seq<Chunk>, added: seq<Chunk>)
    requires l + m == a + b + added
    ensures Among(l, a, b, added) && Among(m, a, b, added)
  {
    var all := a + b + added;
    assert forall i :: 0 <= i < |all| ==> all[i] in a || all[i] in b || all[i] in added;
    assert forall i :: 0 <= i < |l| ==> l[i] == all[i];
    assert forall i :: 0 <= i < |m| ==> m[i] == all[|l| + i];
  }

  class Context {
    const pool: Pool
    var refcount: nat
    /** The chunk that was taken last. */
    var chunk: Chunk?
    var bufOffset: nat
    var bufSize: nat
    /** Everything queued for sending since the context was made. */
    var batch: seq<Slice>
    /** The chunks of the context, the oldest first. */
    ghost var ring: seq<Chunk>

    constructor (pool: Pool)
      requires pool.Valid()
      ensures Valid() && this.pool == pool && ring == [] && Output() == [] && refcount == 1
    {
      this.pool := pool;
      refcount, chunk, bufOffset, bufSize, batch, ring := 1, null, 0, 0, [], [];
    }

    ghost predicate Ringed()
      reads this`chunk, this`ring, ring`next, ring`prev
    {
      Ring(ring) && chunk == if |ring| == 0 then null else ring[|ring| - 1]
    }

    /** Queued memory is the context's own, and no queued chunk is written to any more. */
    ghost predicate Buffered()
      reads this`chunk, this`bufOffset, this`bufSize, this`batch, this`ring, ring`data
    {
      && (forall i :: 0 <= i < |ring| ==> |ring[i].data| == CHUNK_SIZE)
      && (bufSize > 0 ==> |ring| > 0 && chunk == ring[|ring| - 1] && bufSize == CHUNK_SIZE && bufOffset < bufSize)
      && (bufSize == 0 ==> bufOffset == 0)
      && Owned(batch, Closed())
    }

    /** The chunks that are not written to any more. */
    ghost function Closed(): seq<Chunk>
      reads this`ring, this`bufSize
    {
      if bufSize > 0 && |ring| > 0 then ring[..|ring| - 1] else ring
    }

    ghost predicate Apart()
      reads this`ring, pool
    {
      forall i :: 0 <= i < |ring| ==> ring[i] != pool.sentinel && ring[i] !in pool.free
    }

    ghost predicate Valid()
      reads this, ring, pool, pool.sentinel, pool.free
    {
      pool.Valid() && Ringed() && Buffered() && Apart()
    }

    /** What is queued, then what stands in the open chunk. */
    ghost function Output(): seq<Item>
      reads this`chunk, this`bufOffset, this`bufSize, this`batch, this`ring, ring`data
    {
      if !Buffered() then [] else Sent(batch, Closed()) + if bufSize > 0 then Items(chunk.data[..bufOffset]) else []
    }

    /** A new chunk becomes the context's current one. */
    method JoinRing(c: Chunk)
      requires Ringed() && Ring([c]) && c !in ring
      modifies this`chunk, this`ring, c`next, c`prev, ring`next, ring`prev
      ensures Ringed() && chunk == c && ring == old(ring) + [c]
    {
      hide Ring;
      if chunk != null {
        LinkAfter(chunk, c, ring);
      } else {
        assert ring + [c] == [c];
      }
      chunk := c;
      ring := ring + [c];
    }

    /** The chunk that `context_get_buffer` takes joins the context's ring. */
    method TakeChunk() returns (ghost added: seq<Chunk>)
      requires Valid() && bufSize == 0
      modifies this`chunk, this`ring, pool
      modifies pool.sentinel`next, pool.sentinel`prev, pool.free`next, pool.free`prev, ring`next, ring`prev
      ensures Valid() && chunk != null && chunk !in old(ring) && ring == old(ring) + [chunk]
      ensures ring + pool.free == old(ring + pool.free) + added && fresh(added)
    {
      hide Ring, Ringed;
      var newChunk;
      newChunk, added := pool.GetChunk();
      assert forall i :: 0 <= i < |ring| ==> ring[i] != newChunk;
      assert Ringed() && Apart();
      JoinRing(newChunk);
      assert ring + pool.free == old(ring) + ([newChunk] + pool.free);
      assert old(ring + pool.free) + added == old(ring) + (old(pool.free) + added);
    }

    /** `context_get_buffer`: room for at least one byte. */
    method GetBuffer() returns (available: nat, ghost added: seq<Chunk>)
      requires Valid()
      modifies this`chunk, this`bufOffset, this`bufSize, this`ring, pool
      modifies pool.sentinel`next, pool.sentinel`prev, pool.free`next, pool.free`prev, ring`next, ring`prev
      ensures Valid() && available == bufSize - bufOffset > 0 && Output() == old(Output())
      ensures ring + pool.free == old(ring + pool.free) + added && fresh(added)
    {
      hide Ring;
      added := [];
      if bufOffset == bufSize {
        added := TakeChunk();
        assert ring[..|ring| - 1] == old(ring);
        bufSize := CHUNK_SIZE;
        bufOffset := 0;
      }
      available := bufSize - bufOffset;
    }

    lemma NotClosed()
      requires Valid() && bufSize > 0
      ensures forall i :: 0 <= i < |Closed()| ==> Closed()[i] != chunk
    {
    }

    /** A write into the open chunk, past what it already holds. */
    method Poke(at: nat, s: seq<char>)
      requires Valid() && bufOffset <= at && at + |s| <= bufSize && bufSize > 0
      modifies chunk`data
      ensures Valid() && Output() == old(Output())
      ensures chunk.data == old(chunk.data[..at]) + s + old(chunk.data[at + |s|..])
    {
      NotClosed();
      chunk.data := chunk.data[..at] + s + chunk.data[at + |s|..];
      assert chunk.data[..bufOffset] == old(chunk.data[..bufOffset]);
    }

    lemma QueueOne(closed: seq<Chunk>, c: Chunk, n: nat)
      requires Owned(batch, closed) && n <= |c.data| && (ring == closed + [c] || (ring == closed && c in ring))
      ensures Owned(batch + [Memory(c, n)], ring)
      ensures Sent(batch + [Memory(c, n)], ring) == Sent(batch, closed) + Items(c.data[..n])
    {
      if ring == closed + [c] { SentGrows(batch, closed, [c]); }
      SentOne(batch, Memory(c, n), ring);
    }

    /** `iob_addbuf` of the first n bytes of the context's chunk, which is closed. */
    method Queue(n: nat)
      requires Valid() && chunk != null && bufOffset <= n <= bufSize
      modifies this`bufOffset, this`bufSize, this`batch
      ensures Valid() && bufSize == 0 && Output() == old(Output()) + Items(old(chunk.data[bufOffset..n]))
    {
      hide Ring, Sent, Owned, Items;
      ghost var d := chunk.data;
      assert d[..n] == d[..bufOffset] + d[bufOffset..n];
      ItemsJoin(d[..bufOffset], d[bufOffset..n]);
      if bufSize > 0 { assert ring == ring[..|ring| - 1] + [chunk]; } else { assert d[..0] == []; NoItems(); }
      QueueOne(Closed(), chunk, n);
      batch := batch + [Memory(chunk, n)];
      bufSize := 0;
      bufOffset := 0;
    }

    /** `context_consume_buffer`: the next n bytes of the open chunk are written; a full chunk is queued. */
    method ConsumeBuffer(n: nat)
      requires Valid() && bufOffset + n <= bufSize && bufSize > 0
      modifies this`bufOffset, this`bufSize, this`batch
      ensures Valid() && Output() == old(Output()) + Items(old(chunk.data[bufOffset..bufOffset + n]))
    {
      hide Ring, Sent, Owned, Items;
      if bufOffset + n == bufSize {
        Queue(bufOffset + n);
      } else {
        ghost var d := chunk.data;
        assert d[..bufOffset + n] == d[..bufOffset] + d[bufOffset..bufOffset + n];
        ItemsJoin(d[..bufOffset], d[bufOffset..bufOffset + n]);
        bufOffset := bufOffset + n;
      }
    }

    /** One turn of `context_write_data`: as much as fits, and whether that was everything with room to spare. */
    method WriteSome(buf: seq<char>) returns (n: nat, done: bool, ghost added: seq<Chunk>)
      requires Valid()
      modifies this`chunk, this`bufOffset, this`bufSize, this`ring, this`batch, pool
      modifies pool.sentinel`next, pool.sentinel`prev, pool.free, ring
      ensures Valid() && n <= |buf| && (done ==> n == |buf|) && (!done ==> n > 0)
      ensures Output() == old(Output()) + Items(buf[..n])
      ensures ring + pool.free == old(ring + pool.free) + added && fresh(added)
    {
      hide Ring, Sent, Output;
      var available;
      available, added := GetBuffer();
      Shares(ring, pool.free, old(ring), old(pool.free), added);
      assert chunk in ring;
      done := available > |buf|;
      n := if done then |buf| else available;
      Append(buf[..n]);
    }

    /** `context_write_data`, over as many chunks as it takes. */
    method WriteData(buf: seq<char>) returns (ghost added: seq<Chunk>)
      requires Valid()
      modifies this`chunk, this`bufOffset, this`bufSize, this`ring, this`batch, pool
      modifies pool.sentinel`next, pool.sentinel`prev, pool.free, ring
      ensures Valid() && Output() == old(Output()) + Items(buf)
      ensures ring + pool.free == old(ring + pool.free) + added && fresh(added)
    {
      hide Ringed, Buffered, Apart, Pool.Valid, Output, Items;
      added := [];
      var from := 0;
      var done := false;
      assert buf[..0] == [];
      NoItems();
      while !done
        invariant Valid() && from <= |buf| && Output() == old(Output()) + Items(buf[..from])
        invariant ring + pool.free == old(ring + pool.free) + added && fresh(added)
        invariant done ==> from == |buf|
        decreases !done, |buf| - from
      {
        Shares(ring, pool.free, old(ring), old(pool.free), added);
        var n;
        ghost var more;
        n, done, more := WriteSome(buf[from..]);
        added := added + more;
        ItemsJoin(buf[..from], buf[from..][..n]);
        assert buf[..from] + buf[from..][..n] == buf[..from + n];
        from := from + n;
      }
      assert buf[..from] == buf;
    }

    /** A `memcpy` into the open chunk and the `context_consume_buffer` that follows it. */
    method Append(s: seq<char>)
      requires Valid() && bufSize > 0 && bufOffset + |s| <= bufSize
      modifies this`bufOffset, this`bufSize, this`batch, chunk`data
      ensures Valid() && Output() == old(Output()) + Items(s)
    {
      hide Ring, Sent;
      Poke(bufOffset, s);
      assert chunk.data[bufOffset..bufOffset + |s|] == s;
      ConsumeBuffer(|s|);
    }

    /** `context_flush`, as far as the buffer goes: afterwards everything written is queued. */
    method Flush()
      requires Valid()
      modifies this`bufOffset, this`bufSize, this`batch
      ensures Valid() && Output() == old(Output()) == Sent(batch, Closed())
    {
      hide Ring, Sent;
      if chunk != null {
        assert chunk.data[bufOffset..bufOffset] == [];
        Queue(bufOffset);
      }
    }

    /** `context_write_file`: what was written before goes first. */
    method WriteFile(fd: int, offset: nat, length: nat)
      requires Valid()
      modifies this`bufOffset, this`bufSize, this`batch
      ensures Valid() && Output() == old(Output()) + [FromFile(fd, offset, length)]
    {
      hide Ring, Sent;
      Flush();
      SentOne(batch, File(fd, offset, length), Closed());
      batch := batch + [File(fd, offset, length)];
    }

    /** The part of `context_unref` that gives all chunks back. */
    method ReturnChunks()
      requires pool.Valid() && Ringed() && Apart() && forall i :: 0 <= i < |ring| ==> |ring[i].data| == CHUNK_SIZE
      modifies this`ring, this`chunk, pool, pool.sentinel`next, pool.sentinel`prev, pool.free`next, pool.free`prev
      modifies ring`next, ring`prev
      ensures pool.Valid() && ring == [] && chunk == null
      ensures multiset(pool.free) == multiset(old(pool.free)) + multiset(old(ring))
    {
      hide Ring;
      if chunk != null {
        ghost var l, n := [pool.sentinel] + pool.free, |ring| - 1;
        assert forall c :: c in ring ==> c !in l;
        Splice(pool.sentinel, chunk, l, ring);
        assert ring == ring[..n] + [chunk];
        assert l + [chunk] + ring[..n] == [pool.sentinel] + (pool.free + [chunk] + ring[..n]);
        pool.free := pool.free + [chunk] + ring[..n];
      }
      chunk, ring := null, [];
    }

    /** `context_addref`: someone else keeps the context, too. */
    method AddRef()
      requires Valid()
      modifies this`refcount
      ensures Valid() && refcount == old(refcount) + 1 && Output() == old(Output())
    {
      refcount := refcount + 1;
    }

    /** `context_unref`: the last reference gives all chunks back. */
    method Unref()
      requires Valid() && refcount > 0
      modifies this, pool, pool.sentinel`next, pool.sentinel`prev, pool.free`next, pool.free`prev, ring`next, ring`prev
      ensures Valid() && refcount == old(refcount) - 1
      ensures refcount > 0 ==> ring == old(ring) && pool.free == old(pool.free) && Output() == old(Output())
      ensures refcount == 0 ==> ring == [] && multiset(pool.free) == multiset(old(pool.free)) + multiset(old(ring))
    {
      hide Ring, Sent, Items, Owned;
      NothingOwned();
      refcount := refcount - 1;
      if refcount == 0 {
        ReturnChunks();
        bufOffset, bufSize, batch := 0, 0, [];
        NoRing();
      }
    }

    /** Escaping straight into the open chunk, as long as the longest entity would fit. */
    method EscapeInto(text: seq<char>, from: nat) returns (s: nat, written: nat)
      requires Valid() && from < |text| && bufSize > 0
      modifies chunk`data
      ensures Valid() && Output() == old(Output()) && from <= s <= |text| && bufOffset + written <= bufSize
      ensures |chunk.data| >= bufSize && chunk.data[bufOffset..bufOffset + written] == Escape(text[from..s])
    {
      hide Ring, Ringed, Apart, Pool.Valid, Sent, Output, EscapeChar, Escape, Items, Owned;
      EscapeNone(text[from..from]);
      s, written := from, 0;
      var available := bufSize - bufOffset;
      while available >= LONGEST_ESCAPE && s < |text|
        modifies chunk`data
        invariant Valid() && Output() == old(Output()) && from <= s <= |text|
        invariant available == bufSize - bufOffset - written
        invariant bufOffset + written <= bufSize <= |chunk.data|
        invariant chunk.data[bufOffset..bufOffset + written] == Escape(text[from..s])
      {
        var entity := EscapeChar(text[s]);
        ghost var d := chunk.data;
        Poke(bufOffset + written, entity);
        EscapeStep(text, from, s);
        assert chunk.data[bufOffset..bufOffset + written + |entity|] == d[bufOffset..bufOffset + written] + entity;
        available := available - |entity|;
        written := written + |entity|;
        s := s + 1;
      }
    }

    /** The part of `_print_esc_html` that escapes straight into the open chunk. */
    method EscapeInPlace(text: seq<char>, from: nat) returns (s: nat, ghost added: seq<Chunk>)
      requires Valid() && from < |text|
      modifies this`chunk, this`bufOffset, this`bufSize, this`ring, this`batch, pool
      modifies pool.sentinel`next, pool.sentinel`prev, pool.free, ring
      ensures Valid() && from <= s <= |text| && Output() == old(Output()) + Items(Escape(text[from..s]))
      ensures ring + pool.free == old(ring + pool.free) + added && fresh(added)
    {
      hide Ring, Ringed, Apart, Pool.Valid, Sent, Output, Escape, Items, Owned;
      var available;
      available, added := GetBuffer();
      Shares(ring, pool.free, old(ring), old(pool.free), added);
      assert chunk in ring;
      var written;
      s, written := EscapeInto(text, from);
      ConsumeBuffer(written);
    }

    /** The part of `_print_esc_html` that escapes a few characters over the end of a chunk. */
    method EscapeAcross(text: seq<char>, from: nat) returns (s: nat, ghost added: seq<Chunk>)
      requires Valid() && from < |text|
      modifies this`chunk, this`bufOffset, this`bufSize, this`ring, this`batch, pool
      modifies pool.sentinel`next, pool.sentinel`prev, pool.free, ring
      ensures Valid() && from < s <= |text| && Output() == old(Output()) + Items(Escape(text[from..s]))
      ensures ring + pool.free == old(ring + pool.free) + added && fresh(added)
    {
      hide Ringed, Buffered, Apart, Pool.Valid, Output, EscapeChar, Items;
      var tmp: seq<char> := [];
      s := from;
      var i := 0;
      while i < LONGEST_ESCAPE && s < |text|
        modifies {}
        invariant i <= LONGEST_ESCAPE && s == from + i && s <= |text|
        invariant tmp == Escape(text[from..s]) && |tmp| <= LONGEST_ESCAPE * i
      {
        assert text[from..s + 1][..s - from] == text[from..s];
        tmp := tmp + EscapeChar(text[s]);
        s := s + 1;
        i := i + 1;
      }
      added := WriteData(tmp);
    }

    /** `_print_esc_html` */
    method PrintEscHtml(text: seq<char>) returns (ghost added: seq<Chunk>)
      requires Valid()
      modifies this`chunk, this`bufOffset, this`bufSize, this`ring, this`batch, pool
      modifies pool.sentinel`next, pool.sentinel`prev, pool.free, ring
      ensures Valid() && Output() == old(Output()) + Items(Escape(text))
      ensures ring + pool.free == old(ring + pool.free) + added && fresh(added)
    {
      hide Ringed, Buffered, Apart, Pool.Valid, Output, Escape, Items;
      added := [];
      var s := 0;
      NothingEscaped(text);
      while s < |text|
        invariant Valid() && s <= |text| && Output() == old(Output()) + Items(Escape(text[..s]))
        invariant ring + pool.free == old(ring + pool.free) + added && fresh(added)
        decreases |text| - s
      {
        ghost var more, s0 := [], s;
        Shares(ring, pool.free, old(ring), old(pool.free), added);
        s, more := EscapeInPlace(text, s);
        added := added + more;
        EscapedFurther(text, s0, s);
        if s == |text| { break; }
        s0 := s;
        Shares(ring, pool.free, old(ring), old(pool.free), added);
        s, more := EscapeAcross(text, s);
        added := added + more;
        EscapedFurther(text, s0, s);
      }
      assert text[..s] == text;
    }

    /** Any operation; chunks only move between the context's ring and the free list. */
    method Perform(op: Op) returns (ghost added: seq<Chunk>)
      requires Valid() && (op.Unref? ==> refcount > 0)
      modifies this, pool, pool.sentinel, pool.free, ring
      ensures Valid() && fresh(added) && refcount == References(old(refcount), op)
      ensures !(op.Unref? && refcount == 0) ==> Output() == old(Output()) + Effect(op)
      ensures multiset(ring) + multiset(pool.free) == multiset(old(ring)) + multiset(old(pool.free)) + multiset(added)
    {
      hide Ringed, Buffered, Apart, Pool.Valid, Output, Items, Escape;
      added := [];
      match op {
        case Write(data) =>
          added := WriteData(data);
          Recounted(ring, pool.free, old(ring), old(pool.free), added);
        case WriteEscaped(text) =>
          added := PrintEscHtml(text);
          Recounted(ring, pool.free, old(ring), old(pool.free), added);
        case WriteFile(fd, offset, length) => WriteFile(fd, offset, length);
        case Flush => Flush();
        case AddRef => AddRef();
        case Unref => Unref();
      }
    }
  }

  lemma Recounted(l: seq<Chunk>, m: seq<Chunk>, a: seq<Chunk>, b: seq<Chunk>, added: seq<Chunk>)
    requires l + m == a + b + added
    ensures multiset(l) + multiset(m) == multiset(a) + multiset(b) + multiset(added)
  {
    assert multiset(l + m) == multiset(l) + multiset(m);
    assert multiset(a + b + added) == multiset(a) + multiset(b) + multiset(added);
  }

  lemma NothingEscaped(text: seq<char>)
    ensures Items(Escape(text[..0])) == []
  {
  }

  lemma EscapedFurther(text: seq<char>, s0: nat, s: nat)
    requires s0 <= s <= |text|
    ensures Items(Escape(text[..s])) == Items(Escape(text[..s0])) + Items(Escape(text[s0..s]))
  {
    assert text[..s] == text[..s0] + text[s0..s];
    EscapeJoin(text[..s0], text[s0..s]);
    ItemsJoin(Escape(text[..s0]), Escape(text[s0..s]));
  }

  // ---- Any interleaving of contexts ----

  ghost predicate Disjoint(a: seq<Chunk>, b: seq<Chunk>) {
    forall i :: 0 <= i < |a| ==> a[i] !in b
  }

  /** Chunks counted alike are chunks found alike. */
  lemma Members(l: seq<Chunk>, m: seq<Chunk>, a: seq<Chunk>, b: seq<Chunk>, added: seq<Chunk>)
    requires multiset(l) + multiset(m) == multiset(a) + multiset(b) + multiset(added)
    ensures Among(l, a, b, added) && Among(m, a, b, added)
    ensures Among(a, l, m, []) && Among(b, l, m, []) && Among(added, l, m, [])
  {
    forall c: Chunk ensures (c in l || c in m) <==> (c in a || c in b || c in added) {
      assert (multiset(l) + multiset(m))[c] == (multiset(a) + multiset(b) + multiset(added))[c];
    }
    assert forall i :: 0 <= i < |l| ==> l[i] in l;
    assert forall i :: 0 <= i < |m| ==> m[i] in m;
    assert forall i :: 0 <= i < |a| ==> a[i] in a;
    assert forall i :: 0 <= i < |b| ==> b[i] in b;
    assert forall i :: 0 <= i < |added| ==> added[i] in added;
  }

  ghost predicate Outside(c: Chunk, sentinel: Chunk, free: seq<Chunk>, ring: seq<Chunk>) {
    c != sentinel && c !in free && c !in ring
  }

  /** Contexts that share the free list but no chunk. */
  ghost predicate Neighbour(ctx: Context, other: Context)
    reads ctx`ring, other`ring
  {
    other != ctx && other.pool == ctx.pool && Disjoint(other.ring, ctx.ring)
  }

  /** An operation of one context leaves its neighbours sound, with the chunks and the output they had. */
  method PerformBeside(ctx: Context, op: Op, ghost others: seq<Context>) returns (ghost added: seq<Chunk>)
    requires ctx.Valid() && (op.Unref? ==> ctx.refcount > 0)
    requires forall j :: 0 <= j < |others| ==> others[j].Valid() && Neighbour(ctx, others[j])
    modifies ctx, ctx.pool, ctx.pool.sentinel, ctx.pool.free, ctx.ring
    ensures ctx.Valid() && ctx.pool.Valid() && fresh(added) && ctx.refcount == References(old(ctx.refcount), op)
    ensures !(op.Unref? && ctx.refcount == 0) ==> ctx.Output() == old(ctx.Output()) + Effect(op)
    ensures multiset(ctx.ring) + multiset(ctx.pool.free)
      == multiset(old(ctx.ring)) + multiset(old(ctx.pool.free)) + multiset(added)
    ensures forall j :: 0 <= j < |others| ==>
      && others[j].Valid() && Neighbour(ctx, others[j])
      && others[j].ring == old(others[j].ring) && others[j].Output() == old(others[j].Output())
  {
    hide Ring, Context.Ringed, Context.Buffered, Context.Output, Pool.Valid, Effect;
    ghost var pool, ring, free := ctx.pool, ctx.ring, ctx.pool.free;
    assert forall j, k :: 0 <= j < |others| && 0 <= k < |others[j].ring| ==>
      Outside(others[j].ring[k], pool.sentinel, free, ring);
    added := ctx.Perform(op);
    assert forall j :: 0 <= j < |others| ==> others[j].Output() == old(others[j].Output());
    assert forall j :: 0 <= j < |others| ==>
      others[j].ring == old(others[j].ring) && others[j].Ringed() && others[j].Buffered();
    Members(ctx.ring, pool.free, ring, free, added);
    forall j | 0 <= j < |others| ensures others[j].Apart() && Neighbour(ctx, others[j]) {
      assert forall k :: 0 <= k < |others[j].ring| ==> Outside(others[j].ring[k], pool.sentinel, free, ring);
    }
  }

  /** All contexts over one free list. */
  class Server {
    const pool: Pool
    var contexts: seq<Context>
    /** Every chunk ever allocated. */
    ghost var chunks: set<Chunk>

    ghost predicate Separate()
      reads this, contexts`ring
    {
      forall i, j :: 0 <= i < |contexts| && 0 <= j < |contexts| && i != j ==>
        contexts[i] != contexts[j] && Disjoint(contexts[i].ring, contexts[j].ring)
    }

    ghost function Rings(): (r: seq<seq<Chunk>>)
      reads this, contexts
      ensures |r| == |contexts| && forall j :: 0 <= j < |r| ==> r[j] == contexts[j].ring
    {
      seq(|contexts|, j requires 0 <= j < |contexts| reads this, contexts => contexts[j].ring)
    }

    ghost predicate Holds(c: Chunk)
      reads this, contexts`ring, pool
    {
      c in pool.free || exists i :: 0 <= i < |contexts| && c in contexts[i].ring
    }

    /** Every chunk is in exactly one ring, the free list's or one context's, and every ring is well formed. */
    ghost predicate Valid()
      reads this, contexts, pool, pool.sentinel, pool.free, chunks
    {
      && pool.Valid() && Separate() && (forall c :: c in chunks ==> Holds(c))
      && (forall k :: 0 <= k < |pool.free| ==> pool.free[k] in chunks)
      && forall i :: 0 <= i < |contexts| ==>
           && contexts[i].pool == pool
           && (forall k :: 0 <= k < |contexts[i].ring| ==> contexts[i].ring[k] in chunks)
           && contexts[i].Valid()
    }

    constructor ()
      ensures Valid() && contexts == [] && fresh(pool) && fresh(pool.sentinel)
    {
      pool := new Pool();
      contexts, chunks := [], {};
    }

    /** A new connection. */
    method Accept()
      requires Valid()
      modifies this`contexts
      ensures Valid() && |contexts| == |old(contexts)| + 1 && contexts[..|old(contexts)|] == old(contexts)
      ensures contexts[|old(contexts)|].Output() == [] && contexts[|old(contexts)|].refcount == 1
    {
      hide Context.Valid, Context.Output, Pool.Valid, Holds, Disjoint;
      ghost var rings := Rings();
      HeldBefore(rings);
      var c := new Context(pool);
      contexts := contexts + [c];
      assert forall j :: 0 <= j < |rings| ==> contexts[j].ring == rings[j];
      HeldWith(rings);
      DisjointEmpty(rings);
    }

    lemma HeldWith(rings: seq<seq<Chunk>>)
      requires |rings| <= |contexts| && forall j :: 0 <= j < |rings| ==> contexts[j].ring == rings[j]
      requires forall c :: c in chunks ==> c in pool.free || exists j :: 0 <= j < |rings| && c in rings[j]
      ensures forall c :: c in chunks ==> Holds(c)
    {
      forall c | c in chunks ensures Holds(c) {
        if c !in pool.free {
          var j :| 0 <= j < |rings| && c in rings[j];
          assert c in contexts[j].ring;
        }
      }
    }

    lemma SeparateAgain(i: nat, rings: seq<seq<Chunk>>)
      requires i < |contexts| == |rings|
      requires forall j, k :: 0 <= j < |contexts| && 0 <= k < |contexts| && j != k ==>
        contexts[j] != contexts[k] && Disjoint(rings[j], rings[k])
      requires forall j :: 0 <= j < |contexts| && j != i ==>
        contexts[j].ring == rings[j] && Disjoint(contexts[j].ring, contexts[i].ring)
      ensures Separate()
    {
      hide Disjoint;
      forall j | 0 <= j < |contexts| && j != i ensures Disjoint(contexts[i].ring, contexts[j].ring) {
        DisjointBack(contexts[j].ring, contexts[i].ring);
      }
    }

    lemma HeldAgain(i: nat, rings: seq<seq<Chunk>>, free: seq<Chunk>, added: seq<Chunk>, before: set<Chunk>)
      requires i < |contexts| == |rings|
      requires forall j :: 0 <= j < |contexts| && j != i ==> contexts[j].ring == rings[j]
      requires var l, m := contexts[i].ring, pool.free;
        Among(rings[i], l, m, []) && Among(free, l, m, []) && Among(added, l, m, [])
      requires forall c :: c in before ==> c in free || exists j :: 0 <= j < |rings| && c in rings[j]
      requires chunks == before + set c | c in added
      ensures forall c :: c in chunks ==> Holds(c)
    {
      forall c | c in chunks ensures Holds(c) {
        Found(c, rings[i], contexts[i].ring, pool.free);
        Found(c, free, contexts[i].ring, pool.free);
        Found(c, added, contexts[i].ring, pool.free);
        if c !in added && c !in free && c !in rings[i] {
          var j :| 0 <= j < |rings| && c in rings[j];
          assert c in contexts[j].ring;
        }
      }
    }

    lemma HeldBefore(rings: seq<seq<Chunk>>)
      requires Valid() && |rings| == |contexts| && forall j :: 0 <= j < |rings| ==> rings[j] == contexts[j].ring
      ensures forall c :: c in chunks ==> c in pool.free || exists j :: 0 <= j < |rings| && c in rings[j]
      ensures forall j, k :: 0 <= j < |contexts| && 0 <= k < |contexts| && j != k ==>
        contexts[j] != contexts[k] && Disjoint(rings[j], rings[k])
    {
      hide Context.Valid, Pool.Valid, Disjoint;
      forall c | c in chunks ensures c in pool.free || exists j :: 0 <= j < |rings| && c in rings[j] {
        assert Holds(c);
        if c !in pool.free {
          var j :| 0 <= j < |contexts| && c in contexts[j].ring;
          assert c in rings[j];
        }
      }
    }

    /** The operation itself, with what it means for every other context. */
    method DoBeside(i: nat, op: Op) returns (ghost added: seq<Chunk>)
      requires Valid() && i < |contexts| && (op.Unref? ==> contexts[i].refcount > 0)
      modifies contexts[i], pool, pool.sentinel, pool.free, contexts[i].ring
      ensures contexts[i].Valid() && pool.Valid() && fresh(added)
      ensures contexts[i].refcount == References(old(contexts[i].refcount), op)
      ensures !(op.Unref? && contexts[i].refcount == 0) ==>
        contexts[i].Output() == old(contexts[i].Output()) + Effect(op)
      ensures multiset(contexts[i].ring) + multiset(pool.free)
        == multiset(old(contexts[i].ring)) + multiset(old(pool.free)) + multiset(added)
      ensures forall j :: 0 <= j < |contexts| && j != i ==>
        && contexts[j].Valid() && contexts[j].Output() == old(contexts[j].Output())
        && contexts[j].ring == old(contexts[j].ring) && Disjoint(contexts[j].ring, contexts[i].ring)
    {
      hide Context.Valid, Context.Output, Pool.Valid, Effect, Disjoint, Holds;
      var ctx := contexts[i];
      ghost var others := contexts[..i] + contexts[i + 1..];
      assert forall j :: 0 <= j < |others| ==> others[j] == contexts[if j < i then j else j + 1];
      assert forall j :: 0 <= j < |others| ==> others[j].Valid() && Neighbour(ctx, others[j]);
      added := PerformBeside(ctx, op, others);
      assert forall j :: 0 <= j < |contexts| && j != i ==> contexts[j] == others[if j < i then j else j - 1];
    }

    /** An operation of context i is exact for it, leaves every other context alone, and loses no chunk. */
    method Do(i: nat, op: Op)
      requires Valid() && i < |contexts| && (op.Unref? ==> contexts[i].refcount > 0)
      modifies this`chunks, contexts[i], pool, pool.sentinel, pool.free, contexts[i].ring
      ensures Valid() && chunks >= old(chunks) && contexts[i].refcount == References(old(contexts[i].refcount), op)
      ensures !(op.Unref? && contexts[i].refcount == 0) ==>
        contexts[i].Output() == old(contexts[i].Output()) + Effect(op)
      ensures forall j :: 0 <= j < |contexts| && j != i ==> contexts[j].Output() == old(contexts[j].Output())
    {
      hide Context.Valid, Context.Output, Pool.Valid, Effect, Disjoint, Holds, Among, Separate;
      ghost var rings, free, before := Rings(), pool.free, chunks;
      HeldBefore(rings);
      ghost var added := DoBeside(i, op);
      chunks := chunks + set c | c in added;
      Members(contexts[i].ring, pool.free, rings[i], free, added);
      Reassembled(i, rings, free, added, before);
    }

    /** The parts of the invariant, put together again from the rings before the operation. */
    lemma Reassembled(i: nat, rings: seq<seq<Chunk>>, free: seq<Chunk>, added: seq<Chunk>, before: set<Chunk>)
      requires i < |contexts| == |rings| && pool.Valid() && chunks == before + set c | c in added
      requires forall j :: 0 <= j < |contexts| ==> contexts[j].pool == pool && contexts[j].Valid()
      requires forall j :: 0 <= j < |contexts| && j != i ==> contexts[j].ring == rings[j]
      requires var l, m := contexts[i].ring, pool.free;
        Among(l, rings[i], free, added) && Among(m, rings[i], free, added)
      requires var l, m := contexts[i].ring, pool.free;
        Among(rings[i], l, m, []) && Among(free, l, m, []) && Among(added, l, m, [])
      requires forall j, k :: 0 <= j < |contexts| && 0 <= k < |contexts| && j != k ==>
        contexts[j] != contexts[k] && Disjoint(rings[j], rings[k])
      requires forall j :: 0 <= j < |contexts| && j != i ==> Disjoint(rings[j], contexts[i].ring)
      requires forall c :: c in before ==> c in free || exists j :: 0 <= j < |rings| && c in rings[j]
      requires forall j, k :: 0 <= j < |rings| && 0 <= k < |rings[j]| ==> rings[j][k] in before
      requires forall k :: 0 <= k < |free| ==> free[k] in before
      ensures Valid()
    {
      hide Context.Valid, Pool.Valid, Disjoint, Among, Separate, Holds;
      SeparateAgain(i, rings);
      HeldAgain(i, rings, free, added, before);
      AmongChunks(contexts[i].ring, rings[i], free, added, chunks);
      AmongChunks(pool.free, rings[i], free, added, chunks);
    }
  }

  lemma AmongChunks(l: seq<Chunk>, a: seq<Chunk>, b: seq<Chunk>, added: seq<Chunk>, chunks: set<Chunk>)
    requires Among(l, a, b, added)
    requires forall k :: 0 <= k < |a| ==> a[k] in chunks
    requires forall k :: 0 <= k < |b| ==> b[k] in chunks
    requires forall c :: c in added ==> c in chunks
    ensures forall k :: 0 <= k < |l| ==> l[k] in chunks
  {
  }

  lemma DisjointEmpty(rings: seq<seq<Chunk>>)
    ensures forall j :: 0 <= j < |rings| ==> Disjoint(rings[j], []) && Disjoint([], rings[j])
  {
  }

  lemma DisjointBack(a: seq<Chunk>, b: seq<Chunk>)
    requires Disjoint(a, b)
    ensures Disjoint(b, a)
  {
  }

  lemma Found(c: Chunk, l: seq<Chunk>, a: seq<Chunk>, b: seq<Chunk>)
    requires Among(l, a, b, [])
    ensures c in l ==> c in a || c in b
  {
  }
}
