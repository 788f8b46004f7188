/** The cipher state and the unbiased modulo of arc4random.c, in wrapping machine arithmetic. */
module Arc4Random {
  import opened Bytes
  import opened Chains

  // ---- The cipher state ----

  ghost predicate Permutation(s: seq<byte>) {
    |s| == 256 && forall i, j :: 0 <= i < j < |s| ==> s[i] != s[j]
  }

  lemma SwapKeeps(s: seq<byte>, i: byte, j: byte)
    requires Permutation(s)
    ensures Permutation(s[i := s[j]][j := s[i]])
  {
    var r := s[i := s[j]][j := s[i]];
    forall a, b | 0 <= a < b < |r| ensures r[a] != r[b] {
      assert r[a] == s[if a == i then j else if a == j then i else a];
      assert r[b] == s[if b == i then j else if b == j then i else b];
    }
  }

  datatype State = State(i: byte, j: byte, s: seq<byte>)

  /** One turn of the cipher on a key byte: both indices move, and the entries they reach change places. */
  ghost predicate Mixes(a: State, d: byte, b: State) {
    && |a.s| == |b.s| == 256
    && b.i == (a.i + 1) % 256 && b.j == (a.j + a.s[b.i] + d) % 256
    && b.s[b.i] == a.s[b.j] && b.s[b.j] == a.s[b.i]
    && forall k :: 0 <= k < 256 && k != b.i && k != b.j ==> b.s[k] == a.s[k]
  }

  /** A state for every byte, each a turn behind the one before. */
  ghost predicate MixPath(path: seq<State>, bytes: seq<byte>) {
    && |path| == |bytes| + 1
    && forall n :: 0 <= n < |bytes| ==> Mixes(path[n], bytes[n], path[n + 1])
  }

  /** The key taken round until there is a byte for every entry. */
  function Round(dat: seq<byte>): (bytes: seq<byte>)
    requires |dat| > 0
    ensures |bytes| == 256 && forall n :: 0 <= n < 256 ==> bytes[n] == dat[n % |dat|]
  {
    seq(256, n requires 0 <= n < 256 => dat[n % |dat|])
  }

  lemma StandingStill(a: State, bytes: seq<byte>)
    requires bytes == []
    ensures MixPath([a], bytes)
  {
  }

  lemma {:induction false} IndexMoves(path: seq<State>, bytes: seq<byte>, n: nat)
    requires MixPath(path, bytes) && n <= |bytes|
    ensures path[n].i == (path[0].i + n) % 256
  {
    if n > 0 {
      IndexMoves(path, bytes, n - 1);
      assert Mixes(path[n - 1], bytes[n - 1], path[n]);
    }
  }

  lemma FullRound(path: seq<State>, bytes: seq<byte>)
    requires MixPath(path, bytes) && |bytes| == 256
    ensures |path| == 257 && path[256].i == path[0].i
  {
    IndexMoves(path, bytes, 256);
  }

  lemma OneMore(path: seq<State>, bytes: seq<byte>, n: nat, b: State)
    requires n < |bytes| && MixPath(path, bytes[..n]) && |path| == n + 1 && Mixes(path[n], bytes[n], b)
    ensures MixPath(path + [b], bytes[..n + 1])
  {
  }

  /** State and byte determine the next state. */
  lemma MixForth(a: State, d: byte, b: State, c: State)
    requires Mixes(a, d, b) && Mixes(a, d, c)
    ensures b == c
  {
  }

  /** The next state determines the entries and the index before it, and, with the other index, the key byte. */
  lemma MixBack(a: State, d: byte, a2: State, d2: byte, b: State)
    requires Mixes(a, d, b) && Mixes(a2, d2, b)
    ensures a.i == a2.i && a.s == a2.s
    ensures a.j == a2.j <==> d == d2
  {
    assert forall k :: 0 <= k < 256 ==> a.s[k] == a2.s[k];
  }

  /** From the same state another byte leads to another permutation. */
  lemma ByteMatters(a: State, d: byte, b: State, d2: byte, c: State)
    requires Mixes(a, d, b) && Mixes(a, d2, c) && Permutation(a.s) && d != d2
    ensures b.s != c.s
  {
    assert b.j != c.j;
    assert a.s[b.j] != a.s[c.j];
  }

  /** Turns on the same bytes never lead two states together. */
  lemma {:induction false} PathBack(path: seq<State>, path2: seq<State>, bytes: seq<byte>)
    requires MixPath(path, bytes) && MixPath(path2, bytes) && path[|bytes|] == path2[|bytes|]
    ensures path[0] == path2[0]
  {
    var n := |bytes| - 1;
    if n >= 0 {
      MixBack(path[n], bytes[n], path2[n], bytes[n], path[n + 1]);
      PathBack(path[..n + 1], path2[..n + 1], bytes[..n]);
    }
  }

  lemma {:induction false} PathForth(path: seq<State>, path2: seq<State>, bytes: seq<byte>)
    requires MixPath(path, bytes) && MixPath(path2, bytes) && path[0] == path2[0]
    ensures path == path2
  {
    if |bytes| > 0 {
      MixForth(path[0], bytes[0], path[1], path2[1]);
      PathForth(path[1..], path2[1..], bytes[1..]);
      assert path == [path[0]] + path[1..] && path2 == [path2[0]] + path2[1..];
    }
  }

  /** Bytes that differ in one place lead from the same state to different ones. */
  lemma OneByteMatters(path: seq<State>, bytes: seq<byte>, path2: seq<State>, bytes2: seq<byte>, n: nat)
    requires MixPath(path, bytes) && MixPath(path2, bytes2) && path[0] == path2[0]
    requires n < |bytes| == |bytes2| && bytes2 == bytes[n := bytes2[n]] && bytes2[n] != bytes[n]
    ensures path[|bytes|] != path2[|bytes|]
  {
    hide Mixes;
    assert bytes2[..n] == bytes[..n] && bytes2[n + 1..] == bytes[n + 1..];
    PathForth(path[..n + 1], path2[..n + 1], bytes[..n]);
    assert path[n] == path[..n + 1][n] == path2[n];
    if path[n + 1] == path2[n + 1] {
      MixBack(path[n], bytes[n], path2[n], bytes2[n], path[n + 1]);
    } else if path[|bytes|] == path2[|bytes|] {
      PathBack(path[n + 1..], path2[n + 1..], bytes[n + 1..]);
    }
  }

  /** `struct arc4_stream` */
  class Stream {
    var i: byte
    var j: byte
    const s: array<byte>

    ghost predicate Valid()
      reads s
    {
      s.Length == 256 && Permutation(s[..])
    }

    /** `arc4_init` */
    constructor ()
      ensures Valid() && fresh(s) && i == 0 && j == 0
      ensures forall n :: 0 <= n < 256 ==> s[n] == n
    {
      s := new byte[256];
      i, j := 0, 0;
      new;
      var n := 0;
      while n < 256
        modifies s
        invariant 0 <= n <= 256 && forall k :: 0 <= k < n ==> s[k] == k
      {
        s[n] := n;
        n := n + 1;
      }
      assert forall k :: 0 <= k < 256 ==> s[..][k] == k;
    }

    /** The exchange of two entries that every step makes. */
    method Swap(a: byte, b: byte)
      requires Valid()
      modifies s
      ensures Valid() && s[..] == old(s[..])[a := old(s[b])][b := old(s[a])]
    {
      SwapKeeps(s[..], a, b);
      var si := s[a];
      s[a] := s[b];
      s[b] := si;
    }

    ghost function Now(): State
      reads this, s
    {
      State(i, j, s[..])
    }

    /** One turn of the loop of `arc4_addrandom`. */
    method MixIn(d: byte)
      requires Valid()
      modifies this, s
      ensures Valid() && i == (old(i) + 1) % 256 && j == (old(j) + old(s[..])[i] + d) % 256
      ensures s[..] == old(s[..])[i := old(s[..])[j]][j := old(s[..])[i]]
      ensures Mixes(old(Now()), d, Now())
    {
      hide Permutation;
      i := (i + 1) % 256;
      j := (j + s[i] + d) % 256;
      Swap(i, j);
    }

    /** `arc4_addrandom`: 256 turns over the key taken round, from one place before the index, with no value lost. */
    method AddRandom(dat: seq<byte>) returns (ghost path: seq<State>)
      requires Valid() && |dat| > 0
      modifies this, s
      ensures Valid() && i == j == (old(i) - 1) % 256
      ensures MixPath(path, Round(dat))
      ensures path[0] == State((old(i) - 1) % 256, old(j), old(s[..])) && path[256].i == i && path[256].s == s[..]
    {
      hide Valid, Mixes, MixPath, Round;
      i := (i - 1) % 256;
      ghost var start, bytes := Now(), Round(dat);
      path := [start];
      StandingStill(start, bytes[..0]);
      var n := 0;
      while n < 256
        invariant 0 <= n <= 256 && Valid() && |path| == n + 1
        invariant path[0] == start && path[n] == Now() && MixPath(path, bytes[..n])
      {
        MixIn(dat[n % |dat|]);
        OneMore(path, bytes, n, Now());
        path := path + [Now()];
        n := n + 1;
      }
      assert bytes[..256] == bytes;
      FullRound(path, bytes);
      j := i;
    }

    /** `arc4_getbyte` */
    method GetByte() returns (r: byte)
      requires Valid()
      modifies this, s
      ensures Valid() && i == (old(i) + 1) % 256 && j == (old(j) + old(s[..])[i]) % 256
      ensures s[..] == old(s[..])[i := old(s[..])[j]][j := old(s[..])[i]]
      ensures r == s[(s[i] as int + s[j]) % 256]
    {
      i := (i + 1) % 256;
      var si := s[i];
      j := (j + si) % 256;
      var sj := s[j];
      Swap(i, j);
      return s[(si as int + sj) % 256];
    }
  }

  // ---- arc4random_uniform ----

  const WORD: nat := 0x1_0000_0000

  type word = x: int | 0 <= x < 0x1_0000_0000

  /** 32-bit wrap-around. */
  function Wrap(x: int): word { x % 0x1_0000_0000 }

  function Complement(x: word): word { 0xffff_ffff - x }

  /** The computation of `min` without 64-bit arithmetic. */
  function Min(upperBound: word): word
    requires upperBound > 0
  {
    if upperBound > 0x8000_0000 then Wrap(1 + Complement(upperBound))
    else Wrap(Wrap(0xffff_ffff - Wrap(upperBound * 2)) + 1) % upperBound
  }

  lemma ModUnique(x: nat, d: nat, q: nat, r: nat)
    requires d > 0 && r < d && x == q * d + r
    ensures x % d == r && x / d == q
  {
    Chains.ModUnique(x, d, q, r);
    assert d * (x / d) == d * q;
  }

  lemma WrapSmall(x: nat)
    ensures x < WORD ==> Wrap(x) == x
    ensures Wrap(WORD) == 0
  {
  }

  /** The wrapping arithmetic gives the remainder of 2^32. */
  lemma MinIsRemainder(upperBound: word)
    requires upperBound >= 2
    ensures Min(upperBound) == WORD % upperBound
  {
    hide Wrap;
    WrapSmall(upperBound * 2);
    if upperBound > 0x8000_0000 {
      WrapSmall(WORD - upperBound);
      ModUnique(WORD, upperBound, 1, WORD - upperBound);
    } else if upperBound == 0x8000_0000 {
      WrapSmall(WORD - 1);
      ModUnique(WORD, upperBound, 2, 0);
      ModUnique(0, upperBound, 0, 0);
    } else {
      WrapSmall(WORD - 1 - upperBound * 2);
      WrapSmall(WORD - upperBound * 2);
      TwiceLess(WORD, upperBound);
    }
  }

  lemma TwiceLess(n: nat, d: nat)
    requires d > 0 && 2 * d <= n
    ensures (n - 2 * d) % d == n % d
  {
    var q, r := (n - 2 * d) / d, (n - 2 * d) % d;
    assert n - 2 * d == q * d + r;
    NextBlock(d, q);
    NextBlock(d, q + 1);
    ModUnique(n, d, q + 2, r);
  }

  /** More than half of all words are accepted. */
  lemma MostAreAccepted(upperBound: word)
    requires upperBound >= 2
    ensures 2 * (WORD - Min(upperBound)) > WORD
  {
    MinIsRemainder(upperBound);
    var q, r := WORD / upperBound, WORD % upperBound;
    assert WORD == q * upperBound + r && r < upperBound;
    assert q * upperBound >= upperBound;
  }

  /** How many of the numbers from lo to before hi leave this remainder. */
  ghost function Preimages(d: nat, residue: nat, lo: nat, hi: nat): nat
    requires d > 0 && lo <= hi
    decreases hi - lo
  {
    if lo == hi then 0 else (if lo % d == residue then 1 else 0) + Preimages(d, residue, lo + 1, hi)
  }

  lemma {:induction false} PreimagesSplit(d: nat, residue: nat, lo: nat, mid: nat, hi: nat)
    requires d > 0 && lo <= mid <= hi
    ensures Preimages(d, residue, lo, hi) == Preimages(d, residue, lo, mid) + Preimages(d, residue, mid, hi)
    decreases mid - lo
  {
    if lo < mid { PreimagesSplit(d, residue, lo + 1, mid, hi); }
  }

  /** The rest of one block of d numbers, from offset k on, has the remainders from k on. */
  lemma {:induction false} RestOfBlock(d: nat, residue: nat, q: nat, k: nat)
    requires d > 0 && residue < d && k <= d
    ensures Preimages(d, residue, q * d + k, q * d + d) == if residue >= k then 1 else 0
    decreases d - k
  {
    if k < d {
      ModUnique(q * d + k, d, q, k);
      RestOfBlock(d, residue, q, k + 1);
    }
  }

  lemma {:induction false} Blocks(d: nat, residue: nat, a: nat, b: nat)
    requires d > 0 && residue < d && a <= b
    ensures a * d <= b * d && Preimages(d, residue, a * d, b * d) == b - a
    decreases b - a
  {
    if a < b {
      Blocks(d, residue, a + 1, b);
      NextBlock(d, a);
      RestOfBlock(d, residue, a, 0);
      PreimagesSplit(d, residue, a * d, a * d + d, b * d);
    }
  }

  lemma NextBlock(d: nat, q: nat)
    ensures (q + 1) * d == q * d + d
  {
  }

  /** Shifting the interval by r turns the remainder by r. */
  lemma {:induction false} Shifted(d: nat, residue: nat, r: nat, lo: nat, hi: nat)
    requires d > 0 && residue < d && r < d && lo <= hi
    ensures Preimages(d, (residue + r) % d, lo + r, hi + r) == Preimages(d, residue, lo, hi)
    decreases hi - lo
  {
    if lo < hi {
      Shifted(d, residue, r, lo + 1, hi);
      SameTurn(d, residue, r, lo);
    }
  }

  lemma SameTurn(d: nat, residue: nat, r: nat, x: nat)
    requires d > 0 && residue < d && r < d
    ensures (x + r) % d == (residue + r) % d <==> x % d == residue
  {
    var q, m := x / d, x % d;
    assert x == q * d + m;
    Turn(d, q, m, r);
    Turn(d, 0, residue, r);
  }

  lemma Turn(d: nat, q: nat, m: nat, r: nat)
    requires m < d && r < d
    ensures (q * d + m + r) % d == if m + r < d then m + r else m + r - d
  {
    if m + r < d { ModUnique(q * d + m + r, d, q, m + r); } else {
      NextBlock(d, q);
      ModUnique(q * d + m + r, d, q + 1, m + r - d);
    }
  }

  /** Every result has the same number of accepted words. */
  lemma NoModuloBias(upperBound: word, result: nat)
    requires upperBound >= 2 && result < upperBound
    ensures Preimages(upperBound, result, Min(upperBound), WORD) == (WORD - Min(upperBound)) / upperBound
    ensures (WORD - Min(upperBound)) % upperBound == 0
  {
    MinIsRemainder(upperBound);
    FromRemainder(upperBound, result, WORD);
  }

  lemma FromRemainder(d: nat, result: nat, n: nat)
    requires d > 0 && result < d
    ensures n % d <= n && Preimages(d, result, n % d, n) == (n - n % d) / d && (n - n % d) % d == 0
  {
    var q, r := n / d, n % d;
    assert n == q * d + r;
    var residue := if result >= r then result - r else result + d - r;
    Blocks(d, residue, 0, q);
    Shifted(d, residue, r, 0, q * d);
    Turn(d, 0, residue, r);
    ModUnique(q * d, d, q, 0);
  }

  /** `arc4random_uniform`, on the words that the generator goes on to give; None if all of them are rejected. */
  method Uniform(upperBound: word, draws: seq<word>) returns (r: Option<word>)
    ensures upperBound < 2 ==> r == Some(0)
    ensures upperBound >= 2 && r.None? ==> forall k :: 0 <= k < |draws| ==> draws[k] < WORD % upperBound
    ensures upperBound >= 2 && r.Some? ==> r.value < upperBound && exists k ::
      0 <= k < |draws| && draws[k] >= WORD % upperBound && r.value == draws[k] % upperBound
      && forall m :: 0 <= m < k ==> draws[m] < WORD % upperBound
  {
    if upperBound < 2 { return Some(0); }
    var min := Min(upperBound);
    MinIsRemainder(upperBound);
    var k := 0;
    while k < |draws|
      invariant 0 <= k <= |draws| && forall m :: 0 <= m < k ==> draws[m] < min
    {
      if draws[k] >= min { return Some(draws[k] % upperBound); }
      k := k + 1;
    }
    return None;
  }
}
