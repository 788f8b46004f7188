/** Address ranges of ip.c: membership, normalisation, equality and hash, all tied to
    one reference notion, agreement of the leading bits. */
module Ip {
  import opened Chains

  datatype Version = Dummy | V4 | V6

  /** `struct ip`: V4 addresses use the first four of the sixteen bytes. */
  datatype Address = Address(version: Version, bytes: seq<bv8>)

  datatype Range = Range(ip: Address, range: int)

  /** Bytes of an address of this version that normalisation touches. */
  function Width(v: Version): nat {
    match v case Dummy => 0 case V4 => 4 case V6 => 16
  }

  ghost predicate ValidAddress(a: Address) { |a.bytes| == 16 }

  /** A real address with a prefix length that fits its version. */
  ghost predicate ValidRange(r: Range) {
    ValidAddress(r.ip) && r.ip.version != Dummy && 0 <= r.range <= 8 * Width(r.ip.version)
  }

  // ---- Bits ----

  /** The value of bit t of a byte, the most significant first. */
  function Weight(t: nat): bv8
    requires t < 8
  {
    if t == 0 then 0x80 else if t == 1 then 0x40 else if t == 2 then 0x20 else if t == 3 then 0x10
    else if t == 4 then 0x08 else if t == 5 then 0x04 else if t == 6 then 0x02 else 0x01
  }

  predicate Bit(x: bv8, t: nat)
    requires t < 8
  {
    Masked(x, Weight(t)) != 0
  }

  function Masked(x: bv8, m: bv8): bv8 { x & m }

  /** `0xFF << (8 - s)` in an unsigned char. */
  function Keep(s: nat): bv8
    requires s <= 8
  {
    0xFF << (8 - s)
  }

  /** The reference notion: the first n bits of the two byte strings agree. */
  ghost predicate SamePrefix(a: seq<bv8>, b: seq<bv8>, n: nat) {
    8 * |a| >= n && 8 * |b| >= n &&
    forall t: nat :: t < n ==> Bit(a[t / 8], t % 8) == Bit(b[t / 8], t % 8)
  }

  ghost predicate SameTop(x: bv8, y: bv8, s: nat) {
    s <= 8 && forall t: nat :: t < s ==> Bit(x, t) == Bit(y, t)
  }

  /** A byte with all but its top s bits cleared. */
  function Top(x: bv8, s: nat): bv8
    requires s <= 8
  {
    Masked(x, Keep(s))
  }

  lemma KeepValues()
    ensures Keep(0) == 0x00 && Keep(1) == 0x80 && Keep(2) == 0xC0 && Keep(3) == 0xE0 && Keep(4) == 0xF0
    ensures Keep(5) == 0xF8 && Keep(6) == 0xFC && Keep(7) == 0xFE && Keep(8) == 0xFF
  {
  }

  lemma TopEnds(x: bv8)
    ensures Top(x, 0) == 0
    ensures Top(x, 8) == x
  {
  }

  /** A mask and the next bit to join it. */
  predicate Neighbours(m: bv8, w: bv8) {
    || (m == 0x00 && w == 0x80) || (m == 0x80 && w == 0x40) || (m == 0xC0 && w == 0x20) || (m == 0xE0 && w == 0x10)
    || (m == 0xF0 && w == 0x08) || (m == 0xF8 && w == 0x04) || (m == 0xFC && w == 0x02) || (m == 0xFE && w == 0x01)
  }

  lemma KeepGrows(s: nat)
    requires s < 8
    ensures Neighbours(Keep(s), Weight(s)) && Keep(s + 1) == Joined(Keep(s), Weight(s))
  {
    KeepValues();
  }

  function Joined(m: bv8, w: bv8): bv8 { m | w }

  /** A mask and the next bit compare separately. */
  lemma MasksApart(x: bv8, y: bv8, m: bv8, w: bv8)
    requires Neighbours(m, w)
    ensures Masked(x, Joined(m, w)) == Masked(y, Joined(m, w)) <==>
      Masked(x, m) == Masked(y, m) && Masked(x, w) == Masked(y, w)
    ensures Masked(x, w) == Masked(y, w) <==> (Masked(x, w) != 0) == (Masked(y, w) != 0)
  {
  }

  /** One more kept bit compares one more bit. */
  lemma TopStep(x: bv8, y: bv8, s: nat)
    requires s < 8
    ensures Top(x, s + 1) == Top(y, s + 1) <==> Top(x, s) == Top(y, s) && Bit(x, s) == Bit(y, s)
  {
    hide Keep, Weight, Neighbours, Masked, Joined;
    KeepGrows(s);
    MasksApart(x, y, Keep(s), Weight(s));
  }

  /** Masking keeps exactly the top s bits. */
  lemma {:induction false} MaskedByte(x: bv8, y: bv8, s: nat)
    requires s <= 8
    ensures Top(x, s) == Top(y, s) <==> SameTop(x, y, s)
  {
    hide Bit, Top;
    if s == 0 {
      TopEnds(x);
      TopEnds(y);
    } else {
      MaskedByte(x, y, s - 1);
      TopStep(x, y, s - 1);
      assert SameTop(x, y, s) <==> SameTop(x, y, s - 1) && Bit(x, s - 1) == Bit(y, s - 1);
    }
  }

  /** How many leading bits of byte i a prefix of n bits covers. */
  function Covered(n: nat, i: nat): (s: nat)
    ensures s <= 8
  {
    if 8 * i + 8 <= n then 8 else if 8 * i >= n then 0 else n - 8 * i
  }

  /** Prefixes agree exactly when every byte agrees on its covered bits. */
  lemma PrefixByBytes(a: seq<bv8>, b: seq<bv8>, n: nat, w: nat)
    requires n <= 8 * w && w <= |a| && w <= |b|
    ensures SamePrefix(a, b, n) <==> forall i: nat :: i < w ==> SameTop(a[i], b[i], Covered(n, i))
  {
    if SamePrefix(a, b, n) {
      forall i: nat | i < w ensures SameTop(a[i], b[i], Covered(n, i)) {
        forall t: nat | t < Covered(n, i) ensures Bit(a[i], t) == Bit(b[i], t) {
          var u := 8 * i + t;
          assert u / 8 == i && u % 8 == t;
        }
      }
    }
    if forall i: nat :: i < w ==> SameTop(a[i], b[i], Covered(n, i)) {
      forall t: nat | t < n ensures Bit(a[t / 8], t % 8) == Bit(b[t / 8], t % 8) {
        assert SameTop(a[t / 8], b[t / 8], Covered(n, t / 8));
      }
    }
  }

  // ---- ip_in_range ----

  /** The byte at i; one past the sixteenth is read under an all-zero mask only. */
  function ByteAt(bytes: seq<bv8>, i: nat): bv8 {
    if i < |bytes| then bytes[i] else 0
  }

  /** The masks of `ip_in_range` and `normalize_ip_range` at byte i of a prefix of n bits. */
  function MaskAt(n: nat, i: nat): bv8
    requires 8 * i <= n
  {
    if i * 8 + 8 < n then 0xFF else Keep(n - i * 8)
  }

  lemma MaskIsTop(x: bv8, n: nat, i: nat)
    requires 8 * i <= n
    ensures x & MaskAt(n, i) == Top(x, Covered(n, i))
  {
    KeepValues();
  }

  /** `ip_in_range` */
  method IpInRange(range: Range, ip: Address) returns (r: bool)
    requires ValidAddress(ip) && ValidRange(range)
    ensures r <==> InRange(range, ip)
  {
    hide SameTop, SamePrefix, Top, MaskAt;
    if ip.version != range.ip.version { return false; }
    var n := range.range;
    PrefixByBytes(ip.bytes, range.ip.bytes, n, 16);
    for i := 0 to n / 8 + 1
      invariant forall j: nat :: j < i && j < 16 ==> SameTop(ip.bytes[j], range.ip.bytes[j], Covered(n, j))
    {
      var a, b := ByteAt(ip.bytes, i), ByteAt(range.ip.bytes, i);
      MaskIsTop(a, n, i);
      MaskIsTop(b, n, i);
      MaskedByte(a, b, Covered(n, i));
      if a & MaskAt(n, i) != b & MaskAt(n, i) { return false; }
    }
    forall j: nat | j < 16 ensures SameTop(ip.bytes[j], range.ip.bytes[j], Covered(n, j)) {
      if j > n / 8 { NothingCovered(ip.bytes[j], range.ip.bytes[j], n, j); }
    }
    return true;
  }

  lemma NothingCovered(x: bv8, y: bv8, n: nat, i: nat)
    requires 8 * i >= n
    ensures SameTop(x, y, Covered(n, i))
  {
  }

  /** Same version and the range's leading bits. */
  ghost predicate InRange(range: Range, ip: Address) {
    ip.version == range.ip.version && range.range >= 0 && SamePrefix(ip.bytes, range.ip.bytes, range.range)
  }

  // ---- normalize_ip_range ----

  /** The bytes after normalisation: the covered bits stay, the rest of the address is cleared. */
  function Normalized(bytes: seq<bv8>, v: Version, n: nat): (r: seq<bv8>)
    ensures |r| == |bytes|
    ensures forall i :: 0 <= i < |bytes| ==> r[i] == if i < Width(v) then Top(bytes[i], Covered(n, i)) else bytes[i]
  {
    seq(|bytes|, i requires 0 <= i < |bytes| => if i < Width(v) then Top(bytes[i], Covered(n, i)) else bytes[i])
  }

  /** The mask array of `normalize_ip_range`. */
  method FillMask(mask: array<bv8>, n: nat, w: nat)
    requires mask.Length == 16 && w <= 16 && n <= 8 * w
    modifies mask
    ensures forall j: nat :: j < w ==> mask[j] == Keep(Covered(n, j))
  {
    hide Keep;
    KeepValues();
    var i := 0;
    while i < n / 8
      invariant 0 <= i <= n / 8
      invariant forall j :: 0 <= j < i ==> mask[j] == Keep(8)
    {
      mask[i] := 0xFF;
      i := i + 1;
    }
    if i < w {
      mask[i] := Keep(n - i * 8);
      i := i + 1;
    }
    while i < w
      invariant n / 8 <= i && (i <= w || i == n / 8)
      invariant forall j: nat :: j < i && j < w ==> mask[j] == Keep(Covered(n, j))
    {
      mask[i] := 0x00;
      i := i + 1;
    }
  }

  /** `normalize_ip_range`, on the range's bytes in place. */
  method NormalizeRange(bytes: array<bv8>, v: Version, n: nat)
    requires bytes.Length == 16 && n <= 8 * Width(v)
    modifies bytes
    ensures bytes[..] == Normalized(old(bytes[..]), v, n)
  {
    hide Keep;
    var w := if v == V4 then 4 else if v == V6 then 16 else 0;
    var mask := new bv8[16];
    FillMask(mask, n, w);
    for i := 0 to w
      invariant forall j :: 0 <= j < i ==> bytes[j] == Top(old(bytes[j]), Covered(n, j))
      invariant forall j :: i <= j < 16 ==> bytes[j] == old(bytes[j])
      invariant forall j: nat :: j < w ==> mask[j] == Keep(Covered(n, j))
    {
      bytes[i] := bytes[i] & mask[i];
    }
  }

  // ---- ip_range_eq and ip_range_hash ----

  /** What two ranges must share to be one key of the ban table. */
  datatype Key = Key(version: Version, range: int, prefix: seq<bv8>)

  /** Bytes compared by `ip_range_eq`. */
  function Compared(v: Version): nat { if v == V6 then 16 else 4 }

  function KeyOf(r: Range): Key
    requires |r.ip.bytes| == 16 && r.range >= 0
  {
    Key(r.ip.version, r.range, Normalized(r.ip.bytes, r.ip.version, r.range)[..Compared(r.ip.version)])
  }

  /** Equal keys are equal versions, equal lengths and equal leading bits. */
  lemma SameKey(a: Range, b: Range)
    requires ValidRange(a) && ValidRange(b)
    ensures KeyOf(a) == KeyOf(b) <==>
      a.ip.version == b.ip.version && a.range == b.range && SamePrefix(a.ip.bytes, b.ip.bytes, a.range)
  {
    hide SameTop, SamePrefix, Covered, Top;
    if a.ip.version == b.ip.version && a.range == b.range {
      var w, n := Width(a.ip.version), a.range;
      var x, y := a.ip.bytes, b.ip.bytes;
      PrefixByBytes(x, y, n, w);
      forall i: nat | i < w
        ensures Top(x[i], Covered(n, i)) == Top(y[i], Covered(n, i)) <==> SameTop(x[i], y[i], Covered(n, i))
      {
        MaskedByte(x[i], y[i], Covered(n, i));
      }
      var p, q := KeyOf(a).prefix, KeyOf(b).prefix;
      assert forall i: nat :: i < w ==> p[i] == Top(x[i], Covered(n, i)) && q[i] == Top(y[i], Covered(n, i));
      assert p == q <==> forall i: nat :: i < w ==> p[i] == q[i];
    }
  }

  /** The key of an address cut to a prefix length is the key of exactly the ranges that hold it. */
  lemma ProbeFindsRange(r: Range, ip: Address, n: nat)
    requires ValidRange(r) && ValidAddress(ip) && n <= 8 * Width(ip.version)
    ensures KeyOf(r) == KeyOf(Range(ip, n)) <==> r.range == n && InRange(r, ip)
  {
    if ip.version == Dummy { return; }
    SameKey(r, Range(ip, n));
    if r.range == n && r.ip.version == ip.version {
      assert SamePrefix(r.ip.bytes, ip.bytes, n) <==> SamePrefix(ip.bytes, r.ip.bytes, n);
    }
  }

  const WORD := 0x1_0000_0000_0000_0000

  function Number(v: Version): nat {
    match v case Dummy => 0 case V4 => 1 case V6 => 2
  }

  function Fold(hash: nat, bs: seq<bv8>): nat
    decreases |bs|
  {
    if |bs| == 0 then hash else Fold((hash * 31 + bs[0] as nat) % WORD, bs[1..])
  }

  /** The hash as a function of the key alone, so equal keys cannot hash apart. */
  function HashOf(k: Key): nat {
    var start := (Number(k.version) * 31 + k.range) % WORD;
    Fold(start, if k.version == Dummy then [] else k.prefix)
  }

  function Pow31(n: nat): nat {
    if n == 0 then 1 else 31 * Pow31(n - 1)
  }

  /** The number with these digits to the base 31, the highest first. */
  function Base31(digits: seq<nat>): nat {
    if |digits| == 0 then 0 else digits[0] * Pow31(|digits| - 1) + Base31(digits[1..])
  }

  /** Version, length and the bytes of the prefix. */
  function Digits(k: Key): seq<nat>
    requires k.range >= 0
  {
    var head: seq<nat> := [Number(k.version), k.range];
    head + seq(|k.prefix|, i requires 0 <= i < |k.prefix| => k.prefix[i] as nat)
  }

  lemma WrapLater(x: nat, d: nat)
    ensures (x % WORD * 31 + d) % WORD == (x * 31 + d) % WORD
  {
    var q, y := x / WORD, x % WORD * 31 + d;
    ModUnique(x * 31 + d, WORD, 31 * q + y / WORD, y % WORD);
  }

  lemma FirstDigit(x: nat, d: nat, p: nat, rest: nat)
    ensures (x * 31 + d) * p + rest == x * (31 * p) + (d * p + rest)
  {
  }

  /** Folding digits into x leaves x followed by the digits, cut to a word. */
  lemma {:induction false} FoldIsNumber(x: nat, bs: seq<bv8>, digits: seq<nat>)
    requires |digits| == |bs| && forall i :: 0 <= i < |bs| ==> digits[i] == bs[i] as nat
    ensures Fold(x % WORD, bs) == (x * Pow31(|bs|) + Base31(digits)) % WORD
    decreases |bs|
  {
    if |bs| > 0 {
      var d, p := digits[0], Pow31(|bs| - 1);
      WrapLater(x, d);
      FoldIsNumber(x * 31 + d, bs[1..], digits[1..]);
      FirstDigit(x, d, p, Base31(digits[1..]));
    }
  }

  /** The hash in closed form: the digits read as a number to the base 31, cut to a word. */
  lemma HashIsNumber(k: Key)
    requires k.range >= 0 && (k.version == Dummy ==> k.prefix == [])
    ensures HashOf(k) == Base31(Digits(k)) % WORD
  {
    var x, digits := Number(k.version) * 31 + k.range, Digits(k);
    var tail := digits[1..][1..];
    FoldIsNumber(x, k.prefix, tail);
    FirstDigit(Number(k.version), k.range, Pow31(|k.prefix|), Base31(tail));
    assert Base31(digits) == Number(k.version) * Pow31(|k.prefix| + 1) + (k.range * Pow31(|k.prefix|) + Base31(tail));
  }

  /** `ip_range_hash` */
  method RangeHash(r: Range) returns (hash: nat)
    requires ValidRange(r)
    ensures hash == HashOf(KeyOf(r)) == Base31(Digits(KeyOf(r))) % WORD
  {
    hide Top, Base31, Digits;
    var bytes := new bv8[16](i requires 0 <= i < 16 => r.ip.bytes[i]);
    assert bytes[..] == r.ip.bytes;
    NormalizeRange(bytes, r.ip.version, r.range);
    hash := Number(r.ip.version);
    hash := (hash * 31 + r.range) % WORD;
    var w := if r.ip.version == V6 then 16 else 4;
    ghost var prefix := KeyOf(r).prefix;
    for i := 0 to w
      invariant Fold(hash, prefix[i..]) == HashOf(KeyOf(r))
    {
      assert prefix[i..][1..] == prefix[i + 1..];
      assert prefix[i] == bytes[i] by { assert bytes[..][i] == bytes[i]; }
      hash := (hash * 31 + bytes[i] as nat) % WORD;
    }
    HashIsNumber(KeyOf(r));
  }

  /** `ip_range_eq` */
  method RangeEq(a: Range, b: Range) returns (r: bool)
    requires ValidRange(a) && ValidRange(b)
    ensures r <==> KeyOf(a) == KeyOf(b)
  {
    var na := new bv8[16](i requires 0 <= i < 16 => a.ip.bytes[i]);
    var nb := new bv8[16](i requires 0 <= i < 16 => b.ip.bytes[i]);
    assert na[..] == a.ip.bytes && nb[..] == b.ip.bytes;
    NormalizeRange(na, a.ip.version, a.range);
    NormalizeRange(nb, b.ip.version, b.range);
    var w := if a.ip.version == V6 then 16 else 4;
    r := a.range == b.range && a.ip.version == b.ip.version && na[..w] == nb[..w];
    assert na[..w] == na[..][..w] && nb[..w] == nb[..][..w];
  }
}
