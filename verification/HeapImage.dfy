/** The byte layout of the database image: a 544-byte header, then 16-byte units.
    A block's header is the 15 bytes at its first unit (one tag byte, two 7-byte
    links); the first unit starts one byte before the header ends. Reads and writes
    work on the bytes; `View` is what all of them read together. */
module HeapImage {
  import opened Bytes

  const HEADER := 544
  const UNIT := 16
  const BUCKETS := 56
  /** Orders stay below the width of the int that `1 << order` is computed in. */
  const MAX_ORDER := 31

  function UnitAt(p: nat): (a: nat)
    ensures a >= HEADER - 1 && (a - (HEADER - 1)) / UNIT == p
  {
    HEADER - 1 + UNIT * p
  }

  /** The position a non-zero pointer to a unit stands for. */
  function PosOf(ptr: nat): nat
    requires ptr >= HEADER - 1
  {
    (ptr - (HEADER - 1)) / UNIT
  }

  function Units(img: seq<byte>): nat {
    if |img| < HEADER then 0 else (|img| - HEADER) / UNIT
  }

  function HeadAt(k: nat): nat { 32 + 8 * k }

  function Size(img: seq<byte>): nat requires |img| >= HEADER { Le(img[8..16]) }
  function Count(img: seq<byte>): nat requires |img| >= HEADER { Le(img[16..24]) }
  function Head(img: seq<byte>, k: nat): nat requires |img| >= HEADER && k < BUCKETS {
    Le(img[HeadAt(k)..HeadAt(k) + 8])
  }
  function Order(img: seq<byte>, p: nat): nat requires p < Units(img) { img[UnitAt(p)] % 128 }
  function Free(img: seq<byte>, p: nat): bool requires p < Units(img) { img[UnitAt(p)] / 128 == 1 }
  function Next(img: seq<byte>, p: nat): nat requires p < Units(img) {
    Le(img[UnitAt(p) + 1..UnitAt(p) + 8])
  }
  function Prev(img: seq<byte>, p: nat): nat requires p < Units(img) {
    Le(img[UnitAt(p) + 8..UnitAt(p) + 15])
  }

  /** Everything the allocator can read from an image, unit by unit. */
  datatype View = View(size: nat, count: nat, heads: seq<nat>,
                       order: seq<nat>, free: seq<bool>, next: seq<nat>, prev: seq<nat>)

  function ViewOf(img: seq<byte>): (v: View)
    requires |img| >= HEADER
    ensures |v.heads| == BUCKETS
    ensures |v.order| == |v.free| == |v.next| == |v.prev| == Units(img)
  {
    View(Size(img), Count(img),
         seq(BUCKETS, k requires 0 <= k < BUCKETS => Head(img, k)),
         seq(Units(img), p requires 0 <= p < Units(img) => Order(img, p)),
         seq(Units(img), p requires 0 <= p < Units(img) => Free(img, p)),
         seq(Units(img), p requires 0 <= p < Units(img) => Next(img, p)),
         seq(Units(img), p requires 0 <= p < Units(img) => Prev(img, p)))
  }

  /** The images differ at most in the n bytes from a on. */
  ghost predicate SameBut(img: seq<byte>, r: seq<byte>, a: nat, n: nat) {
    && |r| == |img|
    && forall i :: 0 <= i < |img| && !(a <= i < a + n) ==> r[i] == img[i]
  }

  lemma Kept(img: seq<byte>, r: seq<byte>, a: nat, n: nat, lo: nat, hi: nat)
    requires SameBut(img, r, a, n) && lo <= hi <= |img|
    requires hi <= a || a + n <= lo
    ensures r[lo..hi] == img[lo..hi]
  {
  }

  /** A write inside the header leaves every unit as it was. */
  lemma HeaderWrite(img: seq<byte>, r: seq<byte>, a: nat, n: nat)
    requires |img| >= HEADER && SameBut(img, r, a, n) && a + n < HEADER
    ensures ViewOf(r).(size := Size(img), count := Count(img), heads := ViewOf(img).heads) == ViewOf(img)
  {
    forall p | 0 <= p < Units(img)
      ensures Next(r, p) == Next(img, p) && Prev(r, p) == Prev(img, p)
    {
      Kept(img, r, a, n, UnitAt(p) + 1, UnitAt(p) + 8);
      Kept(img, r, a, n, UnitAt(p) + 8, UnitAt(p) + 15);
    }
  }

  /** A write inside the block header of unit p leaves the database header and all other units alone. */
  lemma UnitWrite(img: seq<byte>, r: seq<byte>, a: nat, n: nat, p: nat)
    requires |img| >= HEADER && p < Units(img)
    requires SameBut(img, r, a, n) && UnitAt(p) <= a && a + n <= UnitAt(p) + 15
    ensures ViewOf(r).size == ViewOf(img).size && ViewOf(r).count == ViewOf(img).count
    ensures ViewOf(r).heads == ViewOf(img).heads
    ensures forall q :: 0 <= q < Units(img) && q != p ==>
      ViewOf(r).order[q] == ViewOf(img).order[q] && ViewOf(r).free[q] == ViewOf(img).free[q] &&
      ViewOf(r).next[q] == ViewOf(img).next[q] && ViewOf(r).prev[q] == ViewOf(img).prev[q]
  {
    Kept(img, r, a, n, 8, 16);
    Kept(img, r, a, n, 16, 24);
    forall k | 0 <= k < BUCKETS ensures Head(r, k) == Head(img, k) {
      Kept(img, r, a, n, HeadAt(k), HeadAt(k) + 8);
    }
    forall q | 0 <= q < Units(img) && q != p
      ensures Next(r, q) == Next(img, q) && Prev(r, q) == Prev(img, q)
    {
      Kept(img, r, a, n, UnitAt(q) + 1, UnitAt(q) + 8);
      Kept(img, r, a, n, UnitAt(q) + 8, UnitAt(q) + 15);
    }
  }

  function SetNext(img: seq<byte>, p: nat, v: nat): (r: seq<byte>)
    requires p < Units(img) && v < Span(7)
    ensures SameBut(img, r, UnitAt(p) + 1, 7)
    ensures ViewOf(r) == ViewOf(img).(next := ViewOf(img).next[p := v])
  {
    var r := Poke(img, UnitAt(p) + 1, ToLe(v, 7));
    LeRoundTrip(v, 7);
    UnitWrite(img, r, UnitAt(p) + 1, 7, p);
    Kept(img, r, UnitAt(p) + 1, 7, UnitAt(p) + 8, UnitAt(p) + 15);
    assert Next(r, p) == v;
    assert Prev(r, p) == Prev(img, p);
    r
  }

  function SetPrev(img: seq<byte>, p: nat, v: nat): (r: seq<byte>)
    requires p < Units(img) && v < Span(7)
    ensures SameBut(img, r, UnitAt(p) + 8, 7)
    ensures ViewOf(r) == ViewOf(img).(prev := ViewOf(img).prev[p := v])
  {
    var r := Poke(img, UnitAt(p) + 8, ToLe(v, 7));
    LeRoundTrip(v, 7);
    UnitWrite(img, r, UnitAt(p) + 8, 7, p);
    Kept(img, r, UnitAt(p) + 8, 7, UnitAt(p) + 1, UnitAt(p) + 8);
    assert Prev(r, p) == v;
    assert Next(r, p) == Next(img, p);
    r
  }

  /** Both bit-fields of the tag byte: seven bits of order, one of status. */
  function SetTag(img: seq<byte>, p: nat, order: nat, free: bool): (r: seq<byte>)
    requires p < Units(img) && order < 128
    ensures SameBut(img, r, UnitAt(p), 1)
    ensures ViewOf(r) == ViewOf(img).(order := ViewOf(img).order[p := order], free := ViewOf(img).free[p := free])
  {
    var tag: byte := order + (if free then 128 else 0);
    var r := Poke(img, UnitAt(p), [tag]);
    UnitWrite(img, r, UnitAt(p), 1, p);
    assert r[UnitAt(p)] == tag by { assert r[UnitAt(p)..UnitAt(p) + 1][0] == tag; }
    Kept(img, r, UnitAt(p), 1, UnitAt(p) + 1, UnitAt(p) + 8);
    Kept(img, r, UnitAt(p), 1, UnitAt(p) + 8, UnitAt(p) + 15);
    assert Next(r, p) == Next(img, p);
    assert Prev(r, p) == Prev(img, p);
    r
  }

  function SetHead(img: seq<byte>, k: nat, v: nat): (r: seq<byte>)
    requires |img| >= HEADER && k < BUCKETS && v < Span(8)
    ensures SameBut(img, r, HeadAt(k), 8)
    ensures ViewOf(r) == ViewOf(img).(heads := ViewOf(img).heads[k := v])
  {
    var r := Poke(img, HeadAt(k), ToLe(v, 8));
    LeRoundTrip(v, 8);
    HeaderWrite(img, r, HeadAt(k), 8);
    Kept(img, r, HeadAt(k), 8, 8, 16);
    Kept(img, r, HeadAt(k), 8, 16, 24);
    assert forall j :: 0 <= j < BUCKETS ==> Head(r, j) == if j == k then v else Head(img, j) by {
      forall j | 0 <= j < BUCKETS && j != k ensures Head(r, j) == Head(img, j) {
        Kept(img, r, HeadAt(k), 8, HeadAt(j), HeadAt(j) + 8);
      }
    }
    r
  }

  function SetCount(img: seq<byte>, v: nat): (r: seq<byte>)
    requires |img| >= HEADER && v < Span(8)
    ensures SameBut(img, r, 16, 8)
    ensures ViewOf(r) == ViewOf(img).(count := v)
  {
    var r := Poke(img, 16, ToLe(v, 8));
    LeRoundTrip(v, 8);
    HeaderWrite(img, r, 16, 8);
    Kept(img, r, 16, 8, 8, 16);
    HeadsKept(img, r, 16, 8);
    r
  }

  function SetSize(img: seq<byte>, v: nat): (r: seq<byte>)
    requires |img| >= HEADER && v < Span(8)
    ensures SameBut(img, r, 8, 8)
    ensures ViewOf(r) == ViewOf(img).(size := v)
  {
    var r := Poke(img, 8, ToLe(v, 8));
    LeRoundTrip(v, 8);
    HeaderWrite(img, r, 8, 8);
    Kept(img, r, 8, 8, 16, 24);
    HeadsKept(img, r, 8, 8);
    r
  }

  lemma HeadsKept(img: seq<byte>, r: seq<byte>, a: nat, n: nat)
    requires |img| >= HEADER && SameBut(img, r, a, n) && a + n <= 32
    ensures ViewOf(r).heads == ViewOf(img).heads
  {
    forall k | 0 <= k < BUCKETS ensures Head(r, k) == Head(img, k) {
      Kept(img, r, a, n, HeadAt(k), HeadAt(k) + 8);
    }
  }

  /** Growing the file by zero bytes may add units and changes none. */
  lemma GrowView(img: seq<byte>, n: nat)
    requires |img| >= HEADER
    ensures ViewOf(img + Zeros(n)).size == ViewOf(img).size
    ensures ViewOf(img + Zeros(n)).count == ViewOf(img).count
    ensures ViewOf(img + Zeros(n)).heads == ViewOf(img).heads
    ensures Units(img + Zeros(n)) >= Units(img)
    ensures forall p :: 0 <= p < Units(img) ==>
      ViewOf(img + Zeros(n)).order[p] == ViewOf(img).order[p] &&
      ViewOf(img + Zeros(n)).free[p] == ViewOf(img).free[p] &&
      ViewOf(img + Zeros(n)).next[p] == ViewOf(img).next[p] &&
      ViewOf(img + Zeros(n)).prev[p] == ViewOf(img).prev[p]
  {
    var r := img + Zeros(n);
    assert r[8..16] == img[8..16] && r[16..24] == img[16..24];
    forall k | 0 <= k < BUCKETS ensures Head(r, k) == Head(img, k) {
      assert r[HeadAt(k)..HeadAt(k) + 8] == img[HeadAt(k)..HeadAt(k) + 8];
    }
    forall p | 0 <= p < Units(img)
      ensures Next(r, p) == Next(img, p) && Prev(r, p) == Prev(img, p)
    {
      assert r[UnitAt(p) + 1..UnitAt(p) + 8] == img[UnitAt(p) + 1..UnitAt(p) + 8];
      assert r[UnitAt(p) + 8..UnitAt(p) + 15] == img[UnitAt(p) + 8..UnitAt(p) + 15];
    }
  }

  /** Where the fields stand: size, number of lists and list heads in the header; a block's tag and its two links of
      seven bytes from the header's last byte on, sixteen bytes a unit. */
  lemma FieldBytes(img: seq<byte>, k: nat, p: nat, order: nat, free: bool, v: nat)
    requires |img| >= 544 && k < 56 && p < Units(img) && order < 128 && v < Span(7) < Span(8)
    ensures 543 + 16 * p + 15 <= |img|
    ensures SetSize(img, v) == Poke(img, 8, ToLe(v, 8)) && SetCount(img, v) == Poke(img, 16, ToLe(v, 8))
    ensures SetHead(img, k, v) == Poke(img, 32 + 8 * k, ToLe(v, 8))
    ensures SetTag(img, p, order, free) == Poke(img, 543 + 16 * p, [if free then order + 128 else order])
    ensures SetNext(img, p, v) == Poke(img, 544 + 16 * p, ToLe(v, 7))
    ensures SetPrev(img, p, v) == Poke(img, 551 + 16 * p, ToLe(v, 7))
  {
  }
}
