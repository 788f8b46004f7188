/** Bytes, little-endian numbers and the two memory primitives every layer above uses:
    overwriting a stretch of an image, and reading a number from one. */
module Bytes {

  type byte = x: int | 0 <= x < 256

  /** The number of values that fit into n bytes. */
  function Span(n: nat): nat {
    if n == 0 then 1 else 256 * Span(n - 1)
  }

  /** The number a little-endian byte string stands for. */
  function Le(bs: seq<byte>): nat {
    if |bs| == 0 then 0 else bs[0] + 256 * Le(bs[1..])
  }

  /** The little-endian form of v, cut to n bytes. */
  function ToLe(v: nat, n: nat): (bs: seq<byte>)
    ensures |bs| == n
  {
    if n == 0 then [] else [v % 256] + ToLe(v / 256, n - 1)
  }

  lemma {:induction false} LeRoundTrip(v: nat, n: nat)
    requires v < Span(n)
    ensures Le(ToLe(v, n)) == v
  {
    if n > 0 {
      LeRoundTrip(v / 256, n - 1);
      assert ToLe(v, n)[1..] == ToLe(v / 256, n - 1);
    }
  }

  lemma Spans()
    ensures Span(4) == 0x1_0000_0000
    ensures Span(7) == 0x100_0000_0000_0000
    ensures Span(8) == 0x1_0000_0000_0000_0000
  {
    assert Span(1) == 256;
    assert Span(2) == 0x1_0000;
    assert Span(3) == 0x100_0000;
    assert Span(4) == 0x1_0000_0000;
    assert Span(5) == 0x100_0000_0000;
    assert Span(6) == 0x1_0000_0000_0000;
    assert Span(7) == 0x100_0000_0000_0000;
  }

  /** img with the bytes from a on replaced by bs. */
  function Poke(img: seq<byte>, a: nat, bs: seq<byte>): (r: seq<byte>)
    requires a + |bs| <= |img|
    ensures |r| == |img|
    ensures r[a..a + |bs|] == bs
    ensures forall i :: 0 <= i < a || a + |bs| <= i < |img| ==> r[i] == img[i]
  {
    img[..a] + bs + img[a + |bs|..]
  }

  /** A run of zero bytes, what a freshly grown file reads as. */
  function Zeros(n: nat): (z: seq<byte>)
    ensures |z| == n
    ensures forall i :: 0 <= i < n ==> z[i] == 0
  {
    seq(n, _ => 0)
  }

  /** Zero bytes stand for zero. */
  lemma {:induction false} ZeroNumber(bs: seq<byte>)
    requires forall i :: 0 <= i < |bs| ==> bs[i] == 0
    ensures Le(bs) == 0
  {
    if |bs| > 0 { ZeroNumber(bs[1..]); }
  }
}
