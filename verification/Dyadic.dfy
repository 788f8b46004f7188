/** Buddy arithmetic: powers of two, alignment, exclusive or, and how aligned
    power-of-two ranges nest. Everything is by halving, so no proof multiplies. */
module Dyadic {

  function Pow2(k: nat): (p: nat)
    ensures p >= 1
  {
    if k == 0 then 1 else 2 * Pow2(k - 1)
  }

  /** The lowest k bits of p are zero. */
  predicate Aligned(p: nat, k: nat) {
    k == 0 || (p % 2 == 0 && Aligned(p / 2, k - 1))
  }

  /** Bitwise exclusive or of two naturals. */
  function Xor(a: nat, b: nat): nat
    decreases a + b
  {
    if a == 0 && b == 0 then 0 else 2 * Xor(a / 2, b / 2) + (a + b) % 2
  }

  /** `pos ^ (1 << order)` */
  function Buddy(p: nat, k: nat): nat {
    Xor(p, Pow2(k))
  }

  lemma {:induction false} Pow2Monotone(j: nat, k: nat)
    requires j <= k
    ensures Pow2(j) <= Pow2(k)
    ensures j < k ==> 2 * Pow2(j) <= Pow2(k)
    decreases k
  {
    if j < k { Pow2Monotone(j, k - 1); }
  }

  lemma {:induction false} Pow2Aligned(k: nat)
    ensures Aligned(Pow2(k), k)
  {
    if k > 0 {
      Pow2Aligned(k - 1);
      assert Pow2(k) / 2 == Pow2(k - 1);
    }
  }

  lemma {:induction false} ZeroAligned(k: nat)
    ensures Aligned(0, k)
  {
    if k > 0 { ZeroAligned(k - 1); }
  }

  predicate IsMultiple(p: nat, q: nat, k: nat) {
    p == q * Pow2(k)
  }

  lemma HalfMultiple(p: nat, q: nat, k: nat)
    requires k > 0
    ensures IsMultiple(p, q, k) <==> p % 2 == 0 && IsMultiple(p / 2, q, k - 1)
  {
    assert q * Pow2(k) == 2 * (q * Pow2(k - 1)) by {
      var x := Pow2(k - 1);
      assert q * (2 * x) == 2 * (q * x);
    }
  }

  /** Alignment is divisibility by the power of two. */
  lemma {:induction false} AlignedIsMultiple(p: nat, k: nat)
    ensures Aligned(p, k) <==> exists q: nat :: IsMultiple(p, q, k)
  {
    if k == 0 {
      assert IsMultiple(p, p, 0);
    } else {
      AlignedIsMultiple(p / 2, k - 1);
      forall q: nat ensures IsMultiple(p, q, k) <==> p % 2 == 0 && IsMultiple(p / 2, q, k - 1) {
        HalfMultiple(p, q, k);
      }
      if Aligned(p, k) {
        var q: nat :| IsMultiple(p / 2, q, k - 1);
        assert IsMultiple(p, q, k);
      }
    }
  }

  lemma {:induction false} AlignedWeaker(p: nat, k: nat, j: nat)
    requires j <= k && Aligned(p, k)
    ensures Aligned(p, j)
  {
    if j > 0 { AlignedWeaker(p / 2, k - 1, j - 1); }
  }

  lemma {:induction false} AlignedSum(p: nat, k: nat)
    requires Aligned(p, k)
    ensures Aligned(p + Pow2(k), k)
    ensures Aligned(p + Pow2(k), k + 1) <==> !Aligned(p, k + 1)
    ensures !Aligned(p, k + 1) ==> p >= Pow2(k) && Aligned(p - Pow2(k), k + 1)
  {
    if k > 0 {
      AlignedSum(p / 2, k - 1);
      assert (p + Pow2(k)) / 2 == p / 2 + Pow2(k - 1);
      if !Aligned(p, k + 1) {
        assert (p - Pow2(k)) / 2 == p / 2 - Pow2(k - 1);
      }
    } else {
      assert Aligned(p, 1) <==> p % 2 == 0;
      assert Aligned(p + 1, 1) <==> (p + 1) % 2 == 0;
      assert p % 2 != 0 ==> Aligned(p - 1, 1) by { assert Aligned((p + 1) / 2, 0); }
    }
  }

  lemma {:induction false} XorZero(p: nat)
    ensures Xor(p, 0) == p
  {
    if p > 0 { XorZero(p / 2); }
  }

  /** The exclusive or moves an aligned position to the other half of its parent. */
  lemma {:induction false} BuddyIsOtherHalf(p: nat, k: nat)
    requires Aligned(p, k)
    ensures Buddy(p, k) == if Aligned(p, k + 1) then p + Pow2(k) else p - Pow2(k)
    ensures Aligned(Buddy(p, k), k)
    ensures Aligned(Buddy(p, k), k + 1) <==> !Aligned(p, k + 1)
  {
    AlignedSum(p, k);
    if k == 0 {
      XorZero(p / 2);
      assert Aligned(p, 1) <==> p % 2 == 0;
    } else {
      BuddyIsOtherHalf(p / 2, k - 1);
      assert Xor(p, Pow2(k)) == 2 * Xor(p / 2, Pow2(k) / 2);
      assert Pow2(k) / 2 == Pow2(k - 1);
    }
    if !Aligned(p, k + 1) { AlignedWeaker(p - Pow2(k), k + 1, k); }
  }

  lemma {:induction false} BuddyInvolution(p: nat, k: nat)
    requires Aligned(p, k)
    ensures Buddy(Buddy(p, k), k) == p
  {
    BuddyIsOtherHalf(p, k);
    BuddyIsOtherHalf(Buddy(p, k), k);
  }

  /** An aligned position inside a block of no larger order is that block's start. */
  lemma {:induction false} NoPositionInside(b: nat, k: nat, c: nat, m: nat)
    requires m <= k && Aligned(b, k) && Aligned(c, m)
    requires c <= b < c + Pow2(m)
    ensures b == c
  {
    if m > 0 { NoPositionInside(b / 2, k - 1, c / 2, m - 1); }
  }

  /** A larger aligned block that holds the start of a range holds the whole range. */
  lemma {:induction false} HoldsWhole(b: nat, k: nat, c: nat, m: nat)
    requires k <= m && Aligned(b, k) && Aligned(c, m)
    requires c <= b < c + Pow2(m)
    ensures b + Pow2(k) <= c + Pow2(m)
  {
    if k > 0 { HoldsWhole(b / 2, k - 1, c / 2, m - 1); }
  }

  /** A strictly larger block that holds a position holds its buddy too. */
  lemma {:induction false} HoldsBuddy(b: nat, k: nat, c: nat, m: nat)
    requires k < m && Aligned(b, k) && Aligned(c, m)
    requires c <= b < c + Pow2(m)
    ensures c <= Buddy(b, k) < c + Pow2(m)
  {
    BuddyIsOtherHalf(b, k);
    HoldsWhole(b, k, c, m);
    if Aligned(b, k + 1) {
      HoldsWhole(b, k + 1, c, m);
    } else {
      HoldsParent(b - Pow2(k), k, c, m);
    }
  }

  lemma {:induction false} HoldsParent(b: nat, k: nat, c: nat, m: nat)
    requires k < m && Aligned(b, k + 1) && Aligned(c, m)
    requires c <= b + Pow2(k) < c + Pow2(m)
    ensures c <= b
  {
    if k > 0 { HoldsParent(b / 2, k - 1, c / 2, m - 1); }
  }
}
