/** Bit operations of C on unsigned words, over the natural numbers.

A word is a number; bit `k` of it is read and written by the functions here. They are total, so the bound of a
particular word width is stated where the word is used.
*/
module Bits {

  /** `1 << k` */
  function Pow2(k: nat): (r: nat)
    ensures r >= 1
  {
    if k == 0 then 1 else 2 * Pow2(k - 1)
  }

  /** `(w >> k) & 1` */
  predicate Bit(w: nat, k: nat)
    decreases k
  {
    if k == 0 then w % 2 == 1 else Bit(w / 2, k - 1)
  }

  /** `a | b` */
  function Or(a: nat, b: nat): nat
    decreases a + b
  {
    if a == 0 then b
    else if b == 0 then a
    else 2 * Or(a / 2, b / 2) + (if a % 2 == 1 || b % 2 == 1 then 1 else 0)
  }

  /** `w & ~(1 << k)` */
  function ClearBit(w: nat, k: nat): nat
    decreases k
  {
    if k == 0 then w - w % 2 else 2 * ClearBit(w / 2, k - 1) + w % 2
  }

  lemma {:induction false} ZeroHasNoBits(k: nat)
    ensures !Bit(0, k)
  {
    if k > 0 { ZeroHasNoBits(k - 1); }
  }

  lemma {:induction false} BitOfOr(a: nat, b: nat, k: nat)
    ensures Bit(Or(a, b), k) == (Bit(a, k) || Bit(b, k))
    decreases k
  {
    if a == 0 || b == 0 {
      ZeroHasNoBits(k);
    } else {
      var r := Or(a, b);
      assert r / 2 == Or(a / 2, b / 2);
      if k > 0 { BitOfOr(a / 2, b / 2, k - 1); }
    }
  }

  lemma {:induction false} BitOfPow2(j: nat, k: nat)
    ensures Bit(Pow2(j), k) == (j == k)
  {
    if j == 0 {
      if k > 0 { ZeroHasNoBits(k - 1); }
    } else {
      assert Pow2(j) / 2 == Pow2(j - 1) && Pow2(j) % 2 == 0;
      if k > 0 { BitOfPow2(j - 1, k - 1); }
    }
  }

  lemma {:induction false} BitOfClearBit(w: nat, j: nat, k: nat)
    ensures Bit(ClearBit(w, j), k) == (Bit(w, k) && j != k)
    ensures ClearBit(w, j) <= w
    decreases j, k
  {
    if j == 0 {
      assert (w - w % 2) / 2 == w / 2;
    } else {
      BitOfClearBit(w / 2, j - 1, if k > 0 then k - 1 else 0);
      assert ClearBit(w, j) / 2 == ClearBit(w / 2, j - 1);
    }
  }

  lemma {:induction false} OrBound(a: nat, b: nat, n: nat)
    requires a < Pow2(n) && b < Pow2(n)
    ensures Or(a, b) < Pow2(n)
    decreases n
  {
    if a != 0 && b != 0 { OrBound(a / 2, b / 2, n - 1); }
  }

  /** A word of `n` bits equals the all-ones mask exactly when every bit is set. */
  lemma {:induction false} AllOnes(w: nat, n: nat)
    requires w < Pow2(n)
    ensures w == Pow2(n) - 1 ==> forall k :: 0 <= k < n ==> Bit(w, k)
    ensures (forall k :: 0 <= k < n ==> Bit(w, k)) ==> w == Pow2(n) - 1
    decreases n
  {
    if n > 0 {
      var v := w / 2;
      AllOnes(v, n - 1);
      assert w == 2 * v + w % 2;
      if forall k :: 0 <= k < n ==> Bit(w, k) {
        assert Bit(w, 0);
        forall k | 0 <= k < n - 1 ensures Bit(v, k) { assert Bit(w, k + 1); }
        assert v == Pow2(n - 1) - 1;
      }
      if w == Pow2(n) - 1 {
        assert v == Pow2(n - 1) - 1;
        assert forall k :: 0 <= k < n - 1 ==> Bit(v, k);
        forall k | 0 <= k < n ensures Bit(w, k) {
          if k > 0 { assert Bit(v, k - 1); }
        }
      }
    }
  }

  /** `p | f` is `p + f` when `p` is a multiple of a power of two above every bit of `f`. */
  lemma {:induction false} OrOfAligned(q: nat, f: nat, n: nat)
    requires f < Pow2(n)
    ensures Or(Pow2(n) * q, f) == Pow2(n) * q + f
    decreases n
  {
    if q != 0 && f != 0 {
      var h := Pow2(n - 1);
      assert Pow2(n) * q == 2 * (h * q);
      OrOfAligned(q, f / 2, n - 1);
    }
  }

  lemma PowersUsed()
    ensures Pow2(12) == 4096 && Pow2(64) == 0x1_0000_0000_0000_0000
  {
    assert Pow2(8) == 256 && Pow2(12) == 4096;
    assert Pow2(16) == 0x1_0000;
    assert Pow2(24) == 0x100_0000;
    assert Pow2(32) == 0x1_0000_0000;
    assert Pow2(40) == 0x100_0000_0000;
    assert Pow2(48) == 0x1_0000_0000_0000;
    assert Pow2(56) == 0x100_0000_0000_0000;
  }
}
