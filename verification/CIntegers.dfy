/** C's 32-bit `int` and its operators, over the integers. */
module CIntegers {
  import opened Arithmetic

  const INT_MAX: int := 0x7FFF_FFFF
  const INT_MIN: int := -0x8000_0000

  predicate InInt32(n: int) { INT_MIN <= n <= INT_MAX }

  /** Conversion to a 32-bit `int`, two's complement */
  function Wrap32(n: int): (w: int)
    ensures InInt32(w) && (InInt32(n) ==> w == n)
  {
    (n + 0x8000_0000) % 0x1_0000_0000 - 0x8000_0000
  }

  /** It is the one `int` that differs from the number by a multiple of 2^32. */
  lemma WrapIs(n: int, w: int)
    ensures w == Wrap32(n) <==> -0x8000_0000 <= w <= 0x7FFF_FFFF && (w - n) % 0x1_0000_0000 == 0
  {
  }

  lemma WrapShift(n: int, k: int)
    ensures Wrap32(n + 0x1_0000_0000 * k) == Wrap32(n)
  {
    WrapIs(n, Wrap32(n + 0x1_0000_0000 * k));
  }

  /** Operands may be wrapped beforehand. */
  lemma WrapOperand(a: int, b: int, m: int)
    ensures Wrap32(a * m + Wrap32(b)) == Wrap32(a * m + b) && Wrap32(Wrap32(a) * m + b) == Wrap32(a * m + b)
  {
    var j, k := (Wrap32(a) - a) / 0x1_0000_0000, (Wrap32(b) - b) / 0x1_0000_0000;
    WrapIs(a, Wrap32(a));
    WrapIs(b, Wrap32(b));
    WrapShift(a * m + b, k);
    WrapShift(a * m + b, j * m);
    assert Wrap32(a) * m == a * m + 0x1_0000_0000 * (j * m) by { assert Wrap32(a) == a + 0x1_0000_0000 * j; }
  }

  lemma WrapSum(a: int, b: int)
    ensures Wrap32(a + Wrap32(b)) == Wrap32(a + b)
  {
    assert a * 1 == a;
    WrapOperand(a, b, 1);
  }

  lemma WrapNegated(a: int)
    ensures Wrap32(-Wrap32(a)) == Wrap32(-a)
  {
    WrapOperand(a, 0, -1);
  }

  /** C's division and remainder truncate toward zero. */
  function CDiv(n: int, d: nat): (q: int)
    requires d > 0
    ensures d > 1 && n != 0 ==> Abs(q) < Abs(n)
    ensures if n >= 0 then 0 <= q else q <= 0
  {
    Shrinks(Abs(n), d);
    if n >= 0 then n / d else -(-n / d)
  }

  function CMod(n: int, d: nat): (r: int)
    requires d > 0
    ensures if n >= 0 then 0 <= r < d else 0 <= -r < d
  {
    if n >= 0 then n % d else -(-n % d)
  }

  lemma Shrinks(n: nat, d: nat)
    requires d > 0
    ensures 0 <= n / d && (d > 1 && n > 0 ==> n / d < n)
  {
    var q := n / d;
    assert n == d * q + n % d;
    Doubles(q, d);
  }

  lemma Doubles(q: int, d: nat)
    requires d > 0
    ensures q > 0 ==> d * q >= q && (d > 1 ==> d * q >= 2 * q)
    ensures q < 0 ==> d * q + d <= 0
  {
  }
}
