/** The Internet checksum (drivers/network.c:206-224; sections 1 and 2 of RFC 1071). */
module InternetChecksum {
  import opened Arithmetic
  import opened ByteOrder
  import opened ByteType

  const UINT32: nat := 0x1_0000_0000

  /** Sum of the little-endian 16-bit words; a last single byte counts as a low byte. */
  function Sum(data: seq<Byte>): nat {
    if data == [] then 0
    else if |data| == 1 then data[0]
    else WordAt(data, 0) + Sum(data[2..])
  }

  /** One's complement addition: the carry comes back in at the low end. */
  function OnesAdd(a: nat, b: nat): nat {
    if a + b >= 0x1_0000 then a + b - MODULUS else a + b
  }

  /** One's complement sum of the words */
  function OnesSum(data: seq<Byte>): (sum: nat)
    ensures sum <= MODULUS
  {
    if data == [] then 0
    else if |data| == 1 then data[0]
    else OnesAdd(OnesSum(data[2..]), WordAt(data, 0))
  }

  /** The representative from 1 to 65535 of a positive number, 0 of 0 */
  function Residue(sum: nat): (r: nat)
    ensures r <= MODULUS && (r == 0 <==> sum == 0)
  {
    if sum == 0 then 0 else (sum - 1) % MODULUS + 1
  }

  lemma ResidueIs(sum: nat, r: nat, k: int)
    requires 0 < r <= MODULUS && sum > 0 && sum == r + MODULUS * k
    ensures Residue(sum) == r
  {
    DivModUnique(sum - 1, MODULUS, k, r - 1);
  }

  lemma ResidueParts(sum: nat) returns (k: int)
    ensures sum == Residue(sum) + MODULUS * k
  {
    k := if sum == 0 then 0 else (sum - 1) / MODULUS;
  }

  /** `while (sum >> 16) sum = (sum & 0xFFFF) + (sum >> 16)` */
  function Fold(sum: nat): nat
    decreases sum
  {
    if sum < 0x1_0000 then sum else Fold(sum % 0x1_0000 + sum / 0x1_0000)
  }

  lemma {:induction false} FoldIsResidue(sum: nat)
    ensures Fold(sum) == Residue(sum)
    decreases sum
  {
    if sum >= 0x1_0000 {
      var next := sum % 0x1_0000 + sum / 0x1_0000;
      FoldIsResidue(next);
      var k := ResidueParts(next);
      ResidueIs(sum, Residue(next), k + sum / 0x1_0000);
    }
  }

  lemma ResidueOfSum(a: nat, b: nat)
    ensures Residue(Residue(a) + b) == Residue(a + b)
  {
    var k := ResidueParts(a);
    var m := ResidueParts(Residue(a) + b);
    if a + b > 0 { ResidueIs(a + b, Residue(Residue(a) + b), k + m); }
  }

  lemma ResidueOfOnesAdd(a: nat, b: nat)
    requires a <= MODULUS && b <= MODULUS
    ensures OnesAdd(a, b) == Residue(a + b)
  {
    if a + b > 0 { ResidueIs(a + b, OnesAdd(a, b), if a + b >= 0x1_0000 then 1 else 0); }
  }

  /** Adding up and folding computes the one's complement sum. */
  lemma {:induction false} FoldedSumIsOnesSum(data: seq<Byte>)
    ensures Fold(Sum(data)) == OnesSum(data) == Residue(Sum(data))
  {
    FoldIsResidue(Sum(data));
    if |data| >= 2 {
      FoldedSumIsOnesSum(data[2..]);
      ResidueOfSum(Sum(data[2..]), WordAt(data, 0));
      ResidueOfOnesAdd(OnesSum(data[2..]), WordAt(data, 0));
    }
  }

  /** `checksum`: the complement of the one's complement sum exactly if the 32-bit accumulator does not overflow. */
  method Checksum(data: seq<Byte>) returns (c: nat)
    requires |data| < 0x1_0000_0000
    ensures c <= 65535
    ensures c == 65535 - OnesSum(data) <==> Sum(data) < 0x1_0000_0000
  {
    var sum: nat, i: nat, length := 0, 0, |data|;
    ghost var exact: nat := 0;
    assert data[0..] == data;
    while length > 1
      invariant i + length == |data| && length >= 0
      invariant sum == exact % UINT32 && exact + Sum(data[i..]) == Sum(data) && exact <= MODULUS * i
      decreases length
    {
      assert data[i..][2..] == data[i + 2..] && WordAt(data[i..], 0) == WordAt(data, i);
      AddWraps(exact, WordAt(data, i));
      sum := (sum + WordAt(data, i)) % UINT32;
      exact := exact + WordAt(data, i);
      i := i + 2;
      length := length - 2;
    }
    if length > 0 {
      AddWraps(exact, data[i]);
      sum := (sum + data[i]) % UINT32;
      exact := exact + data[i];
    }
    FoldedSumIsOnesSum(data);
    OverflowShows(exact, |data|);
    FoldIsResidue(sum);
    sum := FoldSum(sum);
    c := MODULUS - sum;
  }

  /** The folding loop */
  method FoldSum(start: nat) returns (sum: nat)
    ensures sum == Fold(start) && sum <= MODULUS
  {
    sum := start;
    while sum / 0x1_0000 != 0
      invariant Fold(sum) == Fold(start)
      decreases sum
    {
      sum := sum % 0x1_0000 + sum / 0x1_0000;
    }
  }

  lemma AddWraps(exact: nat, word: nat)
    ensures (exact % UINT32 + word) % UINT32 == (exact + word) % UINT32
  {
    var q := (exact % UINT32 + word) / UINT32;
    DivModUnique(exact + word, UINT32, exact / UINT32 + q, (exact % UINT32 + word) % UINT32);
  }

  /** Each overflow loses 2^32, which is 1 modulo 65535, and there are too few of them to cancel. */
  lemma OverflowShows(exact: nat, length: nat)
    requires exact <= MODULUS * length && length < UINT32
    ensures Residue(exact % UINT32) == Residue(exact) <==> exact < UINT32
  {
    var sum, q := exact % UINT32, exact / UINT32;
    if q > 0 && Residue(sum) == Residue(exact) {
      var k := ResidueParts(sum);
      var m := ResidueParts(exact);
      assert exact == UINT32 * q + sum && UINT32 == MODULUS * 65537 + 1;
      assert q == MODULUS * (m - k - 65537 * q);
      assert q < MODULUS;
      MultipleIs(q, m - k - 65537 * q);
    }
  }

  lemma MultipleIs(q: nat, k: int)
    requires 0 < q && q == MODULUS * k
    ensures q >= MODULUS
  {
  }

  // ---- Verifying a checksum

  lemma {:induction false} SumOfPut(data: seq<Byte>, k: nat, word: nat)
    requires k % 2 == 0 && k + 1 < |data| && data[k] == 0 && data[k + 1] == 0 && word <= MODULUS
    ensures Sum(PutWord(data, k, word)) == Sum(data) + word
    decreases k
  {
    var data' := PutWord(data, k, word);
    if k == 0 {
      assert data'[2..] == data[2..];
    } else {
      assert data'[2..] == PutWord(data[2..], k - 2, word);
      SumOfPut(data[2..], k - 2, word);
    }
  }

  /** With its checksum stored in a zeroed field at any even offset, data has checksum 0. */
  lemma ChecksumVerifies(data: seq<Byte>, k: nat)
    requires k % 2 == 0 && k + 1 < |data| && data[k] == 0 && data[k + 1] == 0
    ensures OnesSum(PutWord(data, k, MODULUS - OnesSum(data))) == MODULUS
  {
    var c := MODULUS - OnesSum(data);
    SumOfPut(data, k, c);
    FoldedSumIsOnesSum(data);
    FoldedSumIsOnesSum(PutWord(data, k, c));
    var m := ResidueParts(Sum(data));
    ResidueIs(Sum(data) + c, MODULUS, m);
  }

  // ---- Byte order

  /** All words with their bytes exchanged */
  function SwapBytes(data: seq<Byte>): (swapped: seq<Byte>)
    requires |data| % 2 == 0
    ensures |swapped| == |data|
  {
    if data == [] then [] else [data[1], data[0]] + SwapBytes(data[2..])
  }

  /** Sum of the high bytes */
  function HighBytes(data: seq<Byte>): nat
    requires |data| % 2 == 0
  {
    if data == [] then 0 else data[1] + HighBytes(data[2..])
  }

  lemma {:induction false} SumOfSwapped(data: seq<Byte>)
    requires |data| % 2 == 0
    ensures 256 * Sum(data) == Sum(SwapBytes(data)) + MODULUS * HighBytes(data)
    ensures Sum(SwapBytes(data)) == 0 <==> Sum(data) == 0
  {
    if data != [] {
      SumOfSwapped(data[2..]);
      assert SwapBytes(data)[2..] == SwapBytes(data[2..]);
    }
  }

  lemma SwappedResidue(sum: nat, swapped: nat, high: nat)
    requires 256 * sum == swapped + MODULUS * high && (swapped == 0 <==> sum == 0)
    ensures Residue(swapped) == SwapWord(Residue(sum))
  {
    if sum > 0 {
      var m := ResidueParts(sum);
      var f := Residue(sum);
      SwapIs(f);
      ResidueIs(swapped, SwapWord(f), f / 256 + 256 * m - high);
    }
  }

  /** Swapping the bytes of all words swaps the bytes of the sum. */
  lemma SwappedSum(data: seq<Byte>)
    requires |data| % 2 == 0
    ensures OnesSum(SwapBytes(data)) == SwapWord(OnesSum(data))
  {
    FoldedSumIsOnesSum(data);
    FoldedSumIsOnesSum(SwapBytes(data));
    SumOfSwapped(data);
    SwappedResidue(Sum(data), Sum(SwapBytes(data)), HighBytes(data));
  }

  /** So the checksum over the processor's words is the checksum over big-endian words with its bytes exchanged: stored
  in host order, it puts the same bytes in the packet as the other stored in network order. */
  lemma HostOrderIsNetworkOrder(data: seq<Byte>, sum: nat, swapped: nat)
    requires |data| % 2 == 0 && sum == OnesSum(data) && swapped == OnesSum(SwapBytes(data))
    ensures MODULUS - swapped == SwapWord(MODULUS - sum)
  {
    SwappedSum(data);
    ComplementSwaps(sum, swapped);
  }
}
