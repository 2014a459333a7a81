/** Bytes and 16-bit words of packets on a little-endian processor (drivers/network.c). */
module ByteOrder {
  import opened Arithmetic
  import opened ByteType

  /** Largest 16-bit word, and the modulus of one's complement arithmetic */
  const MODULUS: nat := 65535

  /** The little-endian 16-bit word at offset `i` */
  function WordAt(data: seq<Byte>, i: nat): (word: nat)
    requires i + 1 < |data|
    ensures word <= MODULUS
  {
    data[i] as int + 256 * data[i + 1] as int
  }

  /** Store a 16-bit word in little-endian order, as the processor does. */
  function PutWord(data: seq<Byte>, k: nat, word: nat): (data': seq<Byte>)
    requires k + 1 < |data| && word <= MODULUS
    ensures |data'| == |data|
  {
    data[k := word % 256][k + 1 := word / 256]
  }

  function SwapWord(word: nat): (swapped: nat)
    requires word <= MODULUS
    ensures swapped <= MODULUS
  {
    word % 256 * 256 + word / 256
  }

  /** The bytes of a swapped word are those of the word, exchanged. */
  lemma SwapIs(word: nat)
    requires word <= MODULUS
    ensures 256 * word == SwapWord(word) + MODULUS * (word / 256)
    ensures SwapWord(word) / 256 == word % 256 && SwapWord(word) % 256 == word / 256
    ensures SwapWord(word) == 0 <==> word == 0
  {
    assert word == 256 * (word / 256) + word % 256;
    DivModUnique(SwapWord(word), 256, word % 256, word / 256);
  }

  lemma ComplementSwaps(word: nat, swapped: nat)
    requires word <= MODULUS && swapped == SwapWord(word)
    ensures MODULUS - swapped == SwapWord(MODULUS - word)
  {
    DivModUnique(MODULUS - word, 256, 255 - word / 256, 255 - word % 256);
  }
}
