/**
 * Entity handles. The native module hands out handles that pack a 32-bit arena
 * index (low word) and a 32-bit generation (high word) into one 64-bit pattern.
 * The host never inspects the bits beyond taking the low word; the model keeps
 * the two halves as a pair and the 64-bit word as a natural number.
 */
module Handles {

  const WORD: nat := 0x1_0000_0000

  type U32 = x: nat | x < 0x1_0000_0000
  type U64 = x: nat | x < 0x1_0000_0000_0000_0000

  datatype Handle = Handle(index: U32, generation: U32)

  /** The 64-bit pattern of a handle: generation in the high word, index in the low word. */
  function Encode(h: Handle): (w: U64)
    ensures w / WORD == h.generation
  {
    h.generation * 0x1_0000_0000 + h.index
  }

  /** Splits a 64-bit pattern into its index and generation halves. */
  function Decode(w: U64): (h: Handle)
    ensures h.generation * WORD + h.index == w
  {
    Handle(w % 0x1_0000_0000, w / 0x1_0000_0000)
  }

  lemma DecodeEncode(h: Handle)
    ensures Decode(Encode(h)) == h
  {
  }

  lemma EncodeDecode(w: U64)
    ensures Encode(Decode(w)) == w
  {
  }

  /**
   * The arena index of a handle: the low 32-bit word of its 64-bit pattern.
   * Any generation is accepted; the arena does no generation check.
   */
  function HandleToIndex(h: Handle): (i: U32)
    ensures i == Encode(h) % WORD
  {
    h.index
  }

  /** Two handles that differ only in their generation decode to the same slot. */
  lemma IndexIgnoresGeneration(h1: Handle, h2: Handle)
    requires Encode(h1) % WORD == Encode(h2) % WORD
    ensures HandleToIndex(h1) == HandleToIndex(h2)
    ensures h1 != h2 ==> h1.generation != h2.generation
  {
  }
}
