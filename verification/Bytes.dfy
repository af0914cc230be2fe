/** Bytes, and pieces of byte strings. */
module Bytes {
  type byte = x: int | 0 <= x < 0x100

  /** The pieces one after the other. */
  function Concat(pieces: seq<seq<byte>>): seq<byte> {
    if pieces == [] then [] else Concat(pieces[..|pieces| - 1]) + pieces[|pieces| - 1]
  }

  function Xor(a: bv8, b: bv8): bv8 {
    a ^ b
  }

  lemma XorLaws(a: bv8, b: bv8)
    ensures Xor(a, b) == a ^ b
    ensures Xor(Xor(a, b), b) == a && Xor(a, b) == Xor(b, a) && Xor(a, a) == 0 && Xor(a, 0) == a
  {
  }
}
