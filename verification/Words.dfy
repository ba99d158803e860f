/** 64-bit words, bit by bit. */
module Words {
  predicate Odd(word: bv64) { word & 1 == 1 }

  function Half(word: bv64): bv64 { word >> 1 }

  /** Only bits of the bound are set. */
  predicate Within(word: bv64, bound: bv64) { word & !bound == 0 }
}
