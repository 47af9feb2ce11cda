/** Instruction encodings as four 32-bit words, lowest first (instr_binary.h). */
module InstrBinaries {

  datatype EncodingType = BIT32 | BIT64 | BIT128 | INVALID

  /** Equality and hashing of encodings look at the words only, so words alone are the table keys. */
  datatype Words = Words(w0: bv32, w1: bv32, w2: bv32, w3: bv32)

  datatype InstrBinary = InstrBinary(words: Words, bitType: EncodingType)

  const NO_WORDS := Words(0, 0, 0, 0)
  const NO_BINARY := InstrBinary(NO_WORDS, INVALID)

  function Low32(v: bv64): bv32 {
    (v & 0xFFFF_FFFF) as bv32
  }

  function High32(v: bv64): bv32 {
    (v >> 32) as bv32
  }

  function Join64(low: bv32, high: bv32): bv64 {
    (low as bv64) | ((high as bv64) << 32)
  }

  lemma JoinSplits(low: bv32, high: bv32)
    ensures Low32(Join64(low, high)) == low && High32(Join64(low, high)) == high
  {
  }

  function FromEncoding(low64: bv64, high64: bv64, bits: EncodingType): (b: InstrBinary)
    ensures bits == INVALID ==> b == InstrBinary(Words(0, 0, 0, 0), INVALID)
  {
    if bits == INVALID then NO_BINARY
    else
      InstrBinary(Words(Low32(low64),
                        if bits != BIT32 then High32(low64) else 0,
                        if bits == BIT128 then Low32(high64) else 0,
                        if bits == BIT128 then High32(high64) else 0), bits)
  }

  /** The words of two 64-bit halves: the low 32 bits of the low half come first; what a width does not have is 0. */
  lemma WordsOfHalves(low64: bv64, high64: bv64, bits: EncodingType)
    requires bits != INVALID
    ensures var b := FromEncoding(low64, high64, bits);
            && b.bitType == bits
            && b.words.w0 as bv64 == low64 & 0xFFFF_FFFF
            && b.words.w1 as bv64 == (if bits == BIT32 then 0 else low64 >> 32)
            && b.words.w2 as bv64 == (if bits == BIT128 then high64 & 0xFFFF_FFFF else 0)
            && b.words.w3 as bv64 == (if bits == BIT128 then high64 >> 32 else 0)
  {
  }

  function TruncateBinary(words: Words, bits: EncodingType): InstrBinary {
    FromEncoding(Join64(words.w0, words.w1), Join64(words.w2, words.w3), bits)
  }

  /** Truncation keeps the words of the width and clears the others. */
  lemma TruncationKeepsLowWords(words: Words, bits: EncodingType)
    requires bits != INVALID
    ensures var t := TruncateBinary(words, bits).words;
            && t.w0 == words.w0
            && t.w1 == (if bits == BIT32 then 0 else words.w1)
            && t.w2 == (if bits == BIT128 then words.w2 else 0)
            && t.w3 == (if bits == BIT128 then words.w3 else 0)
  {
    hide Low32, High32, Join64;
    JoinSplits(words.w0, words.w1);
    JoinSplits(words.w2, words.w3);
  }
}
