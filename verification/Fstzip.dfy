/** The header word of a compressed field (`_fstzip`), on a little-endian machine. */
module Fstzip {
  import opened Words

  const MINIMUM: nat := 3
  const PARALLELOGRAM: nat := 4
  const PARALLELOGRAM32: nat := 5

  datatype Header = Header(predictorType: nat, degree: nat, step: nat, nbits: nat, levels: nat, version: nat)

  /** The values that the bit fields can keep. */
  predicate Fits(h: Header)
  {
    h.predictorType < 16 && h.degree < 8 && h.step < 8 && h.nbits < 32 && h.levels < 8 && h.version < 64
  }

  function ToWord(h: Header): (w: word)
    requires Fits(h)
  {
    h.predictorType + 0x10 * h.degree + 0x80 * h.step + 0x400 * h.nbits + 0x8000 * h.levels + 0x4_0000 * h.version
  }

  function OfWord(w: word): (h: Header)
    ensures Fits(h)
  {
    Header(w % 0x10, w / 0x10 % 8, w / 0x80 % 8, w / 0x400 % 32, w / 0x8000 % 8, w / 0x4_0000 % 64)
  }

  /** The reader of a stream finds the parameters that its writer used. */
  lemma HeaderRoundTrip(h: Header)
    requires Fits(h)
    ensures OfWord(ToWord(h)) == h
  {
    var low := h.predictorType + 0x10 * h.degree + 0x80 * h.step;
    var high := h.nbits + 32 * h.levels + 0x100 * h.version;
    LowFields(low, high, h);
    HighFields(low, high, h);
  }

  /** Bit by bit, from the top: 8 that are not used, 6 for the version, 3 for the levels, 5 for the
      width of the tokens, 3 for the step, 3 for the degree, 4 for the predictor. */
  lemma HeaderBits(h: Header)
    requires Fits(h)
    ensures Bits(ToWord(h), 32) == Zeros(8) + Bits(h.version, 6) + Bits(h.levels, 3) + Bits(h.nbits, 5) +
      Bits(h.step, 3) + Bits(h.degree, 3) + Bits(h.predictorType, 4)
  {
    hide Bits, Pow2, ToWord;
    FieldPowers();
    var high := h.levels + 8 * h.version;
    var d := h.nbits + 32 * high;
    WordIs(h, d, high);
    ThreeJoined(d, h.step, h.degree, 28, 3, 3, 8, 8);
    BitsJoined(h.degree + 8 * (h.step + 8 * d), h.predictorType, 32, 4);
    ThreeJoined(h.version, h.levels, h.nbits, 22, 3, 5, 8, 32);
    BitsSmall(h.version, 14, 6);
  }

  lemma WordIs(h: Header, d: nat, high: nat)
    requires Fits(h) && high == h.levels + 8 * h.version && d == h.nbits + 32 * high
    ensures ToWord(h) == h.predictorType + 16 * (h.degree + 8 * (h.step + 8 * d))
  {
  }

  lemma LowFields(low: nat, high: nat, h: Header)
    requires Fits(h) && low == h.predictorType + 0x10 * h.degree + 0x80 * h.step
    ensures (low + 0x400 * high) % 0x10 == h.predictorType
    ensures (low + 0x400 * high) / 0x10 % 8 == h.degree && (low + 0x400 * high) / 0x80 % 8 == h.step
  {
    var w := low + 0x400 * high;
    QuotientIs(w, 0x10, h.degree + 8 * h.step + 0x40 * high, h.predictorType);
    QuotientIs(w, 0x80, h.step + 8 * high, h.predictorType + 0x10 * h.degree);
    QuotientIs(h.degree + 8 * h.step + 0x40 * high, 8, h.step + 8 * high, h.degree);
    QuotientIs(h.step + 8 * high, 8, high, h.step);
  }

  lemma QuotientIs(w: nat, m: nat, q: nat, r: nat)
    requires r < m && w == m * q + r
    ensures w / m == q && w % m == r
  {
    ModUnique(m, q, r);
  }

  lemma HighFields(low: nat, high: nat, h: Header)
    requires Fits(h) && low < 0x400 && high == h.nbits + 32 * h.levels + 0x100 * h.version
    ensures (low + 0x400 * high) / 0x400 % 32 == h.nbits
    ensures (low + 0x400 * high) / 0x8000 % 8 == h.levels && (low + 0x400 * high) / 0x4_0000 % 64 == h.version
  {
    var w := low + 0x400 * high;
    QuotientIs(w, 0x400, high, low);
    QuotientIs(w, 0x8000, h.levels + 8 * h.version, low + 0x400 * h.nbits);
    QuotientIs(w, 0x4_0000, h.version, low + 0x400 * h.nbits + 0x8000 * h.levels);
  }
}
