/** The compressor of fields of IEEE 754 binary32 numbers, taken as 32-bit words: signs,
    exponents and mantissas are coded apart and glued together behind length words.  The
    byte stream is word-aligned throughout and is kept here as an array of words. */
module ArmnCompress32 {
  import opened Words
  import opened BitStream
  import opened Grid
  import opened Fstzip
  import Rle
  import P = Parallelogram
  import Size = ParallelogramSize
  import Pack = ParallelogramPack
  import Unpack = ParallelogramUnpack

  const SAME_SIGN_POSITIVE: nat := 0x00
  const SAME_SIGN_NEGATIVE: nat := 0x10
  const DIFF_SIGN_PACKED: nat := 0x20
  const DIFF_SIGN_STREAM: nat := 0x30
  const SAME_EXPONENT: nat := 0x00
  const DIFF_EXPONENT_PACKED: nat := 0x08
  const DIFF_EXPONENT_STREAM: nat := 0x0C
  const MANTISSA_PACKED: nat := 0x00

  // ----- The parts of a word -----

  function SignOf(w: word): word { w / 0x8000_0000 }

  function ExponentOf(w: word): word { w / 0x80_0000 % 0x100 }

  /** The mantissa without the bits below the nbits kept. */
  function MantissaOf(w: word, nbits: nat): word
    requires nbits <= 23
  {
    ShrIsDiv(w % 0x80_0000, 23 - nbits);
    w % 0x80_0000 / Pow2(23 - nbits)
  }

  /** A word without its `drop` low bits. */
  function Cleared(w: word, drop: nat): word
  {
    ShrIsDiv(w, drop);
    DivMod(w, Pow2(drop));
    w / Pow2(drop) * Pow2(drop)
  }

  ghost function Signs(f: seq<word>): (s: seq<word>)
    ensures |s| == |f| && forall k | 0 <= k < |f| :: s[k] == SignOf(f[k])
  {
    seq(|f|, k requires 0 <= k < |f| => SignOf(f[k]))
  }

  ghost function Exponents(f: seq<word>, base: nat): (s: seq<word>)
    requires forall k | 0 <= k < |f| :: base <= ExponentOf(f[k])
    ensures |s| == |f| && forall k | 0 <= k < |f| :: s[k] == ExponentOf(f[k]) - base
  {
    seq(|f|, k requires 0 <= k < |f| => ExponentOf(f[k]) - base)
  }

  ghost function Mantissas(f: seq<word>, nbits: nat): (s: seq<word>)
    requires nbits <= 23
    ensures |s| == |f| && forall k | 0 <= k < |f| :: s[k] == MantissaOf(f[k], nbits)
  {
    seq(|f|, k requires 0 <= k < |f| => MantissaOf(f[k], nbits))
  }

  ghost predicate LeastExponent(f: seq<word>, base: nat)
  {
    base < 0x100 && forall k | 0 <= k < |f| :: base <= ExponentOf(f[k])
  }

  /** The bit operations of the packer pick these parts. */
  lemma PartsOfWord(w: word, nbits: nat)
    requires nbits <= 23
    ensures Shr(w, 31) == SignOf(w) < 2
    ensures And(Shr(w, 23), 0xFF) == ExponentOf(w)
    ensures Shr(And(w, 0x7F_FFFF), 23 - nbits) == MantissaOf(w, nbits) < Pow2(nbits)
  {
    Pow2Values();
    ShrIsDiv(w, 31);
    ShrIsDiv(w, 23);
    AndWithLowMask(Shr(w, 23), 8);
    AndWithLowMask(w, 23);
    ShrIsDiv(w % 0x80_0000, 23 - nbits);
    ShrBound(w % 0x80_0000, 23 - nbits, 23);
  }

  /** The bit operations of the unpacker put them back together. */
  lemma PartsJoined(w: word, nbits: nat)
    requires 1 <= nbits <= 23
    ensures var m := Shl(MantissaOf(w, nbits), 23 - nbits);
      Or(Or(Shl(SignOf(w), 31), Shl(ExponentOf(w), 23)), m) == Cleared(w, 23 - nbits)
    ensures Or(Or(Shl(SignOf(w), 31), Shl(ExponentOf(w), 23)), Shl(MantissaOf(w, nbits), 23 - nbits)) < WORD_BASE
  {
    hide Or, Shl, Pow2;
    Pow2Values();
    var s, e, x, drop := SignOf(w), ExponentOf(w), w % 0x80_0000, 23 - nbits;
    var p := Pow2(drop);
    ShlIsMul(s, 31, 0x8000_0000);
    ShlIsMul(e, 23, 0x80_0000);
    OrIsSum(s, e * 0x80_0000, 31);
    DivMod(x, p);
    SwapFactors(x / p, p);
    ShlIsMul(MantissaOf(w, nbits), drop, p);
    OrIsSum(s * 0x100 + e, x / p * p, 23);
    WordOfParts(w);
    Pow2Adds(nbits, drop);
    ClearedHigh(s * 0x100 + e, x, Pow2(nbits), p);
  }

  lemma SwapFactors(a: nat, b: nat)
    ensures a * b == b * a
  {
  }

  lemma WordOfParts(w: word)
    ensures w == (SignOf(w) * 0x100 + ExponentOf(w)) * 0x80_0000 + w % 0x80_0000
  {
    assert w / 0x80_0000 == w / 0x8000_0000 * 0x100 + w / 0x80_0000 % 0x100;
  }

  lemma ClearedHigh(h: nat, x: nat, q: nat, p: nat)
    requires p >= 1 && q * p == 0x80_0000
    ensures (h * 0x80_0000 + x) / p * p == h * 0x80_0000 + x / p * p
  {
    DivMod(x, p);
    assert h * (q * p) == p * (h * q);
    DistributeLeft(p, h * q + x / p, x / p);
    ModUniqueInt(p, h * q + x / p, x % p, h * 0x80_0000 + x);
  }

  // ----- What a compressed field looks like -----

  /** The words that a section of the stream takes after its length word: those of its
      bits and one more, from rounding the length up to whole words. */
  function SectionWords(bits: nat): nat
  {
    WordsFor(bits) + 1
  }

  /** The section of the signs, from word `at` up to word `next`. */
  ghost predicate SignsAt(z: seq<word>, at: nat, next: nat, code: nat, f: seq<word>)
  {
    if code == SAME_SIGN_POSITIVE then next == at && forall k | 0 <= k < |f| :: SignOf(f[k]) == 0
    else if code == SAME_SIGN_NEGATIVE then next == at && forall k | 0 <= k < |f| :: SignOf(f[k]) == 1
    else
      var bits := Rle.Code(Signs(f), 0);
      code == DIFF_SIGN_PACKED && next == at + 1 + SectionWords(|bits|) && next < |z| &&
      z[at] == 4 * SectionWords(|bits|) && Stored(z, at + 1, bits)
  }

  /** The section of the exponents, less the smallest of them. */
  ghost predicate ExponentsAt(z: seq<word>, at: nat, next: nat, code: nat, width: nat, base: nat, f: seq<word>,
                              ni: nat, nj: nat)
    requires LeastExponent(f, base)
  {
    if code == SAME_EXPONENT then next == at && forall k | 0 <= k < |f| :: ExponentOf(f[k]) == base
    else
      code == DIFF_EXPONENT_PACKED && P.IsField(P.Coder8, Exponents(f, base), ni, nj, width) &&
      var bits := P.FieldCode(P.Coder8, Exponents(f, base), ni, nj, width);
      next == at + 1 + SectionWords(|bits|) && next < |z| &&
      z[at] == 4 * SectionWords(|bits|) && Stored(z, at + 1, bits)
  }

  /** The section of the mantissas; the decoder does not look at its length word. */
  ghost predicate MantissasAt(z: seq<word>, at: nat, f: seq<word>, ni: nat, nj: nat, nbits: nat)
    requires nbits <= 23
  {
    P.IsField(P.Coder32, Mantissas(f, nbits), ni, nj, nbits) &&
    Holds(z, at + 1, P.FieldCode(P.Coder32, Mantissas(f, nbits), ni, nj, nbits))
  }

  /** Parameters of a compressed field, and where its sections start. */
  datatype Layout = Layout(base: nat, width: nat, signCode: nat, exponentCode: nat, exponentsAt: nat, mantissasAt: nat)

  ghost function SignCodeOf(f: seq<word>): nat
  {
    if forall k | 0 <= k < |f| :: SignOf(f[k]) == 0 then SAME_SIGN_POSITIVE
    else if forall k | 0 <= k < |f| :: SignOf(f[k]) == 1 then SAME_SIGN_NEGATIVE
    else DIFF_SIGN_PACKED
  }

  /** The smallest exponent, and the bits that the largest one needs above it. */
  ghost predicate IsExponentRange(f: seq<word>, base: nat, width: nat)
  {
    LeastExponent(f, base) && width <= 8 &&
    (exists k | 0 <= k < |f| :: ExponentOf(f[k]) == base) &&
    (forall k | 0 <= k < |f| :: ExponentOf(f[k]) - base < Pow2(width)) &&
    (width > 0 ==> exists k | 0 <= k < |f| :: ExponentOf(f[k]) - base >= Pow2(width - 1))
  }

  ghost function SignWords(f: seq<word>): nat
  {
    if SignCodeOf(f) == DIFF_SIGN_PACKED then 1 + SectionWords(|Rle.Code(Signs(f), 0)|) else 0
  }

  /** Length of the signs in bytes, without their length word. */
  ghost function SignsLength(f: seq<word>): nat
  {
    if SignCodeOf(f) == DIFF_SIGN_PACKED then 4 * SectionWords(|Rle.Code(Signs(f), 0)|) else 0
  }

  ghost function ExponentBits(f: seq<word>, ni: nat, nj: nat, base: nat, width: nat): nat
    requires ni > 0 && LeastExponent(f, base)
  {
    |P.FieldCode(P.Coder8, Exponents(f, base), ni, nj, width)|
  }

  /** The layout that the compressor gives to a field. */
  ghost predicate IsLayout(f: seq<word>, ni: nat, nj: nat, p: Layout)
  {
    ni > 0 && IsExponentRange(f, p.base, p.width) && p.signCode == SignCodeOf(f) &&
    p.exponentCode == (if p.width == 0 then SAME_EXPONENT else DIFF_EXPONENT_PACKED) &&
    p.exponentsAt == 2 + SignWords(f) &&
    p.mantissasAt == p.exponentsAt +
      (if p.width == 0 then 0 else 1 + SectionWords(ExponentBits(f, ni, nj, p.base, p.width)))
  }

  /** The code of the exponents takes more than a byte a point. */
  ghost predicate ExponentsTooLong(f: seq<word>, ni: nat, nj: nat, base: nat, width: nat)
    requires ni > 0 && LeastExponent(f, base)
  {
    width > 0 && 1 + 4 * WordsFor(ExponentBits(f, ni, nj, base, width)) > ni * nj
  }

  /** The packer of the mantissas finds too little of the space of the packed field left. */
  ghost predicate MantissasTooLong(f: seq<word>, ni: nat, nj: nat, znbits: nat, at: nat)
    requires ni > 0 && 10 <= znbits <= 32
  {
    P.GivesUp(P.Coder32, Mantissas(f, znbits - 9), ni, nj, znbits - 9, ni * nj * znbits / 32 - (at + 1))
  }

  /** When the field cannot be compressed. */
  ghost predicate TooLong(f: seq<word>, ni: nat, nj: nat, znbits: nat, p: Layout)
    requires IsLayout(f, ni, nj, p) && 10 <= znbits <= 32
  {
    ExponentsTooLong(f, ni, nj, p.base, p.width) || MantissasTooLong(f, ni, nj, znbits, p.mantissasAt)
  }

  /** Both codes are short enough: that of the exponents takes at most a byte a point, and after that of the
      mantissas enough words of the packed field are left for the widest tile. */
  ghost predicate ShortEnough(f: seq<word>, ni: nat, nj: nat, znbits: nat, p: Layout)
    requires IsLayout(f, ni, nj, p) && 10 <= znbits <= 32
  {
    (p.width > 0 ==> 1 + 4 * WordsFor(ExponentBits(f, ni, nj, p.base, p.width)) <= ni * nj) &&
    WordsFor(MantissaBits(f, ni, nj, znbits - 9)) + 1 + (24 + 9 * (znbits - 9)) / 32
      <= ni * nj * znbits / 32 - (p.mantissasAt + 1)
  }

  /** Then the field can be compressed. */
  lemma ShortFits(f: seq<word>, ni: nat, nj: nat, znbits: nat, p: Layout)
    requires IsLayout(f, ni, nj, p) && 10 <= znbits <= 32 && ni >= 16 && nj >= 16 && |f| == ni * nj
    requires ShortEnough(f, ni, nj, znbits, p)
    ensures !TooLong(f, ni, nj, znbits, p)
  {
    hide P.FieldCode, Pow2, MantissaOf, P.GivesUp, ExponentBits, IsLayout;
    MantissasAreField(f, ni, nj, znbits - 9);
    hide P.IsField;
    Size.EnoughLeft(Mantissas(f, znbits - 9), ni, nj, znbits - 9, ni * nj * znbits / 32 - (p.mantissasAt + 1));
  }

  lemma MantissasAreField(f: seq<word>, ni: nat, nj: nat, nbits: nat)
    requires ni >= 2 && nj >= 2 && |f| == ni * nj && 1 <= nbits <= 23
    ensures P.IsField(P.Coder32, Mantissas(f, nbits), ni, nj, nbits)
  {
    hide Pow2, MantissaOf;
    var m := Mantissas(f, nbits);
    forall k | 0 <= k < |m| ensures m[k] < Pow2(nbits) {
      PartsOfWord(f[k], nbits);
    }
  }

  /** The mantissas are too long if and only if there is a tile with errors after which the words of
      the packed field that are left are too few. */
  lemma MantissasTooLongIff(f: seq<word>, ni: nat, nj: nat, znbits: nat, at: nat)
    requires ni >= 2 && 10 <= znbits <= 32
    ensures MantissasTooLong(f, ni, nj, znbits, at) <==>
      Size.StopsFrom(Mantissas(f, znbits - 9), ni, nj, znbits - 9, ni * nj * znbits / 32 - (at + 1),
        MantissaBits(f, ni, nj, znbits - 9), 2, 2)
  {
    hide P.FieldCode, Pow2, MantissaOf, P.GivesUp, Size.StopsFrom;
    Size.GivesUpIff(Mantissas(f, znbits - 9), ni, nj, znbits - 9, ni * nj * znbits / 32 - (at + 1));
  }

  /** When a field cannot be compressed, in lengths alone: the code of the exponents takes more than a byte a
      point, or a tile of mantissas leaves too few words. */
  lemma TooLongIff(f: seq<word>, ni: nat, nj: nat, znbits: nat, p: Layout)
    requires IsLayout(f, ni, nj, p) && 10 <= znbits <= 32 && ni >= 2
    ensures TooLong(f, ni, nj, znbits, p) <==>
      (p.width > 0 && 1 + 4 * WordsFor(ExponentBits(f, ni, nj, p.base, p.width)) > ni * nj) ||
        Size.StopsFrom(Mantissas(f, znbits - 9), ni, nj, znbits - 9, ni * nj * znbits / 32 - (p.mantissasAt + 1),
          MantissaBits(f, ni, nj, znbits - 9), 2, 2)
  {
    hide P.FieldCode, Pow2, MantissaOf, P.GivesUp, Size.StopsFrom, IsLayout, ExponentBits, MantissaBits;
    MantissasTooLongIff(f, ni, nj, znbits, p.mantissasAt);
  }

  ghost function MantissaBits(f: seq<word>, ni: nat, nj: nat, nbits: nat): nat
    requires ni > 0 && nbits <= 23
  {
    |P.FieldCode(P.Coder32, Mantissas(f, nbits), ni, nj, nbits)|
  }

  function HeaderOf(nbits: nat): Header
  {
    Header(PARALLELOGRAM32, 1, 3, nbits, 1, 2)
  }

  /** The word of IEEE parameters. */
  function InfoWord(base: nat, width: nat, codes: nat): nat
  {
    Or(Or(Shl(base % 0x100, 16), Shl(width % 0x100, 8)), codes)
  }

  /** The stream holds field f with znbits bits kept of each word. */
  ghost predicate Compressed(z: seq<word>, f: seq<word>, ni: nat, nj: nat, znbits: nat, p: Layout)
  {
    10 <= znbits <= 32 && |z| >= 2 && |f| == ni * nj && IsLayout(f, ni, nj, p) &&
    z[0] == ToWord(HeaderOf(znbits - 9)) &&
    z[1] == InfoWord(p.base, p.width, p.signCode + p.exponentCode + MANTISSA_PACKED) &&
    SignsAt(z, 2, p.exponentsAt, p.signCode, f) &&
    ExponentsAt(z, p.exponentsAt, p.mantissasAt, p.exponentCode, p.width, p.base, f, ni, nj) &&
    MantissasAt(z, p.mantissasAt, f, ni, nj, znbits - 9)
  }

  lemma CodesJoined(signCode: nat, exponentCode: nat)
    requires signCode in {SAME_SIGN_POSITIVE, SAME_SIGN_NEGATIVE, DIFF_SIGN_PACKED}
    requires exponentCode in {SAME_EXPONENT, DIFF_EXPONENT_PACKED}
    ensures Or(Or(signCode, exponentCode), MANTISSA_PACKED) == signCode + exponentCode < 0x100
    ensures And(signCode + exponentCode, 0x30) == signCode
    ensures And(signCode + exponentCode, 0xC) == exponentCode
    ensures And(signCode + exponentCode, 0x3) == MANTISSA_PACKED
  {
    hide Or, And, Pow2;
    var x := signCode + exponentCode;
    Pow2Values();
    OrIsSum(signCode / 0x10, exponentCode, 4);
    OrIsSum(x, 0, 0);
    AndWithLowMask(x, 2);
    Pow2Small();
    AndEven(x, 6);
    AndEven(x / 2, 3);
    AndWithLowMask(x / 2 / 2, 2);
    AndEven(x, 0x18);
    AndEven(x / 2, 0xC);
    AndEven(x / 2 / 2, 6);
    AndEven(x / 2 / 2 / 2, 3);
    AndWithLowMask(x / 2 / 2 / 2 / 2, 2);
  }

  lemma InfoIsSum(base: nat, width: nat, codes: nat)
    requires base < 0x100 && width < 0x100 && codes < 0x100
    ensures InfoWord(base, width, codes) == base * 0x1_0000 + width * 0x100 + codes < WORD_BASE
  {
    hide Or, Shl, Pow2;
    Pow2Values();
    ShlIsMul(base, 16, 0x1_0000);
    ShlIsMul(width, 8, 0x100);
    OrIsSum(base, width * 0x100, 16);
    OrIsSum(base * 0x100 + width, codes, 8);
  }

  // ----- Compression -----

  /** The sign of a bitwise or, and of a bitwise and. */
  lemma SignsCombined(a: word, b: word)
    ensures Or(a, b) < WORD_BASE && And(a, b) < WORD_BASE
    ensures SignOf(Or(a, b)) == 0 <==> SignOf(a) == 0 && SignOf(b) == 0
    ensures SignOf(And(a, b)) == 1 <==> SignOf(a) == 1 && SignOf(b) == 1
  {
    hide Pow2, Shr;
    Pow2Values();
    OrBound(a, b, 32);
    AndBound(a, b);
    ShrOfOr(a, b, 31);
    ShrOfAnd(a, b, 31);
    ShrIsDiv(a, 31);
    ShrIsDiv(b, 31);
    ShrIsDiv(Or(a, b), 31);
    ShrIsDiv(And(a, b), 31);
    TruthTables(SignOf(a), SignOf(b));
  }

  lemma TruthTables(s: nat, t: nat)
    requires s < 2 && t < 2
    ensures Or(s, t) < 2 && And(s, t) < 2
    ensures Or(s, t) == 0 <==> s == 0 && t == 0
    ensures And(s, t) == 1 <==> s == 1 && t == 1
  {
    assert Or(1, 1) == 1 && And(1, 1) == 1;
  }

  /** Splits every word, and combines all of them to compare their signs. */
  method SplitWords(fld: array<word>, npts: nat, nbits: nat)
    returns (signe: array<word>, exposant2: array<word>, mantisse: array<word>, signeOr: word, signeAnd: word)
    requires 1 <= npts == fld.Length && 1 <= nbits <= 23
    ensures fresh(signe) && fresh(exposant2) && fresh(mantisse)
    ensures signe != exposant2 && signe != mantisse && exposant2 != mantisse
    ensures signe.Length == 2 * npts && exposant2.Length == npts && mantisse.Length == npts
    ensures signe[..npts] == Signs(fld[..])
    ensures forall k | 0 <= k < npts :: exposant2[k] == ExponentOf(fld[k])
    ensures mantisse[..] == Mantissas(fld[..], nbits)
    ensures SignOf(signeOr) == 0 <==> forall k | 0 <= k < npts :: SignOf(fld[k]) == 0
    ensures SignOf(signeAnd) == 1 <==> forall k | 0 <= k < npts :: SignOf(fld[k]) == 1
  {
    hide And, Or, Shr, Pow2, SignOf, ExponentOf, MantissaOf;
    signe, exposant2, mantisse := new word[2 * npts], new word[npts], new word[npts];
    signeOr, signeAnd := 0, 0xFFFFFFFF;
    NoSigns();
    for i := 0 to npts
      invariant forall k | 0 <= k < i :: signe[k] == SignOf(fld[k])
      invariant forall k | 0 <= k < i :: exposant2[k] == ExponentOf(fld[k])
      invariant forall k | 0 <= k < i :: mantisse[k] == And(fld[k], 0x7F_FFFF)
      invariant SignOf(signeOr) == 0 <==> forall k | 0 <= k < i :: SignOf(fld[k]) == 0
      invariant SignOf(signeAnd) == 1 <==> forall k | 0 <= k < i :: SignOf(fld[k]) == 1
    {
      var temp := fld[i];
      PartsOfWord(temp, 23);
      AndBound(temp, 0x7F_FFFF);
      AndBound(Shr(temp, 23), 0xFF);
      SignsCombined(signeOr, temp);
      SignsCombined(signeAnd, temp);
      signe[i] := Shr(temp, 31);
      signeOr := Or(signeOr, temp);
      signeAnd := And(signeAnd, temp);
      exposant2[i] := And(Shr(temp, 23), 0xFF);
      mantisse[i] := And(temp, 0x7F_FFFF);
    }
    if nbits < 23 {
      for i := 0 to npts
        invariant forall k | 0 <= k < npts :: signe[k] == SignOf(fld[k]) && exposant2[k] == ExponentOf(fld[k])
        invariant forall k | 0 <= k < npts ::
          mantisse[k] == if k < i then MantissaOf(fld[k], nbits) else And(fld[k], 0x7F_FFFF)
      {
        PartsOfWord(fld[i], nbits);
        mantisse[i] := Shr(mantisse[i], 23 - nbits);
      }
    } else {
      forall k | 0 <= k < npts ensures mantisse[k] == MantissaOf(fld[k], nbits) {
        PartsOfWord(fld[k], 23);
        assert Shr(mantisse[k], 0) == mantisse[k] by { ShrZero(mantisse[k]); }
      }
    }
  }

  lemma NoSigns()
    ensures SignOf(0) == 0 && SignOf(0xFFFFFFFF) == 1
  {
  }

  lemma ShrZero(v: nat)
    ensures Shr(v, 0) == v
  {
  }

  /** The smallest and the largest exponent, with points where they occur. */
  method RangeOfExponents(exposant2: array<word>, npts: nat)
    returns (expMin: word, expMax: word, ghost low: nat, ghost high: nat)
    requires 1 <= npts == exposant2.Length
    ensures low < npts && expMin == exposant2[low] && high < npts && expMax == exposant2[high]
    ensures forall k | 0 <= k < npts :: expMin <= exposant2[k] <= expMax
  {
    expMin, expMax, low, high := exposant2[0], exposant2[0], 0, 0;
    for i := 0 to npts
      invariant low < npts && expMin == exposant2[low] && high < npts && expMax == exposant2[high]
      invariant expMin <= expMax && forall k | 0 <= k < i :: expMin <= exposant2[k] <= expMax
    {
      if exposant2[i] < expMin { expMin := exposant2[i]; low := i; }
      if exposant2[i] > expMax { expMax := exposant2[i]; high := i; }
    }
  }

  lemma RangeIs(f: seq<word>, low: nat, high: nat, width: nat)
    requires low < |f| && high < |f| && width == BitLength(Max(0, ExponentOf(f[high]) - ExponentOf(f[low])))
    requires forall k | 0 <= k < |f| :: ExponentOf(f[low]) <= ExponentOf(f[k]) <= ExponentOf(f[high])
    ensures IsExponentRange(f, ExponentOf(f[low]), width)
  {
    hide Pow2, BitLength;
    var d := ExponentOf(f[high]) - ExponentOf(f[low]);
    Pow2Values();
    BitLengthBounds(d);
    BitLengthMost(d, 8);
    if width > 0 { assert d > 0 by { NoBits(); } }
  }

  lemma NoBits()
    ensures BitLength(0) == 0
  {
  }

  /** Subtracts the smallest exponent from all of them. */
  method SubtractBase(exposant2: array<word>, npts: nat, ghost f: seq<word>) returns (expBase: nat, nbitsNeeded: nat)
    requires 1 <= npts == exposant2.Length == |f|
    requires forall k | 0 <= k < npts :: exposant2[k] == ExponentOf(f[k])
    modifies exposant2
    ensures IsExponentRange(f, expBase, nbitsNeeded) && exposant2[..] == Exponents(f, expBase)
  {
    hide Pow2, ExponentOf, IsExponentRange, BitLength;
    NoBits();
    var expMin, expMax, low, high := RangeOfExponents(exposant2, npts);
    expBase := expMin;
    nbitsNeeded := if expMax == expMin then 0 else BitLength(expMax - expMin);
    RangeIs(f, low, high, nbitsNeeded);
    RangeFits(f, expBase, nbitsNeeded);
    for i := 0 to npts
      invariant forall k | 0 <= k < npts ::
        exposant2[k] == if k < i then ExponentOf(f[k]) - expBase else ExponentOf(f[k])
    {
      exposant2[i] := exposant2[i] - expBase;
    }
  }

  /** Sections stay in place while other words are written. */
  lemma SignsStill(z: seq<word>, z': seq<word>, at: nat, next: nat, code: nat, f: seq<word>)
    requires SignsAt(z, at, next, code, f) && |z'| == |z| && forall k | at <= k < next && k < |z| :: z'[k] == z[k]
    ensures SignsAt(z', at, next, code, f)
  {
    hide Rle.Code, Stored;
    if code == DIFF_SIGN_PACKED { StoredStill(z, z', at + 1, Rle.Code(Signs(f), 0)); }
  }

  lemma ExponentsStill(z: seq<word>, z': seq<word>, at: nat, next: nat, code: nat, width: nat, base: nat, f: seq<word>,
                       ni: nat, nj: nat)
    requires LeastExponent(f, base) && ExponentsAt(z, at, next, code, width, base, f, ni, nj)
    requires |z'| == |z| && forall k | at <= k < next && k < |z| :: z'[k] == z[k]
    ensures ExponentsAt(z', at, next, code, width, base, f, ni, nj)
  {
    hide P.FieldCode, Stored;
    if code == DIFF_EXPONENT_PACKED {
      StoredStill(z, z', at + 1, P.FieldCode(P.Coder8, Exponents(f, base), ni, nj, width));
    }
  }

  lemma MantissasStill(z: seq<word>, z': seq<word>, at: nat, f: seq<word>, ni: nat, nj: nat, nbits: nat)
    requires nbits <= 23 && MantissasAt(z, at, f, ni, nj, nbits)
    requires |z'| == |z| && forall k | at < k < |z| :: z'[k] == z[k]
    ensures MantissasAt(z', at, f, ni, nj, nbits)
  {
    hide P.FieldCode, Stored;
    StoredStill(z, z', at + 1, P.FieldCode(P.Coder32, Mantissas(f, nbits), ni, nj, nbits));
  }

  /** Rounds a length in bytes up to whole words. */
  function Rounded(lng: nat): (r: nat)
    ensures r % 4 == 0 && lng <= r < lng + 4
  {
    if lng % 4 != 0 then lng + (4 - lng % 4) else lng
  }

  /** The signs of a field that has both.  Storing the mask as it is would be another way,
      which the size of the run-length code rules out. */
  method PackMask(z: array<word>, signe: array<word>, npts: nat, ghost f: seq<word>) returns (cur: nat, lngSigne: nat)
    requires z != signe && 256 <= npts == |f| && signe.Length == 2 * npts && signe[..npts] == Signs(f)
    requires 2 * npts <= z.Length && npts < 0x4000_0000 && SignCodeOf(f) == DIFF_SIGN_PACKED
    modifies z
    ensures SignsAt(z[..], 2, cur, DIFF_SIGN_PACKED, f) && cur == 2 + SignWords(f)
    ensures 2 <= cur <= 4 + npts / 16 && lngSigne == SignsLength(f) < WORD_BASE
  {
    hide Rle.Code, Stored, SignOf;
    ghost var bits := Rle.Code(Signs(f), 0);
    cur := 3;
    MaskOfSigns(f);
    Rle.CodeBound(Signs(f), 0);
    Rle.NeverStored(Signs(f));
    lngSigne := Rle.Pack1bitRle(z, cur, signe, npts);
    if lngSigne > npts / 4 {
      assert false;
    }
    lngSigne := Rounded(lngSigne);
    cur := cur + lngSigne / 4;
    ghost var z0 := z[..];
    z[2] := lngSigne;
    StoredStill(z0, z[..], 3, bits);
  }

  lemma MaskOfSigns(f: seq<word>)
    ensures Rle.IsMask(Signs(f))
  {
  }

  /** The signs, unless they are all the same. */
  method PackSigns(z: array<word>, signe: array<word>, npts: nat, signeOr: word, signeAnd: word, ghost f: seq<word>)
    returns (cur: nat, lngSigne: nat, codeSigne: nat)
    requires z != signe && 256 <= npts == |f| && signe.Length == 2 * npts && signe[..npts] == Signs(f)
    requires 2 * npts <= z.Length && npts < 0x4000_0000
    requires SignOf(signeOr) == 0 <==> forall k | 0 <= k < npts :: SignOf(f[k]) == 0
    requires SignOf(signeAnd) == 1 <==> forall k | 0 <= k < npts :: SignOf(f[k]) == 1
    modifies z
    ensures SignsAt(z[..], 2, cur, codeSigne, f)
    ensures cur == 2 + SignWords(f) && codeSigne == SignCodeOf(f)
    ensures 2 <= cur <= 4 + npts / 16 && lngSigne == SignsLength(f) < WORD_BASE
  {
    hide Rle.Code, Stored, Shr, SignOf;
    PartsOfWord(signeOr, 23);
    PartsOfWord(signeAnd, 23);
    assert SignOf(f[0]) < 2 by { PartsOfWord(f[0], 23); }
    if Shr(signeOr, 31) == Shr(signeAnd, 31) {
      cur, lngSigne := 2, 0;
      codeSigne := if Shr(signeOr, 31) == 1 then SAME_SIGN_NEGATIVE else SAME_SIGN_POSITIVE;
    } else {
      cur, lngSigne := PackMask(z, signe, npts, f);
      codeSigne := DIFF_SIGN_PACKED;
    }
  }

  /** The exponents of a field that has several.  The packer gives up when their code takes
      more than a byte a point. */
  method PackExponentStream(z: array<word>, at: nat, exposant2: array<word>, ni: nat, nj: nat, ghost expBase: nat,
                            nbitsNeeded: nat, ghost f: seq<word>)
    returns (ok: bool, cur: nat)
    requires z != exposant2 && at < |f| && |f| < 0x4000_0000 && 2 * |f| <= z.Length
    requires LeastExponent(f, expBase) && exposant2[..] == Exponents(f, expBase)
    requires P.IsField(P.Coder8, exposant2[..], ni, nj, nbitsNeeded)
    requires at + 1 + (3 + 14 * |f|) / 32 < z.Length
    modifies z
    ensures forall k | 0 <= k < at :: z[k] == old(z[k])
    ensures ok <==> 1 + 4 * WordsFor(ExponentBits(f, ni, nj, expBase, nbitsNeeded)) <= ni * nj
    ensures ok ==> ExponentsAt(z[..], at, cur, DIFF_EXPONENT_PACKED, nbitsNeeded, expBase, f, ni, nj)
    ensures ok ==> cur == at + 1 + SectionWords(ExponentBits(f, ni, nj, expBase, nbitsNeeded)) <= at + 2 + |f| / 4
  {
    hide Size.ErrorsBelow, Size.CodeLimit;
    hide P.FieldCode, Stored, ExponentOf;
    ghost var bits := P.FieldCode(P.Coder8, Exponents(f, expBase), ni, nj, nbitsNeeded);
    P.FieldCodeBound(P.Coder8, exposant2[..], ni, nj, nbitsNeeded);
    cur := at + 1;
    var lngExposant := Pack.PackTokens(P.Coder8, z, cur, exposant2, ni, nj, nbitsNeeded, 0);
    if lngExposant > ni * nj {
      return false, cur;
    }
    lngExposant := Rounded(lngExposant);
    ghost var z0 := z[..];
    z[at] := lngExposant;
    StoredStill(z0, z[..], at + 1, bits);
    cur := cur + lngExposant / 4;
    ok := true;
  }

  /** The exponents, unless they are all the same. */
  method PackExponents(z: array<word>, at: nat, exposant2: array<word>, ni: nat, nj: nat, ghost expBase: nat,
                       nbitsNeeded: nat, ghost f: seq<word>)
    returns (ok: bool, cur: nat, codeExposant: nat)
    requires z != exposant2 && ni >= 16 && nj >= 16 && ni * nj == |f| && 2 <= at <= 4 + |f| / 16
    requires 256 <= |f| < 0x4000_0000 && 2 * |f| <= z.Length
    requires IsExponentRange(f, expBase, nbitsNeeded) && exposant2[..] == Exponents(f, expBase)
    modifies z
    ensures forall k | 0 <= k < at :: z[k] == old(z[k])
    ensures codeExposant == if nbitsNeeded == 0 then SAME_EXPONENT else DIFF_EXPONENT_PACKED
    ensures ok <==> !ExponentsTooLong(f, ni, nj, expBase, nbitsNeeded)
    ensures ok ==> ExponentsAt(z[..], at, cur, codeExposant, nbitsNeeded, expBase, f, ni, nj)
    ensures ok ==> at <= cur <= at + 2 + |f| / 4
    ensures ok ==>
      cur == at + if nbitsNeeded == 0 then 0 else 1 + SectionWords(ExponentBits(f, ni, nj, expBase, nbitsNeeded))
  {
    hide P.FieldCode, Stored, Pow2, ExponentOf;
    Pow2Small();
    if nbitsNeeded == 0 {
      ok, cur, codeExposant := true, at, SAME_EXPONENT;
    } else {
      codeExposant := DIFF_EXPONENT_PACKED;
      ok, cur := PackExponentStream(z, at, exposant2, ni, nj, expBase, nbitsNeeded, f);
    }
  }

  lemma Pow2Small()
    ensures Pow2(0) == 1 && Pow2(2) == 4
  {
  }

  lemma MantissasFit(z: seq<word>, at: nat, f: seq<word>, ni: nat, nj: nat, nbits: nat)
    requires nbits <= 23 && P.IsField(P.Coder32, Mantissas(f, nbits), ni, nj, nbits)
    requires at + 1 + (3 + 30 * |f|) / 32 < |z|
    requires Stored(z, at + 1, P.FieldCode(P.Coder32, Mantissas(f, nbits), ni, nj, nbits))
    ensures MantissasAt(z, at, f, ni, nj, nbits)
  {
    hide P.FieldCode, Stored, MantissaOf, Pow2;
    P.FieldCodeBound(P.Coder32, Mantissas(f, nbits), ni, nj, nbits);
  }

  /** The mantissas.  A result of 0 says that the code takes too much space. */
  method PackMantissas(z: array<word>, at: nat, mantisse: array<word>, ni: nat, nj: nat, znbits: nat,
                       ghost f: seq<word>)
    returns (lngMantisse: nat)
    requires z != mantisse && ni >= 16 && nj >= 16 && ni * nj == |f| && 2 <= at <= 6 + |f| / 16 + |f| / 4
    requires 256 <= |f| && 2 * |f| <= z.Length && 10 <= znbits <= 32
    requires mantisse[..] == Mantissas(f, znbits - 9)
    modifies z
    ensures forall k | 0 <= k <= at :: z[k] == old(z[k])
    ensures lngMantisse == 0 <==> MantissasTooLong(f, ni, nj, znbits, at)
    ensures lngMantisse != 0 ==> MantissasAt(z[..], at, f, ni, nj, znbits - 9)
    ensures lngMantisse != 0 ==> Rounded(lngMantisse) == 4 * SectionWords(MantissaBits(f, ni, nj, znbits - 9))
    ensures at + 1 + Rounded(lngMantisse) / 4 <= z.Length
  {
    hide P.FieldCode, Stored, Pow2, MantissaOf, P.GivesUp, MantissasAt;
    var nbits := znbits - 9;
    MantissasAreField(f, ni, nj, nbits);
    hide Size.ErrorsBelow, Size.CodeLimit;
    P.FieldCodeBound(P.Coder32, mantisse[..], ni, nj, nbits);
    var remainingSpace := ni * nj * znbits / 32 - (at + 1);
    lngMantisse := Pack.PackTokens(P.Coder32, z, at + 1, mantisse, ni, nj, nbits, remainingSpace);
    if lngMantisse != 0 { MantissasFit(z[..], at, f, ni, nj, nbits); }
  }

  /** `c_armn_compress32`: the length of the stream in bytes, or -1 when the field cannot be
      compressed.  The caller provides two words a point for the stream. */
  method Compress32(zstream: array<word>, fld: array<word>, ni: nat, nj: nat, znbits: nat)
    returns (zlng: int, ghost p: Layout)
    requires zstream != fld && fld.Length == ni * nj < 0x4000_0000 && 2 * ni * nj <= zstream.Length
    requires 10 <= znbits <= 32
    modifies zstream
    ensures ni < 16 || nj < 16 ==> zlng == -1
    ensures ni >= 16 && nj >= 16 ==> IsLayout(fld[..], ni, nj, p)
    ensures ni >= 16 && nj >= 16 ==> (zlng == -1 <==> TooLong(fld[..], ni, nj, znbits, p))
    ensures ni >= 16 && nj >= 16 && ShortEnough(fld[..], ni, nj, znbits, p) ==> zlng != -1
    ensures zlng != -1 ==> Compressed(zstream[..], fld[..], ni, nj, znbits, p)
    ensures zlng != -1 ==> zlng == 4 * (p.mantissasAt + 1 + SectionWords(MantissaBits(fld[..], ni, nj, znbits - 9)))
    ensures zlng <= 4 * zstream.Length
    ensures zlng != -1 ==> p.mantissasAt < zstream.Length && zstream[p.mantissasAt] == SignsLength(fld[..])
  {
    hide Pow2, SignsAt, ExponentsAt, MantissasAt, SignOf, ExponentOf, MantissaOf, ToWord, InfoWord, Or, Shl, SignCodeOf,
         SignWords, ExponentBits, MantissaBits, IsExponentRange, ExponentsTooLong, MantissasTooLong;
    p := Layout(0, 0, 0, 0, 0, 0);
    if ni < 16 || nj < 16 { return -1, p; }
    AtLeast256(ni, nj);
    var nbits := znbits - 9;
    var npts := ni * nj;
    ghost var f := fld[..];
    var signe, exposant2, mantisse, signeOr, signeAnd := SplitWords(fld, npts, nbits);
    var expBase, nbitsNeeded := SubtractBase(exposant2, npts, f);
    RangeFits(f, expBase, nbitsNeeded);
    var cur, lngSigne, codeSigne := PackSigns(zstream, signe, npts, signeOr, signeAnd, f);
    ghost var z1 := zstream[..];
    p := LayoutOf(f, ni, nj, expBase, nbitsNeeded);
    hide ShortEnough;
    if ShortEnough(f, ni, nj, znbits, p) { ShortFits(f, ni, nj, znbits, p); }
    var ok, codeExposant;
    ok, cur, codeExposant := PackExponents(zstream, cur, exposant2, ni, nj, expBase, nbitsNeeded, f);
    if !ok { return -1, p; }
    SignsStill(z1, zstream[..], 2, p.exponentsAt, codeSigne, f);
    ghost var z2 := zstream[..];
    var lngMantisse := PackMantissas(zstream, cur, mantisse, ni, nj, znbits, f);
    if lngMantisse == 0 { return -1, p; }
    SignsStill(z2, zstream[..], 2, p.exponentsAt, codeSigne, f);
    ExponentsStill(z2, zstream[..], p.exponentsAt, p.mantissasAt, codeExposant, nbitsNeeded, expBase, f, ni, nj);
    StoreHeader(zstream, cur, nbits, lngSigne, expBase, nbitsNeeded, codeSigne, codeExposant, f, ni, nj, p);
    zlng := 4 * (cur + 1) + Rounded(lngMantisse);
  }

  lemma RangeFits(f: seq<word>, base: nat, width: nat)
    requires IsExponentRange(f, base, width)
    ensures LeastExponent(f, base) && width <= 8
  {
  }

  ghost function LayoutOf(f: seq<word>, ni: nat, nj: nat, base: nat, width: nat): (p: Layout)
    requires ni > 0 && IsExponentRange(f, base, width)
    ensures IsLayout(f, ni, nj, p) && p.base == base && p.width == width
  {
    var exponentsAt := 2 + SignWords(f);
    Layout(base, width, SignCodeOf(f), if width == 0 then SAME_EXPONENT else DIFF_EXPONENT_PACKED, exponentsAt,
      exponentsAt + if width == 0 then 0 else 1 + SectionWords(ExponentBits(f, ni, nj, base, width)))
  }

  /** Stores the header and the length word of the mantissas, which by mistake holds the
      length of the signs. */
  method StoreHeader(zstream: array<word>, cur: nat, nbits: nat, lngSigne: word, expBase: nat, nbitsNeeded: nat,
                     codeSigne: nat, codeExposant: nat, ghost f: seq<word>, ghost ni: nat, ghost nj: nat,
                       ghost p: Layout)
    requires 2 <= p.exponentsAt <= cur < zstream.Length && 1 <= nbits <= 23 && |f| == ni * nj
    requires IsLayout(f, ni, nj, p) && expBase == p.base && nbitsNeeded == p.width && cur == p.mantissasAt
    requires codeSigne == p.signCode && codeExposant == p.exponentCode
    requires SignsAt(zstream[..], 2, p.exponentsAt, codeSigne, f)
    requires ExponentsAt(zstream[..], p.exponentsAt, cur, codeExposant, nbitsNeeded, expBase, f, ni, nj)
    requires MantissasAt(zstream[..], cur, f, ni, nj, nbits)
    modifies zstream
    ensures zstream[p.mantissasAt] == lngSigne
    ensures Compressed(zstream[..], f, ni, nj, nbits + 9, p)
  {
    hide Pow2, SignsAt, ExponentsAt, MantissasAt, SignOf, ExponentOf, MantissaOf, ToWord, InfoWord, Or, Shl, SignWords;
    hide ExponentBits;
    ghost var z := zstream[..];
    zstream[cur] := lngSigne;
    zstream[0] := ToWord(HeaderOf(nbits));
    CodesJoined(codeSigne, codeExposant);
    InfoIsSum(expBase, nbitsNeeded, codeSigne + codeExposant);
    zstream[1] := InfoWord(expBase, nbitsNeeded, Or(Or(codeSigne, codeExposant), MANTISSA_PACKED));
    SignsStill(z, zstream[..], 2, p.exponentsAt, codeSigne, f);
    ExponentsStill(z, zstream[..], p.exponentsAt, cur, codeExposant, nbitsNeeded, expBase, f, ni, nj);
    MantissasStill(z, zstream[..], cur, f, ni, nj, nbits);
  }

  /** The length word of the mantissas is right if and only if the signs are coded and their code
      takes as many words as that of the mantissas. */
  lemma LengthWordIff(f: seq<word>, ni: nat, nj: nat, nbits: nat)
    requires ni > 0 && nbits <= 23
    ensures SignsLength(f) == 4 * SectionWords(MantissaBits(f, ni, nj, nbits)) <==>
      SignCodeOf(f) == DIFF_SIGN_PACKED && WordsFor(|Rle.Code(Signs(f), 0)|) == WordsFor(MantissaBits(f, ni, nj, nbits))
  {
    hide Rle.Code, MantissaBits;
  }

  lemma AtLeast256(ni: nat, nj: nat)
    requires ni >= 16 && nj >= 16
    ensures ni * nj >= 256
  {
  }

  // ----- Decompression -----

  /** Reads the section of the signs. */
  method UnpackSigns(signe: array<word>, z: array<word>, at: nat, npts: nat, codeSigne: nat, ghost next: nat,
                     ghost f: seq<word>)
    returns (cur: nat)
    requires z != signe && npts == |f| <= signe.Length && SignsAt(z[..], at, next, codeSigne, f)
    modifies signe
    ensures cur == next && signe[..npts] == Signs(f)
    ensures codeSigne == SAME_SIGN_POSITIVE ==> forall k | 0 <= k < npts :: SignOf(f[k]) == 0
    ensures codeSigne == SAME_SIGN_NEGATIVE ==> forall k | 0 <= k < npts :: SignOf(f[k]) == 1
  {
    hide Rle.Code, Stored, SignOf;
    cur := at;
    if codeSigne == DIFF_SIGN_PACKED || codeSigne == DIFF_SIGN_STREAM {
      var lngSigne := z[cur];
      cur := cur + 1;
      MaskOfSigns(f);
      Rle.Unpack1bitRle(signe, z, cur, npts, Signs(f));
      cur := cur + lngSigne / 4;
    } else {
      for i := 0 to npts
        invariant forall k | 0 <= k < i :: signe[k] == SignOf(f[k])
      {
        signe[i] := if codeSigne == SAME_SIGN_POSITIVE then 0 else 1;
      }
    }
  }

  /** Adds the smallest exponent to all of them, in bytes. */
  method AddBase(exposant2: array<word>, npts: nat, expMin: nat, ghost f: seq<word>)
    requires npts == |f| <= exposant2.Length && LeastExponent(f, expMin) && exposant2[..npts] == Exponents(f, expMin)
    modifies exposant2
    ensures forall k | 0 <= k < npts :: exposant2[k] == ExponentOf(f[k])
  {
    hide ExponentOf;
    assert forall k | 0 <= k < npts :: exposant2[k] == exposant2[..npts][k];
    for i := 0 to npts
      invariant forall k | 0 <= k < npts ::
        exposant2[k] == if k < i then ExponentOf(f[k]) else ExponentOf(f[k]) - expMin
    {
      ExponentInByte(f[i]);
      exposant2[i] := (exposant2[i] + expMin) % 0x100;
    }
  }

  /** Reads the section of the exponents. */
  method UnpackExponents(exposant2: array<word>, z: array<word>, at: nat, ni: nat, nj: nat, codeExposant: nat,
                         width: nat, expMin: nat,
                         ghost next: nat, ghost f: seq<word>) returns (cur: nat)
    requires z != exposant2 && ni * nj == |f| <= exposant2.Length && LeastExponent(f, expMin)
    requires ExponentsAt(z[..], at, next, codeExposant, width, expMin, f, ni, nj)
    modifies exposant2
    ensures cur == next && forall k | 0 <= k < |f| :: exposant2[k] == ExponentOf(f[k])
  {
    hide P.FieldCode, Stored, ExponentOf, Pow2;
    var npts := ni * nj;
    cur := at;
    if codeExposant == DIFF_EXPONENT_PACKED || codeExposant == DIFF_EXPONENT_STREAM {
      var lngExposant := z[cur];
      cur := cur + 1;
      Unpack.UnpackTokens(P.Coder8, exposant2, z, cur, ni, nj, width, Exponents(f, expMin));
      cur := cur + lngExposant / 4;
      AddBase(exposant2, npts, expMin, f);
    } else {
      for i := 0 to npts
        invariant forall k | 0 <= k < i :: exposant2[k] == ExponentOf(f[k])
      {
        exposant2[i] := expMin % 0x100;
      }
    }
  }

  lemma ExponentInByte(w: word)
    ensures ExponentOf(w) < 0x100
  {
  }

  /** The parameters are found again in the first two words. */
  lemma ParametersRead(base: nat, width: nat, signCode: nat, exponentCode: nat, nbits: nat)
    requires base < 0x100 && width <= 8 && nbits < 32
    requires signCode in {SAME_SIGN_POSITIVE, SAME_SIGN_NEGATIVE, DIFF_SIGN_PACKED}
    requires exponentCode in {SAME_EXPONENT, DIFF_EXPONENT_PACKED}
    ensures OfWord(ToWord(HeaderOf(nbits))).nbits == nbits
    ensures var info := InfoWord(base, width, signCode + exponentCode + MANTISSA_PACKED);
      Shr(info, 16) == base && And(Shr(info, 8), 0xFF) == width &&
      And(And(info, 0xFF), 0x30) == signCode && And(And(info, 0xFF), 0xC) == exponentCode &&
      And(And(info, 0xFF), 0x3) == MANTISSA_PACKED
  {
    hide And, Shr, InfoWord, Pow2, ToWord, OfWord;
    var codes := signCode + exponentCode;
    HeaderRoundTrip(HeaderOf(nbits));
    InfoIsSum(base, width, codes);
    CodesJoined(signCode, exponentCode);
    var info := InfoWord(base, width, codes);
    Pow2Values();
    ShrIsDiv(info, 16);
    ShrIsDiv(info, 8);
    AndWithLowMask(Shr(info, 8), 8);
    AndWithLowMask(info, 8);
    QuotientIs(info, 0x1_0000, base, width * 0x100 + codes);
    QuotientIs(info, 0x100, base * 0x100 + width, codes);
    QuotientIs(base * 0x100 + width, 0x100, base, width);
  }

  /** What the first two words of a stream say: method 5, version 2 and the width of the mantissas; then the smallest
      exponent, the width of the exponents above it, 0, 1 or 2 for signs that are all 0, all 1 or mixed, and 8
      unless all the exponents are the same. */
  lemma FirstWords(z: seq<word>, f: seq<word>, ni: nat, nj: nat, znbits: nat, p: Layout)
    requires Compressed(z, f, ni, nj, znbits, p)
    ensures |z| >= 2 && OfWord(z[0]) == Header(5, 1, 3, znbits - 9, 1, 2)
    ensures z[1] / 0x1_0000 == p.base && z[1] / 0x100 % 0x100 == p.width
    ensures z[1] % 0x100 / 0x10 == if forall k | 0 <= k < |f| :: f[k] < 0x8000_0000 then 0
      else if forall k | 0 <= k < |f| :: f[k] >= 0x8000_0000 then 1 else 2
    ensures z[1] % 0x10 == if forall k | 0 <= k < |f| :: ExponentOf(f[k]) == p.base then 0 else 8
  {
    hide SignsAt, ExponentsAt, MantissasAt, ToWord, OfWord, InfoWord, IsLayout, Pow2, ExponentOf;
    HeaderRoundTrip(HeaderOf(znbits - 9));
    CodesOfField(f, ni, nj, p);
    LayoutParameters(f, ni, nj, p);
    InfoIsSum(p.base, p.width, p.signCode + p.exponentCode);
    InfoFields(p.base, p.width, p.signCode + p.exponentCode);
  }

  lemma InfoFields(base: nat, width: nat, codes: nat)
    requires base < 0x100 && width < 0x100 && codes < 0x100
    ensures var info := base * 0x1_0000 + width * 0x100 + codes;
      info / 0x1_0000 == base && info / 0x100 % 0x100 == width && info % 0x100 == codes && info % 0x10 == codes % 0x10
  {
    var info := base * 0x1_0000 + width * 0x100 + codes;
    QuotientIs(info, 0x1_0000, base, width * 0x100 + codes);
    QuotientIs(info, 0x100, base * 0x100 + width, codes);
    QuotientIs(base * 0x100 + width, 0x100, base, width);
    LowDigit(base * 0x100 + width, codes, info);
  }

  lemma LowDigit(high: nat, low: nat, w: nat)
    requires w == high * 0x100 + low
    ensures w % 0x10 == low % 0x10
  {
    QuotientIs(w, 0x10, high * 0x10 + low / 0x10, low % 0x10);
  }

  lemma CodesOfField(f: seq<word>, ni: nat, nj: nat, p: Layout)
    requires IsLayout(f, ni, nj, p)
    ensures p.signCode / 0x10 == if forall k | 0 <= k < |f| :: f[k] < 0x8000_0000 then 0
      else if forall k | 0 <= k < |f| :: f[k] >= 0x8000_0000 then 1 else 2
    ensures p.signCode % 0x10 == 0
    ensures p.exponentCode == if forall k | 0 <= k < |f| :: ExponentOf(f[k]) == p.base then 0 else 8
  {
    hide ExponentBits, SignWords, ExponentOf;
    assert forall w: word :: SignOf(w) == 0 <==> w < 0x8000_0000;
    assert forall w: word :: SignOf(w) == 1 <==> w >= 0x8000_0000;
    assert Pow2(0) == 1;
    if p.width > 0 {
      var k :| 0 <= k < |f| && ExponentOf(f[k]) - p.base >= Pow2(p.width - 1);
    }
  }

  lemma LayoutParameters(f: seq<word>, ni: nat, nj: nat, p: Layout)
    requires IsLayout(f, ni, nj, p)
    ensures LeastExponent(f, p.base) && p.width <= 8
    ensures p.signCode in {SAME_SIGN_POSITIVE, SAME_SIGN_NEGATIVE, DIFF_SIGN_PACKED}
    ensures p.exponentCode in {SAME_EXPONENT, DIFF_EXPONENT_PACKED}
  {
  }

  /** `c_armn_uncompress32`: restores every word but the bits that were not kept. */
  method Uncompress32(fld: array<word>, zstream: array<word>, ni: nat, nj: nat, ghost znbits: nat, ghost f: seq<word>,
                      ghost p: Layout)
    returns (npts: int)
    requires fld != zstream && fld.Length == ni * nj && Compressed(zstream[..], f, ni, nj, znbits, p)
    modifies fld
    ensures npts == ni * nj
    ensures forall k | 0 <= k < ni * nj :: fld[k] == Cleared(f[k], 32 - znbits)
  {
    hide Pow2, SignsAt, ExponentsAt, MantissasAt, SignOf, ExponentOf, MantissaOf, ToWord, OfWord, InfoWord;
    hide Or, And, Shr, Shl, Cleared, IsLayout;
    LayoutParameters(f, ni, nj, p);
    npts := ni * nj;
    var signe, exposant2, mantisse := new word[2 * npts], new word[2 * npts], new word[2 * npts];
    ParametersRead(p.base, p.width, p.signCode, p.exponentCode, znbits - 9);
    var nbits := OfWord(zstream[0]).nbits;
    var info := zstream[1];
    var expMin, width := Shr(info, 16), And(Shr(info, 8), 0xFF);
    var codes := And(info, 0xFF);
    var codeSigne, codeExposant := And(codes, 0x30), And(codes, 0xC);
    var cur := UnpackSigns(signe, zstream, 2, npts, codeSigne, p.exponentsAt, f);
    cur := UnpackExponents(exposant2, zstream, cur, ni, nj, codeExposant, width, expMin, p.mantissasAt, f);
    UnpackMantissas(mantisse, zstream, cur + 1, ni, nj, nbits, f);
    assert forall k | 0 <= k < npts :: signe[k] == signe[..npts][k] && mantisse[k] == mantisse[..npts][k];
    JoinWords(fld, codeSigne, signe, exposant2, mantisse, npts, nbits, f);
  }

  /** Puts the parts of every word back together.  A field of one sign does not look at the
      array of signs. */
  method JoinWords(fld: array<word>, codeSigne: nat, signe: array<word>, exposant2: array<word>, mantisse: array<word>,
                   npts: nat, nbits: nat, ghost f: seq<word>)
    requires fld != signe && fld != exposant2 && fld != mantisse && npts == |f| == fld.Length && 1 <= nbits <= 23
    requires npts <= signe.Length && npts <= exposant2.Length && npts <= mantisse.Length
    requires forall k | 0 <= k < npts ::
      signe[k] == SignOf(f[k]) && exposant2[k] == ExponentOf(f[k]) && mantisse[k] == MantissaOf(f[k], nbits)
    requires codeSigne == SAME_SIGN_POSITIVE ==> forall k | 0 <= k < npts :: SignOf(f[k]) == 0
    requires codeSigne == SAME_SIGN_NEGATIVE ==> forall k | 0 <= k < npts :: SignOf(f[k]) == 1
    modifies fld
    ensures forall k | 0 <= k < npts :: fld[k] == Cleared(f[k], 23 - nbits)
  {
    hide SignOf, ExponentOf, MantissaOf, Or, Shl, Cleared, Pow2;
    SignBits();
    for i := 0 to npts
      invariant forall k | 0 <= k < i :: fld[k] == Cleared(f[k], 23 - nbits)
    {
      PartsJoined(f[i], nbits);
      var temp: word;
      if codeSigne == SAME_SIGN_POSITIVE {
        temp := 0;
      } else if codeSigne == SAME_SIGN_NEGATIVE {
        temp := 0x80000000;
      } else {
        temp := Shl(signe[i], 31);
      }
      fld[i] := Or(Or(temp, Shl(exposant2[i], 23)), Shl(mantisse[i], 23 - nbits));
    }
  }

  lemma SignBits()
    ensures Shl(0, 31) == 0 && Shl(1, 31) == 0x80000000
  {
    hide Shl, Pow2;
    Pow2Values();
    ShlIsMul(0, 31, 0x8000_0000);
    ShlIsMul(1, 31, 0x8000_0000);
  }

  method UnpackMantissas(mantisse: array<word>, z: array<word>, start: nat, ni: nat, nj: nat, nbits: nat,
                         ghost f: seq<word>)
    requires z != mantisse && ni * nj == |f| <= mantisse.Length && nbits <= 23 && 1 <= start
    requires MantissasAt(z[..], start - 1, f, ni, nj, nbits)
    modifies mantisse
    ensures mantisse[..|f|] == Mantissas(f, nbits)
  {
    hide P.FieldCode, Stored, MantissaOf, Pow2;
    Unpack.UnpackTokens(P.Coder32, mantisse, z, start, ni, nj, nbits, Mantissas(f, nbits));
  }

  /** Compressing a field and uncompressing the stream clears the bits that were not kept, and
      nothing else; with 32 bits kept it restores the field. */
  method RoundTrip32(zstream: array<word>, fld: array<word>, restored: array<word>, ni: nat, nj: nat, znbits: nat)
    returns (zlng: int)
    requires zstream != fld && restored != fld && restored != zstream
    requires fld.Length == restored.Length == ni * nj < 0x4000_0000
    requires 2 * ni * nj <= zstream.Length && 10 <= znbits <= 32
    modifies zstream, restored
    ensures zlng != -1 ==> forall k | 0 <= k < ni * nj :: restored[k] == Cleared(fld[k], 32 - znbits)
    ensures zlng != -1 && znbits == 32 ==> restored[..] == fld[..]
  {
    hide Compressed, Cleared;
    ghost var f, p := fld[..], Layout(0, 0, 0, 0, 0, 0);
    zlng, p := Compress32(zstream, fld, ni, nj, znbits);
    if zlng != -1 {
      var npts := Uncompress32(restored, zstream, ni, nj, znbits, f, p);
      NothingCleared();
    }
  }

  lemma NothingCleared()
    ensures forall w: word :: Cleared(w, 0) == w
  {
  }
}
