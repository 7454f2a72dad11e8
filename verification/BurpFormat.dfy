/** Block headers of a report, and the choice of the width of packed values. */
module BurpFormat {
  import opened Words
  import opened Grid

  const NBENTR: nat := 320
  const NBENTB: nat := 128
  const DIMENT: nat := 4
  const GROSNELE: nat := 128
  const GROSDIM: nat := 256
  const MISSING: word := 0xFFFF_FFFF

  const BURP_ERR_BNUM: int := -33
  const BURP_ERR_CMPR: int := -41
  const BURP_ERR_BDESC: int := -43

  datatype BlockHeader = BlockHeader(bfamdesc: nat, btyp: nat, nbit: nat, nt: nat, datyp: nat, bit0: nat, flag: nat,
                                     nele: nat, nval: nat, elem1: nat, elem2: nat, elem3: nat)

  /** What the bit fields can keep. */
  predicate HeaderFits(h: BlockHeader)
  {
    h.bfamdesc < 0x1000 && h.btyp < 0x8000 && h.nbit < 32 && h.nt < 0x100 && h.datyp < 16 && h.bit0 < 0x10_0000 &&
    h.flag < 2 && h.nele < 0x80 && h.nval < 0x100 && h.elem1 < 0x1_0000 && h.elem2 < 0x1_0000 && h.elem3 < 0x1_0000
  }

  /** The four words of a header, on a little-endian machine. */
  function ToWords(h: BlockHeader): (ws: seq<word>)
    requires HeaderFits(h)
    ensures |ws| == DIMENT
  {
    [h.nbit + 0x20 * h.btyp + 0x10_0000 * h.bfamdesc,
     h.bit0 + 0x10_0000 * h.datyp + 0x100_0000 * h.nt,
     h.elem1 + 0x1_0000 * h.nval + 0x100_0000 * h.nele + 0x8000_0000 * h.flag,
     h.elem3 + 0x1_0000 * h.elem2]
  }

  function OfWords(ws: seq<word>): (h: BlockHeader)
    requires |ws| == DIMENT
    ensures HeaderFits(h)
  {
    BlockHeader(ws[0] / 0x10_0000, ws[0] / 0x20 % 0x8000, ws[0] % 0x20, ws[1] / 0x100_0000, ws[1] / 0x10_0000 % 0x10,
      ws[1] % 0x10_0000,
      ws[2] / 0x8000_0000, ws[2] / 0x100_0000 % 0x80, ws[2] / 0x1_0000 % 0x100, ws[2] % 0x1_0000, ws[3] / 0x1_0000,
        ws[3] % 0x1_0000)
  }

  lemma HeaderReadBack(h: BlockHeader)
    requires HeaderFits(h)
    ensures OfWords(ToWords(h)) == h
  {
    ThreeFields(h.nbit, 0x20, h.btyp, 0x8000, h.bfamdesc);
    ThreeFields(h.bit0, 0x10_0000, h.datyp, 0x10, h.nt);
    ThreeFields(h.elem1, 0x1_0000, h.nval, 0x100, h.nele + 0x80 * h.flag);
    ModUnique(0x100_0000, h.nele + 0x80 * h.flag, h.elem1 + 0x1_0000 * h.nval);
    ModUnique(0x80, h.flag, h.nele);
    ModUnique(0x8000_0000, h.flag, h.elem1 + 0x1_0000 * h.nval + 0x100_0000 * h.nele);
    ModUnique(0x1_0000, h.elem2, h.elem3);
  }

  /** Bit by bit, from the top of each word. */
  lemma HeaderBits(h: BlockHeader)
    requires HeaderFits(h)
    ensures Bits(ToWords(h)[0], 32) == Bits(h.bfamdesc, 12) + Bits(h.btyp, 15) + Bits(h.nbit, 5)
    ensures Bits(ToWords(h)[1], 32) == Bits(h.nt, 8) + Bits(h.datyp, 4) + Bits(h.bit0, 20)
    ensures Bits(ToWords(h)[2], 32) == Bits(h.flag, 1) + Bits(h.nele, 7) + Bits(h.nval, 8) + Bits(h.elem1, 16)
    ensures Bits(ToWords(h)[3], 32) == Bits(h.elem2, 16) + Bits(h.elem3, 16)
  {
    hide Bits, Pow2, ToWords;
    WordsAre(h);
    FirstBits(h);
    LastBits(h);
  }

  lemma FirstBits(h: BlockHeader)
    requires HeaderFits(h)
    ensures Bits(h.nbit + 0x20 * (h.btyp + 0x8000 * h.bfamdesc), 32)
         == Bits(h.bfamdesc, 12) + Bits(h.btyp, 15) + Bits(h.nbit, 5)
    ensures Bits(h.bit0 + 0x10_0000 * (h.datyp + 16 * h.nt), 32) == Bits(h.nt, 8) + Bits(h.datyp, 4) + Bits(h.bit0, 20)
  {
    hide Bits, Pow2;
    FieldPowers();
    ThreeJoined(h.bfamdesc, h.btyp, h.nbit, 32, 15, 5, 0x8000, 0x20);
    ThreeJoined(h.nt, h.datyp, h.bit0, 32, 4, 20, 16, 0x10_0000);
  }

  lemma LastBits(h: BlockHeader)
    requires HeaderFits(h)
    ensures Bits(h.elem1 + 0x1_0000 * (h.nval + 0x100 * (h.nele + 0x80 * h.flag)), 32)
         == Bits(h.flag, 1) + Bits(h.nele, 7) + Bits(h.nval, 8) + Bits(h.elem1, 16)
    ensures Bits(h.elem3 + 0x1_0000 * h.elem2, 32) == Bits(h.elem2, 16) + Bits(h.elem3, 16)
  {
    hide Bits, Pow2;
    FieldPowers();
    Pow2Values();
    ThreeJoined(h.nele + 0x80 * h.flag, h.nval, h.elem1, 32, 8, 16, 0x100, 0x1_0000);
    BitsJoined(h.flag, h.nele, 8, 7);
    BitsJoined(h.elem2, h.elem3, 32, 16);
  }

  lemma WordsAre(h: BlockHeader)
    requires HeaderFits(h)
    ensures ToWords(h)[0] == h.nbit + 0x20 * (h.btyp + 0x8000 * h.bfamdesc)
    ensures ToWords(h)[1] == h.bit0 + 0x10_0000 * (h.datyp + 16 * h.nt)
    ensures ToWords(h)[2] == h.elem1 + 0x1_0000 * (h.nval + 0x100 * (h.nele + 0x80 * h.flag))
    ensures ToWords(h)[3] == h.elem3 + 0x1_0000 * h.elem2
  {
  }

  /** Three fields of a word, from the low end. */
  lemma ThreeFields(a: nat, m: nat, b: nat, n: nat, c: nat)
    requires (m, n) in {(0x20, 0x8000), (0x10_0000, 0x10), (0x1_0000, 0x100)} && a < m && b < n
    ensures var w := a + m * b + m * n * c;
      w % m == a && w / m % n == b && w / (m * n) == c
  {
    var w := a + m * b + m * n * c;
    assert w == m * (b + n * c) + a;
    ModUnique(m, b + n * c, a);
    ModUnique(n, c, b);
    assert w == m * n * c + (a + m * b);
    assert a + m * b < m * n by { MulAtMost(b + 1, n, m); }
    ModUnique(m * n, c, a + m * b);
  }

  /** The family is stored with its halves exchanged, and read back the same way. */
  function SwapHalves(bfam: nat): nat
  {
    bfam % 64 * 64 + bfam / 64 % 64
  }

  /** Bit by bit: the six low bits of the family come first, then the six above them. */
  lemma FamilyBits(bfam: nat)
    ensures Bits(SwapHalves(bfam), 12) == Bits(bfam, 12)[6..] + Bits(bfam, 12)[..6]
  {
    hide Bits, SwapHalves, Shr;
    HalvesAre(bfam);
    assert Pow2(6) == 64;
    SixBits(bfam % 64, bfam / 64 % 64, bfam, 64);
    SixBits(0, bfam / 64 % 64, bfam / 64, 64);
    BitsSplit(bfam, 12, 6);
    TwoParts(Bits(bfam / 64, 6), Bits(bfam, 6));
  }

  lemma SixBits(high: nat, low: nat, v: nat, p: nat)
    requires p == Pow2(6)
    ensures low < p ==> Bits(low + p * high, 12) == Bits(high, 6) + Bits(low, 6)
    ensures Bits(v % p, 6) == Bits(v, 6) && Shr(v, 6) == v / p
  {
    hide Bits, Pow2, Shr;
    if low < p { BitsJoined(high, low, 12, 6); }
    BitsLow(v, 6);
    ShrIsDiv(v, 6);
  }

  lemma HalvesAre(bfam: nat)
    ensures SwapHalves(bfam) == bfam / 64 % 64 + 64 * (bfam % 64)
  {
  }

  lemma TwoParts(a: seq<bool>, b: seq<bool>)
    requires |a| == 6
    ensures (a + b)[6..] == b && (a + b)[..6] == a
  {
  }

  lemma FamilyReadBack(bfam: nat)
    ensures SwapHalves(bfam) < 0x1000 && SwapHalves(SwapHalves(bfam)) == bfam % 0x1000
  {
    var low, high, rest := bfam % 64, bfam / 64 % 64, bfam / 64 / 64;
    DivMod(bfam, 64);
    DivMod(bfam / 64, 64);
    ModUnique(64, low, high);
    ModUnique(64, 0, low);
    ModUnique(0x1000, rest, 64 * high + low);
  }

  // ----- Widths -----

  /** Values that can be told from a missing one once packed on n bits. */
  ghost predicate Encodable(values: seq<word>, n: nat)
  {
    1 <= n <= 32 && forall k | 0 <= k < |values| :: values[k] == MISSING || values[k] < Pow2(n) - 1
  }

  lemma EncodableWidth(values: seq<word>, n: nat)
    requires Encodable(values, n)
    ensures 1 <= n <= 32
  {
  }

  lemma AllEncodable32(values: seq<word>)
    ensures Encodable(values, 32)
  {
    Pow2Values();
  }

  /** The largest and the smallest value, as signed numbers. */
  method Extremes(tblval: seq<word>) returns (tblmin: int, tblmax: int)
    requires tblval != []
    ensures forall k | 0 <= k < |tblval| :: tblmin <= Signed(tblval[k]) <= tblmax
    ensures exists k | 0 <= k < |tblval| :: Signed(tblval[k]) == tblmin
    ensures exists k | 0 <= k < |tblval| :: Signed(tblval[k]) == tblmax
    ensures -0x8000_0000 <= tblmin <= tblmax < 0x8000_0000
  {
    tblmin, tblmax := Signed(tblval[0]), Signed(tblval[0]);
    for i := 0 to |tblval|
      invariant tblmin <= tblmax && forall k | 0 <= k < i :: tblmin <= Signed(tblval[k]) <= tblmax
      invariant exists k | 0 <= k < |tblval| :: Signed(tblval[k]) == tblmin
      invariant exists k | 0 <= k < |tblval| :: Signed(tblval[k]) == tblmax
    {
      tblmax := Max(Signed(tblval[i]), tblmax);
      tblmin := if Signed(tblval[i]) < tblmin then Signed(tblval[i]) else tblmin;
    }
  }

  function Lesser(x: nat, y: nat): nat
  {
    if x < y then x else y
  }

  /** One bit more than the largest value needs when it is all ones. */
  function Needed(tblmax: nat): nat
  {
    var needed := BitLength(tblmax);
    if tblmax == Pow2(needed) - 1 then needed + 1 else needed
  }

  lemma NeededLeavesRoom(tblmax: nat)
    requires tblmax < 0x8000_0000
    ensures 1 <= Needed(tblmax) <= 32 && tblmax < Pow2(Needed(tblmax)) - 1
    ensures tblmax == 0 || tblmax >= Pow2(Needed(tblmax) - 1) - 1
  {
    hide Pow2, BitLength;
    Pow2Values();
    BitLengthBounds(tblmax);
    BitLengthMost(tblmax, 31);
    NoBits();
    Pow2Step(BitLength(tblmax) + 1);
  }

  lemma NoBits()
    ensures BitLength(0) == 0 && Pow2(0) == 1
  {
  }

  /** Whether `burp_nbit_datyp` keeps unsigned integers as they are asked for: either on
      32 bits, or none is below -1. */
  predicate Unsigned(tblval: seq<word>, nbits: nat)
  {
    nbits == 32 || forall k | 0 <= k < |tblval| :: Signed(tblval[k]) >= -1
  }

  ghost function Largest(tblval: seq<word>): (m: int)
    requires tblval != []
    ensures m < 0x8000_0000 && forall k | 0 <= k < |tblval| :: Signed(tblval[k]) <= m
    ensures exists k | 0 <= k < |tblval| :: Signed(tblval[k]) == m
  {
    var n := |tblval| - 1;
    if n == 0 then Signed(tblval[0]) else Max(Signed(tblval[n]), Largest(tblval[..n]))
  }

  /** The width that unsigned integers are packed on: what is asked for, or what the largest
      needs so that none looks missing. */
  ghost function Width(tblval: seq<word>, inbits: nat): nat
    requires tblval != []
  {
    if inbits == 32 || Largest(tblval) < 0 || inbits > Needed(Largest(tblval)) then inbits else Needed(Largest(tblval))
  }

  /** Some bit is asked for, or some value is not missing. */
  ghost predicate HasWidth(tblval: seq<word>, inbits: nat)
    requires tblval != []
  {
    inbits >= 1 || Largest(tblval) >= 0
  }

  /** `burp_nbit_datyp` for integers (types 2 and 4).  Values below -1 change the type. */
  method NbitDatyp(inbits: nat, indatyp: nat, tblval: seq<word>) returns (err: int, nbits: nat, datyp: nat)
    requires inbits <= 32 && indatyp == 2 && tblval != []
    ensures Unsigned(tblval, inbits) ==>
      err == 0 && datyp == 2 && inbits <= nbits <= 32 && nbits == Width(tblval, inbits)
    ensures Unsigned(tblval, inbits) && HasWidth(tblval, inbits) ==> Encodable(tblval, nbits)
    ensures !Unsigned(tblval, inbits) ==> datyp == 4 || err == BURP_ERR_CMPR
  {
    hide Pow2, BitLength, Needed, Largest;
    nbits, datyp, err := inbits, indatyp, 0;
    if datyp == 2 && nbits == 32 {
      AllEncodable32(tblval);
      return;
    }
    var tblmin, tblmax := Extremes(tblval);
    assert tblmax == Largest(tblval);
    if tblmin == tblmax && tblmin == -1 {
      if inbits >= 1 { AllMissing(tblval, inbits); }
      return;
    }
    if tblmin < -1 {
      tblmax := Max(tblmax, -tblmin);
      datyp := 4;
    }
    var needed := BitLength(Abs(tblmax));
    if tblmax == Pow2(needed) - 1 { needed := needed + 1; }
    if datyp == 2 { WidthEnough(tblval, tblmax, inbits); }
    nbits := needed;
    if datyp == 4 {
      nbits := nbits + 1;
      if nbits > 31 { return BURP_ERR_CMPR, 32, 2; }
    }
    nbits := Lesser(nbits, 32);
    nbits := if inbits > nbits then inbits else nbits;
  }

  /** The width is at least what is asked for, and lets no value look missing exactly when
      there is one: without, every value is missing and no bit is asked for, */
  lemma WidthIsEnough(tblval: seq<word>, inbits: nat)
    requires tblval != [] && inbits <= 32 && Unsigned(tblval, inbits)
    ensures inbits <= Width(tblval, inbits) <= 32
    ensures Encodable(tblval, Width(tblval, inbits)) <==> HasWidth(tblval, inbits)
  {
    hide Pow2, BitLength, Needed, Largest;
    if inbits == 32 {
      AllEncodable32(tblval);
    } else if Largest(tblval) >= 0 {
      WidthEnough(tblval, Largest(tblval), inbits);
    } else if inbits >= 1 {
      AllMissing(tblval, inbits);
    }
  }

  /** and one bit less would make the largest value look missing, or lose some of it. */
  lemma WidthIsLeast(tblval: seq<word>, inbits: nat, n: nat)
    requires tblval != [] && inbits <= n < Width(tblval, inbits) && Unsigned(tblval, inbits)
    ensures !Encodable(tblval, n)
  {
    hide Largest;
    var m := Largest(tblval);
    NeededLeavesRoom(m);
    if n >= 1 {
      Pow2Monotonic(n, Needed(m) - 1);
      hide Pow2, Needed;
      var k :| 0 <= k < |tblval| && Signed(tblval[k]) == m;
      assert m >= Pow2(n) - 1;
      assert tblval[k] == m;
    }
  }

  lemma AllMissing(tblval: seq<word>, n: nat)
    requires 1 <= n <= 32 && forall k | 0 <= k < |tblval| :: Signed(tblval[k]) == -1
    ensures Encodable(tblval, n)
  {
  }

  lemma WidthEnough(tblval: seq<word>, tblmax: nat, inbits: nat)
    requires tblmax < 0x8000_0000 && inbits <= 32 && forall k | 0 <= k < |tblval| :: -1 <= Signed(tblval[k]) <= tblmax
    ensures 1 <= Needed(tblmax) <= 32
    ensures Needed(tblmax) == if tblmax == Pow2(BitLength(tblmax)) - 1 then BitLength(tblmax) + 1 else BitLength(tblmax)
    ensures Encodable(tblval, if inbits > Needed(tblmax) then inbits else Needed(tblmax))
  {
    NeededLeavesRoom(tblmax);
    var n := if inbits > Needed(tblmax) then inbits else Needed(tblmax);
    Pow2Monotonic(Needed(tblmax), n);
    hide Pow2, Needed;
    forall k | 0 <= k < |tblval| ensures tblval[k] == MISSING || tblval[k] < Pow2(n) - 1 {
      assert -1 <= Signed(tblval[k]) <= tblmax;
    }
  }
}
