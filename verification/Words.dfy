/** 32-bit words and their bits.

    A word is a number below 2^32.  Shifts move one bit at a time and the
    bitwise operators go bit by bit, so that both are total on `nat` and every
    property below is an induction on the number of bits.  Bit strings are
    sequences of booleans with the most significant bit first, the order in which
    the packers lay tokens in a stream. */
module Words {

  const WORD_BASE: nat := 0x1_0000_0000

  type word = w: int | 0 <= w < 0x1_0000_0000

  function Pow2(n: nat): (p: nat)
    ensures p >= 1
  {
    if n == 0 then 1 else 2 * Pow2(n - 1)
  }

  /** Logical shift to the right. */
  function Shr(v: nat, n: nat): (r: nat)
    ensures r <= v
  {
    if n == 0 then v else Shr(v / 2, n - 1)
  }

  /** Shift to the left within a 32-bit word: the bits pushed out are lost. */
  function Shl(w: word, n: nat): word
    decreases n
  {
    if n == 0 then w else Shl(2 * w % WORD_BASE, n - 1)
  }

  function Or(a: nat, b: nat): nat
    decreases a + b
  {
    if a == 0 then b else if b == 0 then a
    else (if a % 2 == 1 || b % 2 == 1 then 1 else 0) + 2 * Or(a / 2, b / 2)
  }

  function And(a: nat, b: nat): nat
  {
    if a == 0 || b == 0 then 0
    else (if a % 2 == 1 && b % 2 == 1 then 1 else 0) + 2 * And(a / 2, b / 2)
  }

  function Xor(a: nat, b: nat): nat
    decreases a + b
  {
    if a == 0 then b else if b == 0 then a
    else (if a % 2 != b % 2 then 1 else 0) + 2 * Xor(a / 2, b / 2)
  }

  /** The n low bits of v, most significant first. */
  function Bits(v: nat, n: nat): (s: seq<bool>)
    ensures |s| == n
  {
    if n == 0 then [] else Bits(v / 2, n - 1) + [v % 2 == 1]
  }

  function FromBits(s: seq<bool>): nat
  {
    if s == [] then 0
    else 2 * FromBits(s[..|s| - 1]) + (if s[|s| - 1] then 1 else 0)
  }

  function Zeros(n: nat): (s: seq<bool>)
    ensures |s| == n
  {
    seq(n, _ => false)
  }

  /** The bits of a run of words, in order. */
  function WordsBits(ws: seq<word>): (s: seq<bool>)
    ensures |s| == 32 * |ws|
  {
    if ws == [] then [] else WordsBits(ws[..|ws| - 1]) + Bits(ws[|ws| - 1], 32)
  }

  // ----- Powers of two -----

  lemma {:induction false} Pow2Adds(m: nat, n: nat)
    ensures Pow2(m + n) == Pow2(m) * Pow2(n)
  {
    if m > 0 { Pow2Adds(m - 1, n); }
  }

  lemma {:induction false} Pow2Monotonic(m: nat, n: nat)
    requires m <= n
    ensures Pow2(m) <= Pow2(n)
    decreases n
  {
    if m < n { Pow2Monotonic(m, n - 1); }
  }

  lemma Pow2Values()
    ensures Pow2(1) == 2 && Pow2(3) == 8 && Pow2(4) == 16 && Pow2(5) == 32
    ensures Pow2(6) == 64 && Pow2(8) == 256
    ensures Pow2(14) == 0x4000 && Pow2(15) == 0x8000 && Pow2(16) == 0x1_0000
    ensures Pow2(17) == 0x2_0000 && Pow2(18) == 0x4_0000
    ensures Pow2(23) == 0x80_0000 && Pow2(24) == 0x100_0000 && Pow2(25) == 0x200_0000
    ensures Pow2(31) == 0x8000_0000 && Pow2(32) == WORD_BASE
  {
    assert Pow2(8) == 256;
    Pow2Adds(8, 8);
    Pow2Adds(16, 16);
    Pow2Adds(8, 6);
    Pow2Adds(8, 7);
    Pow2Adds(16, 1);
    Pow2Adds(16, 2);
    Pow2Adds(16, 7);
    Pow2Adds(16, 8);
    Pow2Adds(24, 1);
    Pow2Adds(24, 7);
  }

  // ----- Bit strings and numbers -----

  lemma {:induction false} FromBitsOfBits(v: nat, n: nat)
    requires v < Pow2(n)
    ensures FromBits(Bits(v, n)) == v
  {
    if n > 0 {
      FromBitsOfBits(v / 2, n - 1);
      assert Bits(v, n)[..n - 1] == Bits(v / 2, n - 1);
    }
  }

  lemma {:induction false} BitsOfFromBits(s: seq<bool>)
    ensures FromBits(s) < Pow2(|s|)
    ensures Bits(FromBits(s), |s|) == s
  {
    if s != [] {
      BitsOfFromBits(s[..|s| - 1]);
      assert s == s[..|s| - 1] + [s[|s| - 1]];
    }
  }

  /** The top of a bit string is the number shifted right, its tail the number itself. */
  lemma {:induction false} BitsSplit(v: nat, n: nat, k: nat)
    requires k <= n
    ensures Bits(v, n) == Bits(Shr(v, k), n - k) + Bits(v, k)
  {
    if k > 0 { BitsSplit(v / 2, n - 1, k - 1); }
  }

  lemma {:induction false} BitsSmall(v: nat, n: nat, k: nat)
    requires k <= n && v < Pow2(k)
    ensures Bits(v, n) == Zeros(n - k) + Bits(v, k)
    decreases n
  {
    if k > 0 {
      BitsSmall(v / 2, n - 1, k - 1);
    } else if n > 0 {
      BitsSmall(0, n - 1, 0);
      assert Zeros(n) == Zeros(n - 1) + [false];
    }
  }

  lemma {:induction false} BitsLow(v: nat, n: nat)
    ensures Bits(v % Pow2(n), n) == Bits(v, n)
  {
    if n > 0 {
      var p := Pow2(n - 1);
      HalfOfMod(v, p);
      BitsLow(v / 2, n - 1);
    }
  }

  /** Powers of the widths of fields. */
  lemma FieldPowers()
    ensures Pow2(3) == 8 && Pow2(4) == 16 && Pow2(5) == 32 && Pow2(6) == 64 && Pow2(7) == 128
    ensures Pow2(9) == 0x200 && Pow2(10) == 0x400 && Pow2(15) == 0x8000
    ensures Pow2(20) == 0x10_0000 && Pow2(22) == 0x40_0000
  {
    Pow2Adds(10, 5);
    Pow2Adds(10, 10);
    Pow2Adds(20, 2);
  }

  /** Two fields next to each other: the bits of the high one come first. */
  lemma BitsJoined(high: nat, low: nat, n: nat, k: nat)
    requires k <= n && low < Pow2(k)
    ensures Bits(low + Pow2(k) * high, n) == Bits(high, n - k) + Bits(low, k)
  {
    hide Bits, Pow2;
    BitsSplit(low + Pow2(k) * high, n, k);
    ModUnique(Pow2(k), high, low);
    ShrIsDiv(low + Pow2(k) * high, k);
    BitsLow(low + Pow2(k) * high, k);
  }

  /** Three fields next to each other. */
  lemma ThreeJoined(high: nat, mid: nat, low: nat, n: nat, k: nat, l: nat, p: nat, q: nat)
    requires k + l <= n && p == Pow2(k) && q == Pow2(l) && mid < p && low < q
    ensures Bits(low + q * (mid + p * high), n) == Bits(high, n - k - l) + Bits(mid, k) + Bits(low, l)
  {
    hide Bits, Pow2;
    BitsJoined(mid + p * high, low, n, l);
    BitsJoined(high, mid, n - l, k);
  }

  lemma DivMod(v: nat, m: nat)
    requires m >= 1
    ensures v == m * (v / m) + v % m && v % m < m && v / m >= 0
  {
  }

  lemma DoubleProduct(p: nat, q: nat)
    ensures 2 * p * q == 2 * (p * q)
  {
  }

  lemma HalfOfMod(v: nat, p: nat)
    requires p >= 1
    ensures v % (2 * p) / 2 == v / 2 % p
    ensures v % (2 * p) % 2 == v % 2
    ensures v / 2 / p == v / (2 * p)
  {
    DivMod(v, 2 * p);
    var q := v / (2 * p);
    var r := v % (2 * p);
    DoubleProduct(p, q);
    var x := p * q;
    assert v == 2 * x + r;
    assert v / 2 == x + r / 2;
    ModUnique(p, q, r / 2);
  }

  lemma MulSign(p: int, d: int)
    requires p >= 1
    ensures d >= 1 ==> p * d >= p
    ensures d <= -1 ==> p * d <= -p
  {
  }

  lemma ModUnique(p: nat, q: nat, r: nat)
    requires r < p
    ensures (p * q + r) % p == r
    ensures (p * q + r) / p == q
  {
    ModUniqueInt(p, q, r, p * q + r);
  }

  lemma ModUniqueInt(p: nat, q: int, r: nat, x: int)
    requires r < p && x == p * q + r
    ensures x % p == r && x / p == q
  {
    var d := x / p - q;
    DivModInt(x, p);
    assert p * d == r - x % p by { DistributeLeft(p, x / p, q); }
    MulSign(p, d);
  }

  lemma DivModInt(x: int, m: nat)
    requires m >= 1
    ensures x == m * (x / m) + x % m && 0 <= x % m < m
  {
  }

  lemma DistributeLeft(p: int, a: int, b: int)
    ensures p * (a - b) == p * a - p * b
  {
  }

  // ----- Shifts -----

  lemma BitsOfDouble(w: word)
    ensures Bits(2 * w % WORD_BASE, 32) == Bits(w, 32)[1..] + [false]
  {
    hide Pow2, Shr;
    Pow2Values();
    BitsLow(2 * w, 32);
    assert 2 * w / 2 == w && 2 * w % 2 == 0;
    BitsSplit(w, 32, 31);
  }

  lemma {:induction false} BitsOfShl(w: word, n: nat)
    requires n <= 32
    ensures Bits(Shl(w, n), 32) == Bits(w, 32)[n..] + Zeros(n)
    decreases n
  {
    if n > 0 {
      BitsOfShl(2 * w % WORD_BASE, n - 1);
      BitsOfDouble(w);
      var b := Bits(w, 32);
      assert (b[1..] + [false])[n - 1..] == b[n..] + [false];
      assert [false] + Zeros(n - 1) == Zeros(n);
      assert b[n..] + [false] + Zeros(n - 1) == b[n..] + ([false] + Zeros(n - 1));
    } else {
      assert Bits(w, 32)[0..] + Zeros(0) == Bits(w, 32);
    }
  }

  lemma {:induction false} BitsOfShr(v: nat, n: nat, size: nat)
    requires n <= size && v < Pow2(size)
    ensures Bits(Shr(v, n), size) == Zeros(n) + Bits(v, size)[..size - n]
  {
    BitsSplit(v, size, n);
    ShrBound(v, n, size);
    BitsSmall(Shr(v, n), size, size - n);
  }

  lemma {:induction false} ShrBound(v: nat, n: nat, size: nat)
    requires n <= size && v < Pow2(size)
    ensures Shr(v, n) < Pow2(size - n)
  {
    if n > 0 { ShrBound(v / 2, n - 1, size - 1); }
  }

  lemma {:induction false} ShrIsDiv(v: nat, n: nat)
    ensures Shr(v, n) == v / Pow2(n)
  {
    if n > 0 {
      ShrIsDiv(v / 2, n - 1);
      HalfOfMod(v, Pow2(n - 1));
    }
  }

  // ----- Bitwise operators -----

  lemma {:induction false} BitsOfOr(a: nat, b: nat, n: nat)
    ensures Bits(Or(a, b), n) == seq(n, i requires 0 <= i < n => Bits(a, n)[i] || Bits(b, n)[i])
  {
    if n > 0 {
      BitsOfOr(a / 2, b / 2, n - 1);
      OrHalves(a, b);
    }
  }

  lemma OrHalves(a: nat, b: nat)
    ensures Or(a, b) / 2 == Or(a / 2, b / 2)
    ensures Or(a, b) % 2 == if a % 2 == 1 || b % 2 == 1 then 1 else 0
  {
    if a == 0 { assert Or(0, b / 2) == b / 2; }
    else if b == 0 { assert Or(a / 2, 0) == a / 2; }
  }

  lemma {:induction false} OrBound(a: nat, b: nat, n: nat)
    requires a < Pow2(n) && b < Pow2(n)
    ensures Or(a, b) < Pow2(n)
  {
    if n > 0 && a > 0 && b > 0 { OrBound(a / 2, b / 2, n - 1); }
  }

  lemma {:induction false} ShrOfOr(a: nat, b: nat, n: nat)
    ensures Shr(Or(a, b), n) == Or(Shr(a, n), Shr(b, n))
  {
    if n > 0 {
      OrHalves(a, b);
      ShrOfOr(a / 2, b / 2, n - 1);
    }
  }

  lemma {:induction false} ShrOfAnd(a: nat, b: nat, n: nat)
    ensures Shr(And(a, b), n) == And(Shr(a, n), Shr(b, n))
  {
    if n > 0 {
      assert And(a, b) / 2 == And(a / 2, b / 2);
      ShrOfAnd(a / 2, b / 2, n - 1);
    }
  }

  lemma {:induction false} AndBound(a: nat, b: nat)
    ensures And(a, b) <= a
  {
    if a > 0 && b > 0 { AndBound(a / 2, b / 2); }
  }

  /** Where one operand is zero the other one shows through. */
  lemma BitsOfOrDisjoint(a: nat, b: nat, n: nat, k: nat)
    requires k <= n
    requires Bits(a, n)[n - k..] == Zeros(k) && Bits(b, n)[..n - k] == Zeros(n - k)
    ensures Bits(Or(a, b), n) == Bits(a, n)[..n - k] + Bits(b, n)[n - k..]
  {
    BitsOfOr(a, b, n);
    forall i | 0 <= i < n
      ensures (Bits(a, n)[i] || Bits(b, n)[i]) == (Bits(a, n)[..n - k] + Bits(b, n)[n - k..])[i]
    {
      if i < n - k {
        assert Bits(b, n)[..n - k][i] == Zeros(n - k)[i];
      } else {
        assert Bits(a, n)[n - k..][i - (n - k)] == Zeros(k)[i - (n - k)];
      }
    }
  }

  lemma DoubleOf(w: nat, p: nat)
    requires p >= 1
    ensures w * (2 * p) == 2 * w * p >= 2 * w
  {
  }

  lemma OrIsSum(a: nat, b: nat, n: nat)
    requires b < Pow2(n)
    ensures Or(a * Pow2(n), b) == a * Pow2(n) + b
  {
    OrIsSumOf(a, b, n, Pow2(n), a * Pow2(n));
  }

  lemma {:induction false} OrIsSumOf(a: nat, b: nat, n: nat, p: nat, v: nat)
    requires p == Pow2(n) && b < p && v == a * p
    ensures Or(v, b) == v + b
    decreases n
  {
    if n > 0 {
      var h := p / 2;
      assert p == 2 * h;
      DoubleOf(a, h);
      DoubleProduct(a, h);
      OrIsSumOf(a, b / 2, n - 1, h, a * h);
      OrHalves(v, b);
    }
  }

  lemma {:induction false} OrCommutes(a: nat, b: nat)
    ensures Or(a, b) == Or(b, a)
    decreases a + b
  {
    if a > 0 && b > 0 { OrCommutes(a / 2, b / 2); }
  }

  lemma {:induction false} AndWithLowMask(a: nat, n: nat)
    ensures And(a, Pow2(n) - 1) == a % Pow2(n)
  {
    if n == 0 {
    } else if a > 0 {
      AndWithLowMask(a / 2, n - 1);
      LowMask(a, n, Pow2(n - 1));
    } else {
      ModUniqueInt(Pow2(n), 0, 0, 0);
    }
  }

  lemma LowMask(a: nat, n: nat, p: nat)
    requires a > 0 && n > 0 && p == Pow2(n - 1) && And(a / 2, p - 1) == a / 2 % p
    ensures And(a, Pow2(n) - 1) == a % Pow2(n)
  {
    var mask, x := 2 * p - 1, a % (2 * p);
    HalfOfMod(a, p);
    assert mask / 2 == p - 1 && mask % 2 == 1;
    assert And(a, mask) == a % 2 + 2 * And(a / 2, mask / 2);
    assert x == 2 * (x / 2) + x % 2;
  }

  lemma AndEven(a: nat, h: nat)
    ensures And(a, 2 * h) == 2 * And(a / 2, h)
  {
  }

  lemma AndWithOnes(w: word)
    ensures And(w, WORD_BASE - 1) == w
  {
    Pow2Values();
    AndWithLowMask(w, 32);
  }

  lemma {:induction false} XorCancels(a: nat, b: nat)
    ensures Xor(Xor(a, b), b) == a
    ensures Xor(a, Xor(a, b)) == b
    decreases a + b
  {
    if a > 0 && b > 0 {
      XorCancels(a / 2, b / 2);
      var x := Xor(a, b);
      assert x / 2 == Xor(a / 2, b / 2);
      XorHalves(x, b);
      XorHalves(a, x);
    } else {
      XorSelf(a);
      XorSelf(b);
    }
  }

  lemma {:induction false} XorSelf(a: nat)
    ensures Xor(a, a) == 0
  {
    if a > 0 { XorSelf(a / 2); }
  }

  lemma XorHalves(a: nat, b: nat)
    ensures Xor(a, b) / 2 == Xor(a / 2, b / 2)
    ensures Xor(a, b) % 2 == if a % 2 != b % 2 then 1 else 0
  {
    if a == 0 { assert Xor(0, b / 2) == b / 2; }
    else if b == 0 { assert Xor(a / 2, 0) == a / 2; }
  }

  lemma XorCommutes(a: nat, b: nat)
    ensures Xor(a, b) == Xor(b, a)
    decreases a + b
  {
    if a > 0 && b > 0 { XorCommutes(a / 2, b / 2); }
  }

  lemma {:induction false} XorAssociates(a: nat, b: nat, c: nat)
    ensures Xor(Xor(a, b), c) == Xor(a, Xor(b, c))
    decreases a + b + c
  {
    if a > 0 && b > 0 && c > 0 {
      XorHalves(a, b);
      XorHalves(b, c);
      XorHalves(Xor(a, b), c);
      XorHalves(a, Xor(b, c));
      XorAssociates(a / 2, b / 2, c / 2);
    }
  }

  lemma {:induction false} XorBound(a: nat, b: nat, n: nat)
    requires a < Pow2(n) && b < Pow2(n)
    ensures Xor(a, b) < Pow2(n)
  {
    if n > 0 && a > 0 && b > 0 { XorBound(a / 2, b / 2, n - 1); }
  }

  lemma XorOfWords(a: word, b: word)
    ensures Xor(a, b) < WORD_BASE
  {
    Pow2Values();
    XorBound(a, b, 32);
  }

  // ----- Runs of words -----

  lemma {:induction false} WordsBitsConcat(a: seq<word>, b: seq<word>)
    ensures WordsBits(a + b) == WordsBits(a) + WordsBits(b)
  {
    if b == [] {
      assert a + b == a;
    } else {
      WordsBitsConcat(a, b[..|b| - 1]);
      assert (a + b)[..|a + b| - 1] == a + b[..|b| - 1];
    }
  }

  lemma WordsBitsSnoc(ws: seq<word>, w: word)
    ensures WordsBits(ws + [w]) == WordsBits(ws) + Bits(w, 32)
  {
    assert (ws + [w])[..|ws + [w]| - 1] == ws;
  }

  lemma WordsBitsFirst(ws: seq<word>)
    requires ws != []
    ensures WordsBits(ws) == Bits(ws[0], 32) + WordsBits(ws[1..])
  {
    WordsBitsConcat(ws[..1], ws[1..]);
    assert ws == ws[..1] + ws[1..];
    assert ws[..1][..0] == [];
  }

  // ----- Runs of runs -----

  function Flatten(entries: seq<seq<word>>): seq<word>
  {
    if entries == [] then [] else Flatten(entries[..|entries| - 1]) + entries[|entries| - 1]
  }

  lemma {:induction false} FlattenLength(entries: seq<seq<word>>, width: nat)
    requires forall j | 0 <= j < |entries| :: |entries[j]| == width
    ensures |Flatten(entries)| == |entries| * width
  {
    if entries != [] {
      FlattenLength(entries[..|entries| - 1], width);
      SlotEnd(|entries| - 1, width);
    }
  }

  lemma {:induction false} FlattenPart(entries: seq<seq<word>>, j: nat, width: nat, at: nat)
    requires j < |entries| && at == j * width && forall k | 0 <= k < |entries| :: |entries[k]| == width
    ensures at + width <= |Flatten(entries)| && Flatten(entries)[at..at + width] == entries[j]
  {
    var n, rest := |entries| - 1, entries[..|entries| - 1];
    FlattenLength(rest, width);
    if j < n {
      FlattenPart(rest, j, width, at);
      SliceOfConcat(Flatten(rest), entries[n], at, width);
    } else {
      assert Flatten(entries) == Flatten(rest) + entries[n];
    }
  }

  lemma SliceOfConcat(a: seq<word>, b: seq<word>, at: nat, n: nat)
    requires at + n <= |a|
    ensures (a + b)[at..at + n] == a[at..at + n]
  {
  }

  lemma SlotEnd(j: nat, width: nat)
    ensures (j + 1) * width == j * width + width
  {
  }

  lemma SlotOrder(j: nat, k: nat, width: nat)
    requires j <= k
    ensures j * width <= k * width
  {
  }

  lemma FlattenLast(entries: seq<seq<word>>)
    requires entries != []
    ensures Flatten(entries) == Flatten(entries[..|entries| - 1]) + entries[|entries| - 1]
  {
  }

  lemma {:induction false} FlattenConcat(a: seq<seq<word>>, b: seq<seq<word>>)
    ensures Flatten(a + b) == Flatten(a) + Flatten(b)
  {
    if b == [] {
      assert a + b == a;
    } else {
      hide Flatten;
      var rest := b[..|b| - 1];
      FlattenConcat(a, rest);
      FlattenLast(a + b);
      FlattenLast(b);
      assert (a + b)[..|a + b| - 1] == a + rest;
    }
  }

  lemma FlattenOne(ws: seq<word>)
    ensures Flatten([ws]) == ws
  {
    assert [ws][..0] == [] && Flatten([]) == [];
  }
}
