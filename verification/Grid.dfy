/** Fields stored row by row with Fortran indices, and their square tiles. */
module Grid {
  import opened Words

  /** The macro FTN2C: position of the point in column i of row j, both counted from 1. */
  function Ftn2c(i: int, j: int, ni: int): int
  {
    ni * (j - 1) + i - 1
  }

  function Col(k: nat, ni: nat): nat
    requires ni > 0
  {
    k % ni + 1
  }

  function Row(k: nat, ni: nat): nat
    requires ni > 0
  {
    k / ni + 1
  }

  lemma IndexOfPoint(i: nat, j: nat, ni: nat, nj: nat)
    requires 1 <= i <= ni && 1 <= j <= nj
    ensures 0 <= Ftn2c(i, j, ni) < ni * nj
    ensures Col(Ftn2c(i, j, ni), ni) == i && Row(Ftn2c(i, j, ni), ni) == j
  {
    ModUnique(ni, j - 1, i - 1);
    assert ni * (j - 1) <= ni * (nj - 1) == ni * nj - ni;
  }

  lemma PointOfIndex(k: nat, ni: nat, nj: nat)
    requires k < ni * nj
    ensures 1 <= Col(k, ni) <= ni && 1 <= Row(k, ni) <= nj
    ensures Ftn2c(Col(k, ni), Row(k, ni), ni) == k
  {
    DivMod(k, ni);
    LessQuotient(ni, k / ni, nj);
  }

  lemma LessQuotient(p: nat, a: nat, b: nat)
    requires p >= 1 && p * a < p * b
    ensures a < b
  {
    DistributeLeft(p, b, a);
    MulSign(p, b - a);
  }

  /** Every position of the field is the position of exactly one point. */
  lemma AllPoints(ni: nat, nj: nat)
    requires ni > 0
    ensures forall k: nat {:trigger Row(k, ni)} {:trigger Col(k, ni)} | k < ni * nj ::
      1 <= Col(k, ni) <= ni && 1 <= Row(k, ni) <= nj && Ftn2c(Col(k, ni), Row(k, ni), ni) == k
  {
    forall k: nat | k < ni * nj
      ensures 1 <= Col(k, ni) <= ni && 1 <= Row(k, ni) <= nj && Ftn2c(Col(k, ni), Row(k, ni), ni) == k
    {
      PointOfIndex(k, ni, nj);
    }
  }

  /** The last offset inside a tile that starts at i, cut at the border of the field. */
  function LastOffset(i: nat, ni: nat, step: nat): nat
    requires i <= ni && step >= 1
  {
    if i + step - 1 >= ni then ni - i else step - 1
  }

  // ----- Tiles -----

  /** A tile by its first point and its last offsets. */
  datatype Tile = Tile(i: nat, j: nat, m: nat, n: nat)

  function TileAt(i: nat, j: nat, ni: nat, nj: nat, step: nat): Tile
    requires i <= ni && j <= nj && step >= 1
  {
    Tile(i, j, LastOffset(i, ni, step), LastOffset(j, nj, step))
  }

  ghost predicate InField(t: Tile, ni: nat, nj: nat)
  {
    1 <= t.i && t.i + t.m <= ni && 1 <= t.j && t.j + t.n <= nj
  }

  ghost predicate InTile(k: nat, t: Tile, ni: nat)
    requires ni > 0
  {
    t.i <= Col(k, ni) <= t.i + t.m && t.j <= Row(k, ni) <= t.j + t.n
  }

  /** Whether a point of the tile comes before offset (m, n). */
  ghost predicate CellDone(k: nat, t: Tile, ni: nat, m: nat, n: nat)
    requires ni > 0
  {
    InTile(k, t, ni) && (Row(k, ni) < t.j + n || (Row(k, ni) == t.j + n && Col(k, ni) < t.i + m))
  }

  /** Points that come before the tile at (i, j), when the tiles of that step start with
      column and row `first`. */
  ghost predicate TileDone(k: nat, ni: nat, i: nat, j: nat, first: nat, step: nat)
    requires ni > 0
  {
    Row(k, ni) >= first && Col(k, ni) >= first && (Row(k, ni) < j || (Row(k, ni) < j + step && Col(k, ni) < i))
  }

  /** Points of a tile from offset (m, n) on. */
  ghost function CellsLeft(t: Tile, m: nat, n: nat): nat
    decreases t.n + 1 - n, t.m + 1 - m
  {
    if n > t.n then 0
    else if m > t.m then CellsLeft(t, 0, n + 1)
    else 1 + CellsLeft(t, m + 1, n)
  }

  lemma {:induction false} CellsLeftIs(t: Tile, m: nat, n: nat)
    requires n <= t.n && m <= t.m + 1
    ensures CellsLeft(t, m, n) == (t.n - n) * (t.m + 1) + (t.m + 1 - m)
    decreases t.n + 1 - n, t.m + 1 - m
  {
    if m > t.m {
      if n < t.n {
        CellsLeftIs(t, 0, n + 1);
        Distribute(t.n - n - 1, 1, t.m + 1);
      } else {
        assert CellsLeft(t, 0, n + 1) == 0;
      }
    } else {
      CellsLeftIs(t, m + 1, n);
    }
  }

  /** Points from the tile at (i, j) on, when the tiles start with column and row `first`. */
  ghost function PointsLeft(ni: nat, nj: nat, i: nat, j: nat, first: nat, step: nat): nat
    requires step >= 1
  {
    if j > nj || ni < first then 0
    else (LastOffset(j, nj, step) + 1) * (if i > ni then 0 else ni + 1 - i) +
         (if j + step > nj then 0 else (nj + 1 - (j + step)) * (ni + 1 - first))
  }

  lemma PointsOfNextBand(ni: nat, nj: nat, i: nat, j: nat, first: nat, step: nat)
    requires first <= ni < i && j <= nj && step >= 1
    ensures PointsLeft(ni, nj, i, j, first, step) == PointsLeft(ni, nj, first, j + step, first, step)
  {
    if j + step <= nj {
      var n := LastOffset(j + step, nj, step) + 1;
      if j + 2 * step <= nj { Distribute(n, nj + 1 - (j + 2 * step), ni + 1 - first); }
    }
  }

  lemma PointsOfTile(ni: nat, nj: nat, i: nat, j: nat, first: nat, step: nat)
    requires first <= i <= ni && j <= nj && step >= 1
    ensures var t := TileAt(i, j, ni, nj, step);
      PointsLeft(ni, nj, i, j, first, step) == CellsLeft(t, 0, 0) + PointsLeft(ni, nj, i + step, j, first, step) &&
      CellsLeft(t, 0, 0) == (t.m + 1) * (t.n + 1) >= 1
  {
    var t := TileAt(i, j, ni, nj, step);
    CellsLeftIs(t, 0, 0);
    Distribute(t.n, 1, t.m + 1);
    var rest := if i + step > ni then 0 else ni + 1 - (i + step);
    assert ni + 1 - i == t.m + 1 + rest;
    Distribute(t.m + 1, rest, t.n + 1);
  }

  /** All the points from row and column `first` on. */
  lemma AllPointsLeft(ni: nat, nj: nat, first: nat, step: nat)
    requires first <= ni && first <= nj && step >= 1
    ensures PointsLeft(ni, nj, first, first, first, step) == (nj + 1 - first) * (ni + 1 - first)
  {
    var n := LastOffset(first, nj, step) + 1;
    if first + step <= nj { Distribute(n, nj + 1 - (first + step), ni + 1 - first); }
  }

  lemma Distribute(a: int, b: int, q: int)
    ensures (a + b) * q == a * q + b * q
  {
  }

  function Abs(x: int): nat
  {
    if x < 0 then -x else x
  }

  function Max(x: int, y: int): int
  {
    if x < y then y else x
  }

  /** The number of bits of v.  The packers compute it from a table of rounded logarithms,
      or from the exponent of v as a real number. */
  function BitLength(v: nat): nat
  {
    if v == 0 then 0 else 1 + BitLength(v / 2)
  }

  lemma {:induction false} BitLengthBounds(v: nat)
    ensures v < Pow2(BitLength(v))
    ensures v > 0 ==> Pow2(BitLength(v) - 1) <= v
  {
    if v > 0 { BitLengthBounds(v / 2); }
  }

  lemma {:induction false} BitLengthMost(v: nat, b: nat)
    requires v < Pow2(b)
    ensures BitLength(v) <= b
  {
    if v > 0 { BitLengthMost(v / 2, b - 1); }
  }

  /** The logarithm of a number from 256 on is looked up with its high byte. */
  lemma BitLengthOfHigh(v: nat)
    requires v >= 256
    ensures BitLength(v) == 8 + BitLength(v / 256)
  {
    assert v / 2 / 2 / 2 / 2 / 2 / 2 / 2 / 2 == v / 256;
    BitLengthStep(v, 8);
    ShrIsDiv(v, 8);
    Pow2Values();
  }

  lemma {:induction false} BitLengthStep(v: nat, n: nat)
    requires v >= Pow2(n)
    ensures BitLength(v) == n + BitLength(Shr(v, n))
  {
    if n > 0 { BitLengthStep(v / 2, n - 1); }
  }

  // ----- Two's complement -----

  /** A 32-bit word read as a signed number. */
  function Signed(w: word): int
  {
    if w < 0x8000_0000 then w else w - WORD_BASE
  }

  /** Arithmetic shift to the right. */
  function Asr(v: int, n: nat): int
  {
    v / Pow2(n)
  }

  /** Truncating a signed number to n bits, then shifting it to the top of a word and back
      down, restores it. */
  lemma SignExtension(d: int, n: nat)
    requires 1 <= n <= 32 && 0 <= d + Pow2(n - 1) && d < Pow2(n - 1)
    ensures d % Pow2(n) < Pow2(n) <= WORD_BASE
    ensures Asr(Signed(Shl(d % Pow2(n), 32 - n)), 32 - n) == d
  {
    hide Pow2, Shl;
    var q, token := Pow2(32 - n), d % Pow2(n);
    Pow2Step(n);
    Pow2Values();
    Pow2Monotonic(n, 32);
    Pow2Adds(n, 32 - n);
    Pow2Adds(n - 1, 32 - n);
    assert Pow2(n) * q == WORD_BASE && Pow2(n - 1) * q == 0x8000_0000;
    TruncatedIs(d, Pow2(n - 1));
    assert token == if d >= 0 then d else d + Pow2(n);
    MulLess(token, Pow2(n), q);
    ShlIsMul(token, 32 - n, q);
    if d >= 0 {
      MulLess(token, Pow2(n - 1), q);
    } else {
      MulAtMost(Pow2(n - 1), token, q);
      assert (d + Pow2(n)) * q == d * q + Pow2(n) * q;
    }
    assert Signed(token * q) == d * q;
    DivExact(d, q);
  }

  lemma TruncatedIs(d: int, h: nat)
    requires h >= 1 && 0 <= d + h && d < h
    ensures d % (2 * h) == if d >= 0 then d else d + 2 * h
  {
    if d < 0 {
      ModUniqueInt(2 * h, -1, d + 2 * h, d);
    } else {
      ModUniqueInt(2 * h, 0, d, d);
    }
  }

  lemma DivExact(d: int, q: nat)
    requires q >= 1
    ensures d * q / q == d
  {
    ModUniqueInt(q, d, 0, d * q);
  }

  lemma MulLess(a: nat, b: nat, q: nat)
    requires a < b && q >= 1
    ensures a * q < b * q
  {
  }

  lemma MulAtMost(a: nat, b: nat, q: nat)
    requires a <= b
    ensures a * q <= b * q
  {
  }

  lemma Pow2Step(n: nat)
    requires n >= 1
    ensures Pow2(n) == 2 * Pow2(n - 1)
  {
  }

  lemma {:induction false} ShlIsMul(w: word, n: nat, p: nat)
    requires p == Pow2(n) && w * p < WORD_BASE
    ensures Shl(w, n) == w * p
    decreases n
  {
    if n == 0 {
      assert w * p == w;
    } else {
      var h := p / 2;
      assert p == 2 * h && h == Pow2(n - 1);
      DoubleOf(w, h);
      assert 2 * w % WORD_BASE == 2 * w;
      ShlIsMul(2 * w, n - 1, h);
      assert Shl(w, n) == Shl(2 * w, n - 1) == 2 * w * h == w * (2 * h);
    }
  }

  /** Shifting to the left multiplies, within a word. */
  lemma {:induction false} ShlIsMod(w: word, n: nat)
    ensures Shl(w, n) == w * Pow2(n) % WORD_BASE
    decreases n
  {
    if n == 0 {
      assert w * Pow2(0) == w;
    } else {
      ShlIsMod(2 * w % WORD_BASE, n - 1);
      ModOfProduct(2 * w, Pow2(n - 1), WORD_BASE);
      DoubleOf(w, Pow2(n - 1));
    }
  }

  lemma ModOfProduct(x: nat, p: nat, m: nat)
    requires m >= 1
    ensures x % m * p % m == x * p % m
  {
    var q, r := x / m, x % m;
    DivMod(x, m);
    DivMod(r * p, m);
    assert x * p == (m * q) * p + r * p by { Distribute(m * q, r, p); }
    assert (m * q) * p == m * (q * p);
    assert m * (q * p) + m * (r * p / m) == m * (q * p + r * p / m);
    ModUniqueInt(m, q * p + r * p / m, r * p % m, x * p);
  }

  /** Masking the low n bits of a negative number in two's complement. */
  lemma MaskOfSigned(d: int, n: nat)
    requires n <= 32
    ensures And(d % WORD_BASE, Pow2(n) - 1) == d % Pow2(n)
  {
    Pow2Values();
    Pow2Adds(n, 32 - n);
    AndWithLowMask(d % WORD_BASE, n);
    ModOfMod(d, Pow2(n), Pow2(32 - n), WORD_BASE);
  }

  lemma ModOfMod(d: int, p: nat, q: nat, m: nat)
    requires p >= 1 && q >= 1 && m == p * q
    ensures d % m % p == d % p
  {
    var h, r := d / m, d % m;
    assert d == m * h + r;
    assert m * h == p * (q * h);
    assert r == p * (r / p) + r % p;
    assert p * (q * h) + p * (r / p) == p * (q * h + r / p);
    ModUniqueInt(p, q * h + r / p, r % p, d);
  }
}
