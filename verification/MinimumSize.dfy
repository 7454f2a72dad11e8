/** How long the code of the minimum coder is, from the spans of the tiles alone, and where the bits of
    a tile are. */
module MinimumSize {
  import opened Words
  import opened BitStream
  import opened Grid
  import opened Minimum
  import Layout = ParallelogramLayout
  import Size = ParallelogramSize

  // ----- The width of a tile -----

  /** All tokens of a tile are from `low` on, and less than 2^b above it. */
  ghost predicate Within(f: seq<word>, ni: nat, t: Tile, low: nat, b: nat)
  {
    forall m: nat, n: nat | m <= t.m && n <= t.n :: low <= TokenOf(f, ni, t, m, n) < low + Pow2(b)
  }

  ghost predicate SpanBelow(f: seq<word>, ni: nat, t: Tile, b: nat)
  {
    exists low: nat :: Within(f, ni, t, low, b)
  }

  /** The differences of a tile need b bits. */
  ghost predicate NeedsSpan(f: seq<word>, ni: nat, t: Tile, b: nat)
  {
    SpanBelow(f, ni, t, b) && (b > 0 ==> !SpanBelow(f, ni, t, b - 1))
  }

  /** The smallest token is the token of some point, and so is the largest. */
  lemma {:induction false} LowAttained(f: seq<word>, ni: nat, t: Tile, m: nat, n: nat) returns (m': nat, n': nat)
    requires m <= t.m && n <= t.n
    ensures m' <= t.m && n' <= t.n && TokenOf(f, ni, t, m', n') <= TileLow(f, ni, t, m, n)
    decreases t.n + 1 - n, t.m + 1 - m
  {
    hide TokenOf;
    m', n' := m, n;
    if TokenOf(f, ni, t, m, n) >= TileLow(f, ni, t, m + 1, n) {
      if m < t.m {
        m', n' := LowAttained(f, ni, t, m + 1, n);
      } else {
        assert TileLow(f, ni, t, m + 1, n) == TileLow(f, ni, t, 0, n + 1);
        if n < t.n { m', n' := LowAttained(f, ni, t, 0, n + 1); }
      }
    }
  }

  lemma {:induction false} HighAttained(f: seq<word>, ni: nat, t: Tile, m: nat, n: nat) returns (m': nat, n': nat)
    requires m <= t.m && n <= t.n
    ensures m' <= t.m && n' <= t.n && TileHigh(f, ni, t, m, n) <= TokenOf(f, ni, t, m', n')
    decreases t.n + 1 - n, t.m + 1 - m
  {
    hide TokenOf;
    m', n' := m, n;
    if TokenOf(f, ni, t, m, n) <= TileHigh(f, ni, t, m + 1, n) {
      if m < t.m {
        m', n' := HighAttained(f, ni, t, m + 1, n);
      } else {
        assert TileHigh(f, ni, t, m + 1, n) == TileHigh(f, ni, t, 0, n + 1);
        if n < t.n { m', n' := HighAttained(f, ni, t, 0, n + 1); }
      }
    }
  }

  lemma SpanIff(f: seq<word>, ni: nat, t: Tile, b: nat)
    ensures TileLow(f, ni, t, 0, 0) <= TileHigh(f, ni, t, 0, 0)
    ensures SpanBelow(f, ni, t, b) <==> TileHigh(f, ni, t, 0, 0) - TileLow(f, ni, t, 0, 0) < Pow2(b)
  {
    hide TokenOf, TileLow, TileHigh, Pow2;
    var m, n := LowAttained(f, ni, t, 0, 0);
    var m', n' := HighAttained(f, ni, t, 0, 0);
    TileRange(f, ni, t, 0, 0, m, n);
    var low := TileLow(f, ni, t, 0, 0);
    if TileHigh(f, ni, t, 0, 0) - low < Pow2(b) {
      forall i: nat, j: nat | i <= t.m && j <= t.n ensures low <= TokenOf(f, ni, t, i, j) < low + Pow2(b) {
        TileRange(f, ni, t, 0, 0, i, j);
      }
      assert Within(f, ni, t, low, b);
    }
  }

  lemma SpanBits(f: seq<word>, ni: nat, t: Tile, b: nat)
    requires NeedsSpan(f, ni, t, b)
    ensures BitLength(Max(0, TileHigh(f, ni, t, 0, 0) - TileLow(f, ni, t, 0, 0))) == b
  {
    hide TileLow, TileHigh, SpanBelow, Pow2, BitLength;
    var x := TileHigh(f, ni, t, 0, 0) - TileLow(f, ni, t, 0, 0);
    SpanIff(f, ni, t, b);
    BitLengthBounds(x);
    BitLengthMost(x, b);
    if b > 0 {
      SpanIff(f, ni, t, b - 1);
      if BitLength(x) < b { Pow2Monotonic(BitLength(x), b - 1); }
    }
  }

  /** Bits of a tile after its width code. */
  function BodyBits(nbits: nat, cells: nat, b: nat): nat
  {
    if b == 0 then nbits else if b == 15 || b == 16 then cells * 16 else nbits + cells * b
  }

  /** A tile takes 4 bits and its smallest token, and for every point just what the largest
      difference needs; or every token on 16 bits. */
  lemma TileLength(f: seq<word>, ni: nat, t: Tile, nbits: nat, b: nat)
    requires NeedsSpan(f, ni, t, b)
    ensures |MinTile(f, ni, t, nbits)| == 4 + BodyBits(nbits, (t.m + 1) * (t.n + 1), b)
  {
    hide TileLow, TileHigh, NeedsSpan, CellsMinus, CellsLeft, BitLength, Bits;
    SpanBits(f, ni, t, b);
    CellsLeftIs(t, 0, 0);
    Distribute(t.n, 1, t.m + 1);
    CellsMinusLength(f, ni, t, 0, 0, 0, 16);
    CellsMinusLength(f, ni, t, 0, 0, TileLow(f, ni, t, 0, 0), b);
  }

  // ----- The length of the code -----

  /** No tile of a field spans more than b bits. */
  ghost predicate SpansBelow(f: seq<word>, ni: nat, nj: nat, b: nat)
  {
    forall i: nat, j: nat | 1 <= i <= ni && 1 <= j <= nj && i % 5 == 1 && j % 5 == 1 ::
      SpanBelow(f, ni, TileAt(i, j, ni, nj, 5), b)
  }

  function Bands(n: nat, x: nat): nat
  {
    if x > n then 0 else (n - x) / 5 + 1
  }

  function TilesLeft(ni: nat, nj: nat, i: nat, j: nat): nat
  {
    if j > nj then 0 else Bands(ni, i) + Size.Times(Bands(nj, j + 5), Bands(ni, 1))
  }

  lemma TilesStep(ni: nat, nj: nat, i: nat, j: nat)
    requires i >= 1 && 1 <= j <= nj && ni >= 1
    ensures if i > ni then TilesLeft(ni, nj, i, j) == TilesLeft(ni, nj, 1, j + 5)
      else TilesLeft(ni, nj, i, j) == 1 + TilesLeft(ni, nj, i + 5, j)
  {
    if i > ni && j + 5 <= nj {
      assert Bands(nj, j + 5) == 1 + Bands(nj, j + 10);
      Distribute(1, Bands(nj, j + 10), Bands(ni, 1));
    }
  }

  /** The width that the points of a tile take at most. */
  function PointBits(b: nat): nat
  {
    if b >= 15 then 16 else b
  }

  lemma TileAtMost(f: seq<word>, ni: nat, nj: nat, t: Tile, nbits: nat, b: nat)
    requires IsShortField(f, ni, nj, nbits) && SpanBelow(f, ni, t, b)
    ensures |MinTile(f, ni, t, nbits)| <= 4 + nbits + Size.Times((t.m + 1) * (t.n + 1), PointBits(b))
  {
    hide TileLow, TileHigh, SpanBelow, MinTile, BitLength, Pow2;
    var x := TileHigh(f, ni, t, 0, 0) - TileLow(f, ni, t, 0, 0);
    CodesFit(f, ni, nj, nbits, t);
    SpanIff(f, ni, t, b);
    Pow2Values();
    BitLengthMost(x, b);
    BitLengthMost(x, 16);
    NeededSpan(f, ni, t);
    TileLength(f, ni, t, nbits, BitLength(x));
    MulAtMost(PointBits(BitLength(x)), PointBits(b), (t.m + 1) * (t.n + 1));
  }

  lemma NeededSpan(f: seq<word>, ni: nat, t: Tile)
    ensures NeedsSpan(f, ni, t, BitLength(Max(0, TileHigh(f, ni, t, 0, 0) - TileLow(f, ni, t, 0, 0))))
  {
    hide TileLow, TileHigh, SpanBelow, Pow2, BitLength;
    var x := Max(0, TileHigh(f, ni, t, 0, 0) - TileLow(f, ni, t, 0, 0));
    BitLengthBounds(x);
    if x == 0 { BitLengthMost(x, 0); }
    SpanIff(f, ni, t, BitLength(x));
    if BitLength(x) > 0 { SpanIff(f, ni, t, BitLength(x) - 1); }
  }

  lemma {:induction false} TilesAtMost(f: seq<word>, ni: nat, nj: nat, nbits: nat, i: nat, j: nat, b: nat)
    requires IsShortField(f, ni, nj, nbits) && SpansBelow(f, ni, nj, b) && i % 5 == 1 && j % 5 == 1
    ensures |MinTiles(f, ni, nj, i, j, nbits)| <=
      Size.Times(TilesLeft(ni, nj, i, j), 4 + nbits) + Size.Times(PointsLeft(ni, nj, i, j, 1, SIDE), PointBits(b))
    decreases nj + SIDE - j, ni + SIDE - i
  {
    hide SpanBelow, MinTile, PointsLeft, TilesLeft, PointBits, CellsLeft, Pow2;
    if j <= nj {
      TilesStep(ni, nj, i, j);
      if i > ni {
        PointsOfNextBand(ni, nj, i, j, 1, SIDE);
        TilesAtMost(f, ni, nj, nbits, 1, j + SIDE, b);
      } else {
        var t := TileAt(i, j, ni, nj, SIDE);
        PointsOfTile(ni, nj, i, j, 1, SIDE);
        TileAtMost(f, ni, nj, t, nbits, b);
        TilesAtMost(f, ni, nj, nbits, i + SIDE, j, b);
        Distribute(1, TilesLeft(ni, nj, i + 5, j), 4 + nbits);
        Distribute(CellsLeft(t, 0, 0), PointsLeft(ni, nj, i + SIDE, j, 1, SIDE), PointBits(b));
      }
    }
  }

  /** The whole code: every tile takes 4 bits and a token, and every point what the widest span
      needs. */
  lemma FieldLength(f: seq<word>, ni: nat, nj: nat, nbits: nat, b: nat)
    requires IsShortField(f, ni, nj, nbits) && SpansBelow(f, ni, nj, b)
    ensures |MinCode(f, ni, nj, nbits)| <=
      Size.Times(Size.Times((ni + 4) / 5, (nj + 4) / 5), 4 + nbits) + Size.Times(ni * nj, if b >= 15 then 16 else b)
  {
    hide MinTiles, SpansBelow, PointsLeft, TilesLeft, Pow2, Size.Times;
    TilesAtMost(f, ni, nj, nbits, 1, 1, b);
    AllPointsLeft(ni, nj, 1, SIDE);
    SidesPositive(f, ni, nj, nbits);
    AllTiles(ni, nj);
  }

  lemma AllTiles(ni: nat, nj: nat)
    requires ni >= 1 && nj >= 1
    ensures TilesLeft(ni, nj, 1, 1) == Size.Times((ni + 4) / 5, (nj + 4) / 5)
  {
    assert Bands(ni, 1) == (ni + 4) / 5 && Bands(nj, 6) == (nj + 4) / 5 - 1;
    Distribute(1, Bands(nj, 6), Bands(ni, 1));
  }

  // ----- The bits of a tile -----

  lemma {:induction false} CellPart(f: seq<word>, ni: nat, t: Tile, m: nat, n: nat, base: nat, w: nat, m': nat, n': nat)
    requires m' <= t.m && n' <= t.n && (n < n' || (n == n' && m <= m')) && m <= t.m + 1
    requires Layout.CellsBetween(t, m, n, m', n') >= 0
    ensures Layout.Slice(CellsMinus(f, ni, t, m, n, base, w),
        Size.Times(Layout.CellsBetween(t, m, n, m', n'), w), w) ==
      Bits(Max(0, TokenOf(f, ni, t, m', n') - base), w)
    decreases t.n + 1 - n, t.m + 1 - m
  {
    hide Bits, Layout.Slice, Size.Times, TokenOf, Layout.CellsBetween;
    Layout.NextCell(t, m, n, m', n');
    if m > t.m {
      CellPart(f, ni, t, 0, n + 1, base, w, m', n');
    } else {
      var cell, rest := Bits(Max(0, TokenOf(f, ni, t, m, n) - base), w), CellsMinus(f, ni, t, m + 1, n, base, w);
      if n < n' || m < m' {
        CellPart(f, ni, t, m + 1, n, base, w, m', n');
        Layout.TimesStep(Layout.CellsBetween(t, m, n, m', n'), w);
        Layout.SliceLater(cell, rest, Size.Times(Layout.CellsBetween(t, m + 1, n, m', n'), w), w,
          Size.Times(Layout.CellsBetween(t, m, n, m', n'), w));
      } else {
        Layout.NoTimes(w);
        Layout.SliceFirst(cell, rest);
      }
    }
  }

  /** A tile starts with the width on 4 bits, 15 for 16; then comes its smallest token, unless every token
      is stored whole. */
  lemma StartsWithWidth(f: seq<word>, ni: nat, t: Tile, nbits: nat, b: nat)
    requires NeedsSpan(f, ni, t, b)
    ensures Layout.Slice(MinTile(f, ni, t, nbits), 0, 4) == Bits(if b == 16 then 15 else b, 4)
    ensures b < 15 ==> exists m: nat, n: nat :: SmallestNext(f, ni, t, nbits, m, n)
  {
    hide TileLow, TileHigh, NeedsSpan, CellsMinus, BitLength, Bits, Layout.Slice, TokenOf;
    SpanBits(f, ni, t, b);
    var code, low := Bits(TileCodeOf(f, ni, t), 4), TileLow(f, ni, t, 0, 0);
    Layout.SliceFirst(code, MinBody(f, ni, t, nbits));
    if b < 15 {
      var rest := if b == 0 then [] else CellsMinus(f, ni, t, 0, 0, low, b);
      assert Bits(low, nbits) + [] == Bits(low, nbits);
      Layout.SliceFirst(Bits(low, nbits), rest);
      Layout.SliceLater(code, Bits(low, nbits) + rest, 0, nbits, 4);
      var m, n := LowAttained(f, ni, t, 0, 0);
      SmallestIs(f, ni, t, m, n);
      assert SmallestNext(f, ni, t, nbits, m, n);
    }
  }

  ghost predicate SmallestNext(f: seq<word>, ni: nat, t: Tile, nbits: nat, m: nat, n: nat)
  {
    IsSmallest(f, ni, t, m, n) &&
    Layout.Slice(MinTile(f, ni, t, nbits), 4, nbits) == Bits(TokenOf(f, ni, t, m, n), nbits)
  }

  ghost predicate IsSmallest(f: seq<word>, ni: nat, t: Tile, m: nat, n: nat)
  {
    m <= t.m && n <= t.n &&
    forall i: nat, j: nat | i <= t.m && j <= t.n :: TokenOf(f, ni, t, m, n) <= TokenOf(f, ni, t, i, j)
  }

  lemma SmallestIs(f: seq<word>, ni: nat, t: Tile, m: nat, n: nat)
    requires m <= t.m && n <= t.n && TokenOf(f, ni, t, m, n) <= TileLow(f, ni, t, 0, 0)
    ensures IsSmallest(f, ni, t, m, n) && TokenOf(f, ni, t, m, n) == TileLow(f, ni, t, 0, 0)
  {
    hide TileLow, TileHigh, TokenOf;
    TileRange(f, ni, t, 0, 0, m, n);
    forall i: nat, j: nat | i <= t.m && j <= t.n ensures TileLow(f, ni, t, 0, 0) <= TokenOf(f, ni, t, i, j) {
      TileRange(f, ni, t, 0, 0, i, j);
    }
  }

  /** Then come the tokens row by row: less the smallest one on the width of the tile, or whole on 16 bits. */
  lemma CellAt(f: seq<word>, ni: nat, t: Tile, nbits: nat, b: nat, m: nat, n: nat, m0: nat, n0: nat)
    requires NeedsSpan(f, ni, t, b) && m <= t.m && n <= t.n && IsSmallest(f, ni, t, m0, n0)
    ensures b == 15 || b == 16 ==>
      Layout.Slice(MinTile(f, ni, t, nbits), 4 + Size.Times(Size.Times(n, t.m + 1) + m, 16), 16) ==
      Bits(TokenOf(f, ni, t, m, n), 16)
    ensures b != 0 && b != 15 && b != 16 ==>
      Layout.Slice(MinTile(f, ni, t, nbits), 4 + nbits + Size.Times(Size.Times(n, t.m + 1) + m, b), b) ==
      Bits(Max(0, TokenOf(f, ni, t, m, n) - TokenOf(f, ni, t, m0, n0)), b)
  {
    hide TileLow, TileHigh, NeedsSpan, CellsMinus, BitLength, Bits, Layout.Slice, TokenOf, Size.Times;
    hide Layout.CellsBetween;
    SpanBits(f, ni, t, b);
    var m', n' := LowAttained(f, ni, t, 0, 0);
    SmallestIs(f, ni, t, m', n');
    var code, low := Bits(TileCodeOf(f, ni, t), 4), TileLow(f, ni, t, 0, 0);
    Layout.NextCell(t, 0, 0, m, n);
    Layout.CellsFromStart(t, m, n);
    if b == 15 || b == 16 {
      CellPart(f, ni, t, 0, 0, 0, 16, m, n);
      Layout.SliceLater(code, CellsMinus(f, ni, t, 0, 0, 0, 16), Size.Times(Size.Times(n, t.m + 1) + m, 16), 16,
        4 + Size.Times(Size.Times(n, t.m + 1) + m, 16));
    } else if b != 0 {
      CellPart(f, ni, t, 0, 0, low, b, m, n);
      var cells, at := CellsMinus(f, ni, t, 0, 0, low, b), Size.Times(Size.Times(n, t.m + 1) + m, b);
      Layout.SliceLater(Bits(low, nbits), cells, at, b, nbits + at);
      Layout.SliceLater(code, Bits(low, nbits) + cells, nbits + at, b, 4 + nbits + at);
    }
  }
}
