/** The minimum coder of 16-bit tokens (`packTokensMinimum`, `unpackTokensMinimum`): 5x5
    tiles over the whole field, each with its smallest token and the differences from it. */
module Minimum {
  import opened Words
  import opened BitStream
  import opened Grid
  import opened Parallelogram
  import opened ParallelogramPack
  import opened ParallelogramUnpack

  /** Side of a tile, the step that the header of such a stream carries. */
  const SIDE: nat := 5

  /** A field of ni by nj tokens of nbits bits. */
  ghost predicate IsShortField(f: seq<word>, ni: nat, nj: nat, nbits: nat)
  {
    ni >= 1 && nj >= 1 && |f| == ni * nj && 1 <= nbits <= 16 && forall k | 0 <= k < |f| :: f[k] < Pow2(nbits)
  }

  /** The token at offset (m, n) of a tile. */
  function TokenOf(f: seq<word>, ni: nat, t: Tile, m: nat, n: nat): word
  {
    At(f, Ftn2c(t.i + m, t.j + n, ni))
  }

  /** The smallest token of a tile from the point at offset (m, n) on. */
  ghost function TileLow(f: seq<word>, ni: nat, t: Tile, m: nat, n: nat): word
    decreases t.n + 1 - n, t.m + 1 - m
  {
    if n > t.n then WORD_BASE - 1
    else if m > t.m then TileLow(f, ni, t, 0, n + 1)
    else
      var rest, x := TileLow(f, ni, t, m + 1, n), TokenOf(f, ni, t, m, n);
      if x < rest then x else rest
  }

  /** The largest token. */
  ghost function TileHigh(f: seq<word>, ni: nat, t: Tile, m: nat, n: nat): word
    decreases t.n + 1 - n, t.m + 1 - m
  {
    if n > t.n then 0
    else if m > t.m then TileHigh(f, ni, t, 0, n + 1)
    else
      var rest, x := TileHigh(f, ni, t, m + 1, n), TokenOf(f, ni, t, m, n);
      if rest < x then x else rest
  }

  /** The width code of a tile: 16 is written 15. */
  function CodeOfRange(localVar: nat): nat
  {
    var b := BitLength(localVar);
    if b == 16 then 15 else b
  }

  ghost function TileCodeOf(f: seq<word>, ni: nat, t: Tile): nat
  {
    CodeOfRange(Max(0, TileHigh(f, ni, t, 0, 0) - TileLow(f, ni, t, 0, 0)))
  }

  /** What is subtracted from the tokens of a tile: tokens of full width are stored as they
      are. */
  ghost function BaseOf(f: seq<word>, ni: nat, t: Tile): word
  {
    if TileCodeOf(f, ni, t) == 15 then 0 else TileLow(f, ni, t, 0, 0)
  }

  // ----- The code -----

  /** The tokens of a tile from offset (m, n) on, less the given base, on w bits. */
  ghost function CellsMinus(f: seq<word>, ni: nat, t: Tile, m: nat, n: nat, base: nat, w: nat): seq<bool>
    decreases t.n + 1 - n, t.m + 1 - m
  {
    if n > t.n then []
    else if m > t.m then CellsMinus(f, ni, t, 0, n + 1, base, w)
    else Bits(Max(0, TokenOf(f, ni, t, m, n) - base), w) + CellsMinus(f, ni, t, m + 1, n, base, w)
  }

  ghost function MinBody(f: seq<word>, ni: nat, t: Tile, nbits: nat): seq<bool>
  {
    var code, low := TileCodeOf(f, ni, t), TileLow(f, ni, t, 0, 0);
    if code == 0 then Bits(low, nbits)
    else if code == 15 then CellsMinus(f, ni, t, 0, 0, 0, 16)
    else Bits(low, nbits) + CellsMinus(f, ni, t, 0, 0, low, code)
  }

  ghost function MinTile(f: seq<word>, ni: nat, t: Tile, nbits: nat): seq<bool>
  {
    Bits(TileCodeOf(f, ni, t), 4) + MinBody(f, ni, t, nbits)
  }

  /** The tiles from the one at (i, j) on. */
  ghost function MinTiles(f: seq<word>, ni: nat, nj: nat, i: nat, j: nat, nbits: nat): seq<bool>
    decreases nj + SIDE - j, ni + SIDE - i
  {
    if j > nj then []
    else if i > ni then if ni == 0 then [] else MinTiles(f, ni, nj, 1, j + SIDE, nbits)
    else MinTile(f, ni, TileAt(i, j, ni, nj, SIDE), nbits) + MinTiles(f, ni, nj, i + SIDE, j, nbits)
  }

  ghost function MinCode(f: seq<word>, ni: nat, nj: nat, nbits: nat): seq<bool>
  {
    MinTiles(f, ni, nj, 1, 1, nbits)
  }

  // ----- Ranges and widths -----

  /** Every token of a tile lies between its bounds. */
  lemma {:induction false} TileRange(f: seq<word>, ni: nat, t: Tile, m: nat, n: nat, m': nat, n': nat)
    requires m' <= t.m && n' <= t.n && (n < n' || (n == n' && m <= m'))
    ensures TileLow(f, ni, t, m, n) <= TokenOf(f, ni, t, m', n') <= TileHigh(f, ni, t, m, n)
    decreases t.n + 1 - n, t.m + 1 - m
  {
    if m > t.m {
      TileRange(f, ni, t, 0, n + 1, m', n');
    } else if n < n' || m < m' {
      TileRange(f, ni, t, m + 1, n, m', n');
    }
  }

  lemma {:induction false} TileHighBound(f: seq<word>, ni: nat, nj: nat, nbits: nat, t: Tile, m: nat, n: nat)
    requires IsShortField(f, ni, nj, nbits)
    ensures TileHigh(f, ni, t, m, n) < Pow2(nbits)
    decreases t.n + 1 - n, t.m + 1 - m
  {
    hide Pow2;
    if n > t.n {
    } else if m > t.m {
      TileHighBound(f, ni, nj, nbits, t, 0, n + 1);
    } else {
      TileHighBound(f, ni, nj, nbits, t, m + 1, n);
    }
  }

  /** A tile of one token has no range. */
  lemma OneToken(f: seq<word>, ni: nat, t: Tile)
    requires t.m == 0 && t.n == 0
    ensures TileLow(f, ni, t, 0, 0) == TileHigh(f, ni, t, 0, 0)
  {
    assert TileLow(f, ni, t, 0, 1) == WORD_BASE - 1 && TileHigh(f, ni, t, 0, 1) == 0;
    assert TileLow(f, ni, t, 1, 0) == TileLow(f, ni, t, 0, 1) && TileHigh(f, ni, t, 1, 0) == TileHigh(f, ni, t, 0, 1);
  }

  /** Every width code fits its 4 bits, and every difference of the tile its width. */
  lemma CodesFit(f: seq<word>, ni: nat, nj: nat, nbits: nat, t: Tile)
    requires IsShortField(f, ni, nj, nbits)
    ensures var code, low, high := TileCodeOf(f, ni, t), TileLow(f, ni, t, 0, 0), TileHigh(f, ni, t, 0, 0);
      low <= high < Pow2(nbits) <= 0x1_0000 && code <= 15 && (code == 0 <==> low == high) &&
      (0 < code < 15 ==> high - low < Pow2(code))
  {
    hide TileLow, TileHigh, Pow2;
    TileHighBound(f, ni, nj, nbits, t, 0, 0);
    TileRange(f, ni, t, 0, 0, 0, 0);
    Pow2Monotonic(nbits, 16);
    Pow2Values();
    BitLengthBounds(TileHigh(f, ni, t, 0, 0) - TileLow(f, ni, t, 0, 0));
    BitLengthMost(TileHigh(f, ni, t, 0, 0) - TileLow(f, ni, t, 0, 0), 16);
  }

  /** A width code is no larger than the width of the tokens. */
  lemma CodeWithin(f: seq<word>, ni: nat, nj: nat, nbits: nat, t: Tile)
    requires IsShortField(f, ni, nj, nbits)
    ensures TileCodeOf(f, ni, t) <= nbits
  {
    hide TileLow, TileHigh, Pow2, BitLength;
    TileHighBound(f, ni, nj, nbits, t, 0, 0);
    BitLengthMost(Max(0, TileHigh(f, ni, t, 0, 0) - TileLow(f, ni, t, 0, 0)), nbits);
  }

  // ----- Size -----

  lemma {:induction false} CellsMinusLength(f: seq<word>, ni: nat, t: Tile, m: nat, n: nat, base: nat, w: nat)
    ensures |CellsMinus(f, ni, t, m, n, base, w)| == CellsLeft(t, m, n) * w
    decreases t.n + 1 - n, t.m + 1 - m
  {
    if n > t.n {
    } else if m > t.m {
      CellsMinusLength(f, ni, t, 0, n + 1, base, w);
    } else {
      CellsMinusLength(f, ni, t, m + 1, n, base, w);
      Distribute(1, CellsLeft(t, m + 1, n), w);
    }
  }

  /** Bits a point that the code takes at most. */
  function MostBits(nbits: nat): nat
  {
    if nbits <= 4 then 4 + 2 * nbits else 24
  }

  lemma MinTileBound(f: seq<word>, ni: nat, nj: nat, nbits: nat, t: Tile, cells: nat)
    requires IsShortField(f, ni, nj, nbits) && cells == CellsLeft(t, 0, 0) == (t.m + 1) * (t.n + 1)
    ensures |MinTile(f, ni, t, nbits)| <= cells * MostBits(nbits)
  {
    hide TileLow, TileHigh, CellsMinus, CellsLeft, CodeOfRange, Pow2;
    var code, low := TileCodeOf(f, ni, t), TileLow(f, ni, t, 0, 0);
    CodesFit(f, ni, nj, nbits, t);
    CodeWithin(f, ni, nj, nbits, t);
    CellsMinusLength(f, ni, t, 0, 0, 0, 16);
    CellsMinusLength(f, ni, t, 0, 0, low, code);
    AtLeastOne(t);
    if code != 0 {
      if cells == 1 { OneToken(f, ni, t); }
      if nbits <= 4 {
        NarrowTile(cells, code, nbits);
      } else if code < 15 {
        MulAtMost(code, 14, cells);
      }
    }
  }

  lemma NarrowTile(cells: nat, code: nat, nbits: nat)
    requires cells >= 1 && code <= nbits <= 4
    ensures 4 + nbits + cells * code <= cells * MostBits(nbits)
  {
    MulAtMost(code, nbits, cells);
    MulAtMost(1, cells, 4 + nbits);
    Distribute(4 + nbits, nbits, cells);
  }

  lemma AtLeastOne(t: Tile)
    ensures (t.m + 1) * (t.n + 1) >= 1
    ensures (t.m + 1) * (t.n + 1) == 1 ==> t.m == 0 && t.n == 0
  {
    MulAtMost(1, t.n + 1, t.m + 1);
    MulAtMost(1, t.m + 1, t.n + 1);
  }

  lemma {:induction false} MinTilesBound(f: seq<word>, ni: nat, nj: nat, nbits: nat, i: nat, j: nat)
    requires IsShortField(f, ni, nj, nbits) && i >= 1 && j >= 1
    ensures |MinTiles(f, ni, nj, i, j, nbits)| <= PointsLeft(ni, nj, i, j, 1, SIDE) * MostBits(nbits)
    decreases nj + SIDE - j, ni + SIDE - i
  {
    hide MinTile, PointsLeft, Pow2;
    if j > nj {
    } else if i > ni {
      PointsOfNextBand(ni, nj, i, j, 1, SIDE);
      MinTilesBound(f, ni, nj, nbits, 1, j + SIDE);
    } else {
      PointsOfTile(ni, nj, i, j, 1, SIDE);
      MinTileBound(f, ni, nj, nbits, TileAt(i, j, ni, nj, SIDE), CellsLeft(TileAt(i, j, ni, nj, SIDE), 0, 0));
      MinTilesBound(f, ni, nj, nbits, i + SIDE, j);
    }
  }

  lemma SidesPositive(f: seq<word>, ni: nat, nj: nat, nbits: nat)
    requires IsShortField(f, ni, nj, nbits)
    ensures (nj + 1 - 1) * (ni + 1 - 1) == ni * nj
  {
  }

  /** The code takes at most 24 bits a point, and 4 more than twice their width for tokens
      of at most 4 bits. */
  lemma MinCodeBound(f: seq<word>, ni: nat, nj: nat, nbits: nat)
    requires IsShortField(f, ni, nj, nbits)
    ensures |MinCode(f, ni, nj, nbits)| <= MostBits(nbits) * (ni * nj) && MostBits(nbits) <= 24
  {
    hide PointsLeft, MinTiles, Pow2;
    SidesPositive(f, ni, nj, nbits);
    MinTilesBound(f, ni, nj, nbits, 1, 1);
    AllPointsLeft(ni, nj, 1, SIDE);
  }

  // ----- The packer -----

  lemma TokenOfTile(f: seq<word>, ni: nat, nj: nat, t: Tile, m: nat, n: nat)
    requires |f| == ni * nj && InField(t, ni, nj) && m <= t.m && n <= t.n
    ensures 0 <= Ftn2c(t.i + m, t.j + n, ni) < |f|
    ensures TokenOf(f, ni, t, m, n) == f[Ftn2c(t.i + m, t.j + n, ni)]
  {
    IndexOfPoint(t.i + m, t.j + n, ni, nj);
  }

  /** The smallest and the largest token of a tile. */
  method LocalRange(ufld: array<word>, ni: nat, nj: nat, t: Tile, ghost f: seq<word>)
    returns (localMin: word, localMax: word)
    requires ufld.Length >= |f| == ni * nj && ufld[..|f|] == f && InField(t, ni, nj)
    ensures localMin == TileLow(f, ni, t, 0, 0) && localMax == TileHigh(f, ni, t, 0, 0)
  {
    hide Ftn2c, TokenOf;
    TokenOfTile(f, ni, nj, t, 0, 0);
    TileRange(f, ni, t, 0, 0, 0, 0);
    localMin := ufld[Ftn2c(t.i, t.j, ni)];
    assert localMin == f[Ftn2c(t.i, t.j, ni)];
    localMax := localMin;
    for n := 0 to t.n + 1
      invariant Least(localMin, TileLow(f, ni, t, 0, n)) == TileLow(f, ni, t, 0, 0)
      invariant Max(localMax, TileHigh(f, ni, t, 0, n)) == TileHigh(f, ni, t, 0, 0)
    {
      for m := 0 to t.m + 1
        invariant Least(localMin, TileLow(f, ni, t, m, n)) == TileLow(f, ni, t, 0, 0)
        invariant Max(localMax, TileHigh(f, ni, t, m, n)) == TileHigh(f, ni, t, 0, 0)
      {
        TokenOfTile(f, ni, nj, t, m, n);
        var token := ufld[Ftn2c(t.i + m, t.j + n, ni)];
        assert token == f[Ftn2c(t.i + m, t.j + n, ni)];
        if localMin > token { localMin := token; }
        if localMax < token { localMax := token; }
      }
    }
  }

  function Least(x: word, y: word): word
  {
    if x < y then x else y
  }

  /** The differences of a tile from the base fit in w bits. */
  ghost predicate DifferencesFit(f: seq<word>, ni: nat, t: Tile, base: nat, w: nat)
  {
    1 <= w <= 16 && forall m: nat, n: nat | m <= t.m && n <= t.n :: base <= TokenOf(f, ni, t, m, n) < base + Pow2(w)
  }

  lemma DifferencesOfTile(f: seq<word>, ni: nat, nj: nat, nbits: nat, t: Tile)
    requires IsShortField(f, ni, nj, nbits) && TileCodeOf(f, ni, t) != 0
    ensures DifferencesFit(f, ni, t, BaseOf(f, ni, t), if TileCodeOf(f, ni, t) == 15 then 16 else TileCodeOf(f, ni, t))
  {
    hide TileLow, TileHigh, Pow2, TokenOf, CodeOfRange, TileCodeOf;
    CodesFit(f, ni, nj, nbits, t);
    Pow2Values();
    var base, w := BaseOf(f, ni, t), if TileCodeOf(f, ni, t) == 15 then 16 else TileCodeOf(f, ni, t);
    if TileCodeOf(f, ni, t) < 15 {
      assert TileHigh(f, ni, t, 0, 0) < base + Pow2(w);
    } else {
      assert Pow2(w) == 0x1_0000;
    }
    forall m: nat, n: nat | m <= t.m && n <= t.n
      ensures TileLow(f, ni, t, 0, 0) <= TokenOf(f, ni, t, m, n) <= TileHigh(f, ni, t, 0, 0)
    {
      TileRange(f, ni, t, 0, 0, m, n);
    }
  }

  /** Stuffs one token of a tile. */
  method StuffDifference(s: BitWriter, ufld: array<word>, ni: nat, nj: nat, t: Tile, m: nat, n: nat, base: nat, w: nat,
                         ghost f: seq<word>, ghost rest: seq<bool>, ghost all: seq<bool>)
    requires s.Valid() && s.z != ufld && ufld.Length >= |f| == ni * nj && ufld[..|f|] == f && InField(t, ni, nj)
    requires DifferencesFit(f, ni, t, base, w) && m <= t.m && n <= t.n
    requires Due(s.Stream(), Bits(Max(0, TokenOf(f, ni, t, m, n) - base), w) + rest, all, s.Capacity())
    modifies s, s.z
    ensures s.Valid() && Due(s.Stream(), rest, all, s.Capacity()) && s.cur >= old(s.cur)
    ensures forall k | 0 <= k < s.z.Length && (k < old(s.cur) || s.cur <= k) :: s.z[k] == old(s.z[k])
  {
    hide Ftn2c, TokenOf, Bits, Pow2, StreamOf;
    TokenOfTile(f, ni, nj, t, m, n);
    var k := Ftn2c(t.i + m, t.j + n, ni);
    assert ufld[k] == f[k];
    var token: word := ufld[k] - base;
    Append(s.Stream(), Bits(token, w), rest, all);
    s.Stuff(token, w);
  }

  /** Stuffs a row of a tile. */
  method StuffDifferenceRow(s: BitWriter, ufld: array<word>, ni: nat, nj: nat, t: Tile, n: nat, base: nat, w: nat,
                            ghost f: seq<word>, ghost rest: seq<bool>, ghost all: seq<bool>)
    requires s.Valid() && s.z != ufld && ufld.Length >= |f| == ni * nj && ufld[..|f|] == f && InField(t, ni, nj)
    requires DifferencesFit(f, ni, t, base, w) && n <= t.n
    requires Due(s.Stream(), CellsMinus(f, ni, t, 0, n, base, w) + rest, all, s.Capacity())
    modifies s, s.z
    ensures s.Valid() && Due(s.Stream(), CellsMinus(f, ni, t, 0, n + 1, base, w) + rest, all, s.Capacity())
    ensures s.cur >= old(s.cur)
    ensures forall k | 0 <= k < s.z.Length && (k < old(s.cur) || s.cur <= k) :: s.z[k] == old(s.z[k])
  {
    hide Ftn2c, TokenOf, Bits, Pow2, StreamOf, DifferencesFit, CellsMinus, Due;
    for m := 0 to t.m + 1
      invariant s.Valid() && Due(s.Stream(), CellsMinus(f, ni, t, m, n, base, w) + rest, all, s.Capacity())
      invariant s.cur >= old(s.cur)
      invariant forall k | 0 <= k < s.z.Length && (k < old(s.cur) || s.cur <= k) :: s.z[k] == old(s.z[k])
    {
      DifferenceStep(f, ni, t, m, n, base, w, rest);
      StuffDifference(s, ufld, ni, nj, t, m, n, base, w, f, CellsMinus(f, ni, t, m + 1, n, base, w) + rest, all);
    }
    DifferenceRowDone(f, ni, t, n, base, w);
  }

  /** The difference at a point, then those of the points after it. */
  lemma DifferenceStep(f: seq<word>, ni: nat, t: Tile, m: nat, n: nat, base: nat, w: nat, rest: seq<bool>)
    requires ni > 0 && m <= t.m && n <= t.n
    ensures CellsMinus(f, ni, t, m, n, base, w) + rest ==
      Bits(Max(0, TokenOf(f, ni, t, m, n) - base), w) + (CellsMinus(f, ni, t, m + 1, n, base, w) + rest)
  {
    hide Bits, TokenOf;
  }

  lemma DifferenceRowDone(f: seq<word>, ni: nat, t: Tile, n: nat, base: nat, w: nat)
    requires ni > 0 && n <= t.n
    ensures CellsMinus(f, ni, t, t.m + 1, n, base, w) == CellsMinus(f, ni, t, 0, n + 1, base, w)
  {
  }

  /** Stuffs the tokens of a tile less the base. */
  method StuffDifferences(s: BitWriter, ufld: array<word>, ni: nat, nj: nat, t: Tile, base: nat, w: nat,
                          ghost f: seq<word>, ghost rest: seq<bool>, ghost all: seq<bool>)
    requires s.Valid() && s.z != ufld && ufld.Length >= |f| == ni * nj && ufld[..|f|] == f && InField(t, ni, nj)
    requires DifferencesFit(f, ni, t, base, w)
    requires Due(s.Stream(), CellsMinus(f, ni, t, 0, 0, base, w) + rest, all, s.Capacity())
    modifies s, s.z
    ensures s.Valid() && Due(s.Stream(), rest, all, s.Capacity()) && s.cur >= old(s.cur)
    ensures forall k | 0 <= k < s.z.Length && (k < old(s.cur) || s.cur <= k) :: s.z[k] == old(s.z[k])
  {
    hide Ftn2c, TokenOf, Bits, Pow2, StreamOf, DifferencesFit, Due;
    for n := 0 to t.n + 1
      invariant s.Valid() && Due(s.Stream(), CellsMinus(f, ni, t, 0, n, base, w) + rest, all, s.Capacity())
      invariant s.cur >= old(s.cur)
      invariant forall k | 0 <= k < s.z.Length && (k < old(s.cur) || s.cur <= k) :: s.z[k] == old(s.z[k])
    {
      StuffDifferenceRow(s, ufld, ni, nj, t, n, base, w, f, rest, all);
    }
    assert [] + rest == rest;
  }

  /** One tile. */
  method StuffMinTile(s: BitWriter, ufld: array<word>, ni: nat, nj: nat, nbits: nat, t: Tile,
                      ghost f: seq<word>, ghost rest: seq<bool>, ghost all: seq<bool>)
    requires s.Valid() && s.z != ufld && ufld.Length >= |f| && ufld[..|f|] == f
    requires IsShortField(f, ni, nj, nbits) && InField(t, ni, nj)
    requires Due(s.Stream(), MinTile(f, ni, t, nbits) + rest, all, s.Capacity())
    modifies s, s.z
    ensures s.Valid() && Due(s.Stream(), rest, all, s.Capacity()) && s.cur >= old(s.cur)
    ensures forall k | 0 <= k < s.z.Length && (k < old(s.cur) || s.cur <= k) :: s.z[k] == old(s.z[k])
  {
    hide Ftn2c, TokenOf, Bits, Pow2, StreamOf, CellsMinus, TileLow, TileHigh, DifferencesFit;
    var localMin, localMax := LocalRange(ufld, ni, nj, t, f);
    CodesFit(f, ni, nj, nbits, t);
    Pow2Values();
    var nbitsNeeded := BitsNeeded(localMax - localMin);
    if nbitsNeeded == 16 { nbitsNeeded := 15; }
    ghost var body := MinBody(f, ni, t, nbits);
    assert Bits(nbitsNeeded, 4) + body + rest == Bits(nbitsNeeded, 4) + (body + rest);
    Append(s.Stream(), Bits(nbitsNeeded, 4), body + rest, all);
    s.Stuff(nbitsNeeded, 4);
    StuffMinBody(s, ufld, ni, nj, nbits, t, localMin, nbitsNeeded, f, rest, all);
  }

  /** What follows the width code of a tile. */
  method StuffMinBody(s: BitWriter, ufld: array<word>, ni: nat, nj: nat, nbits: nat, t: Tile, localMin: word,
                      nbitsNeeded: nat,
                      ghost f: seq<word>, ghost rest: seq<bool>, ghost all: seq<bool>)
    requires s.Valid() && s.z != ufld && ufld.Length >= |f| && ufld[..|f|] == f
    requires IsShortField(f, ni, nj, nbits) && InField(t, ni, nj)
    requires localMin == TileLow(f, ni, t, 0, 0) && nbitsNeeded == TileCodeOf(f, ni, t)
    requires Due(s.Stream(), MinBody(f, ni, t, nbits) + rest, all, s.Capacity())
    modifies s, s.z
    ensures s.Valid() && Due(s.Stream(), rest, all, s.Capacity()) && s.cur >= old(s.cur)
    ensures forall k | 0 <= k < s.z.Length && (k < old(s.cur) || s.cur <= k) :: s.z[k] == old(s.z[k])
  {
    hide Ftn2c, TokenOf, Bits, Pow2, StreamOf, CellsMinus, TileLow, TileHigh, TileCodeOf, DifferencesFit;
    CodesFit(f, ni, nj, nbits, t);
    if nbitsNeeded != 0 { DifferencesOfTile(f, ni, nj, nbits, t); }
    match nbitsNeeded {
      case 0 =>
        Append(s.Stream(), Bits(localMin, nbits), rest, all);
        s.Stuff(localMin, nbits);
      case 15 =>
        StuffDifferences(s, ufld, ni, nj, t, 0, 16, f, rest, all);
      case _ =>
        StuffRange(s, ufld, ni, nj, nbits, t, localMin, nbitsNeeded, f, rest, all);
    }
  }

  /** The minimum of a tile, then the differences from it. */
  method StuffRange(s: BitWriter, ufld: array<word>, ni: nat, nj: nat, nbits: nat, t: Tile, localMin: word, w: nat,
                    ghost f: seq<word>, ghost rest: seq<bool>, ghost all: seq<bool>)
    requires s.Valid() && s.z != ufld && ufld.Length >= |f| == ni * nj && ufld[..|f|] == f && InField(t, ni, nj)
    requires DifferencesFit(f, ni, t, localMin, w) && 1 <= nbits <= 16 && localMin < Pow2(nbits)
    requires Due(s.Stream(), Bits(localMin, nbits) + CellsMinus(f, ni, t, 0, 0, localMin, w) + rest, all, s.Capacity())
    modifies s, s.z
    ensures s.Valid() && Due(s.Stream(), rest, all, s.Capacity()) && s.cur >= old(s.cur)
    ensures forall k | 0 <= k < s.z.Length && (k < old(s.cur) || s.cur <= k) :: s.z[k] == old(s.z[k])
  {
    hide Ftn2c, TokenOf, Bits, Pow2, StreamOf, CellsMinus, DifferencesFit;
    ghost var cells := CellsMinus(f, ni, t, 0, 0, localMin, w);
    assert Bits(localMin, nbits) + cells + rest == Bits(localMin, nbits) + (cells + rest);
    Append(s.Stream(), Bits(localMin, nbits), cells + rest, all);
    s.Stuff(localMin, nbits);
    StuffDifferences(s, ufld, ni, nj, t, localMin, w, f, rest, all);
  }

  /** A row of tiles. */
  method StuffMinRow(s: BitWriter, ufld: array<word>, ni: nat, nj: nat, nbits: nat, j: nat, ghost f: seq<word>,
                     ghost all: seq<bool>)
    requires s.Valid() && s.z != ufld && ufld.Length >= |f| && ufld[..|f|] == f && IsShortField(f, ni, nj, nbits)
    requires 1 <= j <= nj
    requires Due(s.Stream(), MinTiles(f, ni, nj, 1, j, nbits), all, s.Capacity())
    modifies s, s.z
    ensures s.Valid() && Due(s.Stream(), MinTiles(f, ni, nj, 1, j + SIDE, nbits), all, s.Capacity())
    ensures s.cur >= old(s.cur)
    ensures forall k | 0 <= k < s.z.Length && (k < old(s.cur) || s.cur <= k) :: s.z[k] == old(s.z[k])
  {
    hide Ftn2c, Bits, Pow2, StreamOf, MinTile, Due;
    var i := 1;
    while i <= ni
      invariant 1 <= i && s.Valid() && s.cur >= old(s.cur)
      invariant Due(s.Stream(), MinTiles(f, ni, nj, i, j, nbits), all, s.Capacity())
      invariant forall k | 0 <= k < s.z.Length && (k < old(s.cur) || s.cur <= k) :: s.z[k] == old(s.z[k])
    {
      StuffMinTile(s, ufld, ni, nj, nbits, TileAt(i, j, ni, nj, SIDE), f, MinTiles(f, ni, nj, i + SIDE, j, nbits), all);
      i := i + SIDE;
    }
  }

  /** All the tiles. */
  method StuffMinTiles(s: BitWriter, ufld: array<word>, ni: nat, nj: nat, nbits: nat, ghost f: seq<word>,
                       ghost all: seq<bool>)
    requires s.Valid() && s.z != ufld && ufld.Length >= |f| && ufld[..|f|] == f && IsShortField(f, ni, nj, nbits)
    requires Due(s.Stream(), MinCode(f, ni, nj, nbits), all, s.Capacity())
    modifies s, s.z
    ensures s.Valid() && s.Stream() == all && s.cur >= old(s.cur)
    ensures forall k | 0 <= k < s.z.Length && (k < old(s.cur) || s.cur <= k) :: s.z[k] == old(s.z[k])
  {
    hide Ftn2c, Bits, Pow2, StreamOf, MinTile;
    var j := 1;
    while j <= nj
      invariant 1 <= j && s.Valid() && s.cur >= old(s.cur)
      invariant Due(s.Stream(), MinTiles(f, ni, nj, 1, j, nbits), all, s.Capacity())
      invariant forall k | 0 <= k < s.z.Length && (k < old(s.cur) || s.cur <= k) :: s.z[k] == old(s.z[k])
    {
      StuffMinRow(s, ufld, ni, nj, nbits, j, f, all);
      j := j + SIDE;
    }
    assert s.Stream() + [] == s.Stream();
  }

  /** The code of a field from word `start` on; the result is the length in bytes of what is
      written there, plus one. */
  method PackTokensMinimum(z: array<word>, start: nat, ufld: array<word>, ni: nat, nj: nat, nbits: nat,
                           ghost f: seq<word>)
    returns (zlng: nat)
    requires z != ufld && ufld.Length >= |f| && ufld[..|f|] == f && IsShortField(f, ni, nj, nbits)
    requires start < z.Length && |MinCode(f, ni, nj, nbits)| <= 32 * (z.Length - start)
    modifies z
    ensures zlng == 1 + 4 * WordsFor(|MinCode(f, ni, nj, nbits)|)
    ensures Stored(z[..], start, MinCode(f, ni, nj, nbits))
    ensures forall k | 0 <= k < start :: z[k] == old(z[k])
  {
    hide Bits, Pow2, StreamOf, MinTiles, WordsBits, Stored;
    z[start] := 0;
    var s := new BitWriter(z, start);
    ghost var all := MinCode(f, ni, nj, nbits);
    assert [] + all == all;
    StuffMinTiles(s, ufld, ni, nj, nbits, f, all);
    s.Close();
    zlng := 1 + (s.cur - start) * 4;
  }

  // ----- The unpacker -----

  ghost predicate TileRestored(ufld: seq<word>, before: seq<word>, f: seq<word>, ni: nat, t: Tile)
    requires ni > 0 && |f| <= |ufld| == |before|
  {
    forall k: nat | k < |f| :: ufld[k] == if InTile(k, t, ni) then f[k] else before[k]
  }

  /** A tile of equal tokens. */
  method FillTile(ufld: array<word>, ni: nat, nj: nat, t: Tile, localMin: word, ghost f: seq<word>)
    requires ufld.Length >= |f| == ni * nj && InField(t, ni, nj) && ni > 0
    requires localMin == TileLow(f, ni, t, 0, 0) == TileHigh(f, ni, t, 0, 0)
    modifies ufld
    ensures TileRestored(ufld[..], old(ufld[..]), f, ni, t)
  {
    hide Row, Col, Ftn2c, TileLow, TileHigh, TokenOf;
    ghost var ufld0 := ufld[..];
    AllPoints(ni, nj);
    for n := 0 to t.n + 1
      invariant forall k: nat | k < |f| :: ufld[k] == if CellDone(k, t, ni, 0, n) then f[k] else ufld0[k]
    {
      for m := 0 to t.m + 1
        invariant forall k: nat | k < |f| :: ufld[k] == if CellDone(k, t, ni, m, n) then f[k] else ufld0[k]
      {
        IndexOfPoint(t.i + m, t.j + n, ni, nj);
        TokenOfTile(f, ni, nj, t, m, n);
        TileRange(f, ni, t, 0, 0, m, n);
        ufld[Ftn2c(t.i + m, t.j + n, ni)] := localMin;
      }
    }
  }

  /** Reads one token of a tile. */
  method TakeDifference(r: BitReader, ni: nat, nj: nat, t: Tile, m: nat, n: nat, base: nat, w: nat, ghost nbits: nat,
                        ghost f: seq<word>, ghost rest: seq<bool>) returns (token: word)
    requires r.Valid() && IsShortField(f, ni, nj, nbits) && InField(t, ni, nj) && m <= t.m && n <= t.n
    requires DifferencesFit(f, ni, t, base, w) && rest != []
    requires r.Rest() == Bits(Max(0, TokenOf(f, ni, t, m, n) - base), w) + rest
    modifies r
    ensures r.Valid() && r.Rest() == rest
    ensures token == TokenOf(f, ni, t, m, n)
  {
    hide Ftn2c, Bits, Pow2, RestOf, LowZeros, TokenOf;
    token := r.Take(w, TokenOf(f, ni, t, m, n) - base, rest);
    TokenOfTile(f, ni, nj, t, m, n);
    ShortToken(f, ni, nj, nbits, Ftn2c(t.i + m, t.j + n, ni));
    token := (token + base) % 0x1_0000;
  }

  /** Reads the tokens of a tile and adds the base, in 16 bits. */
  method TakeDifferences(r: BitReader, ufld: array<word>, ni: nat, nj: nat, t: Tile, base: nat, w: nat,
                         ghost nbits: nat,
                         ghost f: seq<word>, ghost rest: seq<bool>)
    requires r.Valid() && r.z != ufld && ufld.Length >= |f| && IsShortField(f, ni, nj, nbits) && InField(t, ni, nj)
    requires DifferencesFit(f, ni, t, base, w) && rest != []
    requires r.Rest() == CellsMinus(f, ni, t, 0, 0, base, w) + rest
    modifies r, ufld
    ensures r.Valid() && r.Rest() == rest
    ensures TileRestored(ufld[..], old(ufld[..]), f, ni, t)
  {
    hide Row, Col, Ftn2c, Bits, Pow2, RestOf, LowZeros, TokenOf, DifferencesFit;
    ghost var ufld0 := ufld[..];
    AllPoints(ni, nj);
    for n := 0 to t.n + 1
      invariant r.Valid() && r.Rest() == CellsMinus(f, ni, t, 0, n, base, w) + rest
      invariant forall k: nat | k < |f| :: ufld[k] == if CellDone(k, t, ni, 0, n) then f[k] else ufld0[k]
    {
      for m := 0 to t.m + 1
        invariant r.Valid() && r.Rest() == CellsMinus(f, ni, t, m, n, base, w) + rest
        invariant forall k: nat | k < |f| :: ufld[k] == if CellDone(k, t, ni, m, n) then f[k] else ufld0[k]
      {
        IndexOfPoint(t.i + m, t.j + n, ni, nj);
        TokenOfTile(f, ni, nj, t, m, n);
        ghost var after := CellsMinus(f, ni, t, m + 1, n, base, w);
        assert r.Rest() == Bits(Max(0, TokenOf(f, ni, t, m, n) - base), w) + (after + rest);
        var token := TakeDifference(r, ni, nj, t, m, n, base, w, nbits, f, after + rest);
        ufld[Ftn2c(t.i + m, t.j + n, ni)] := token;
      }
    }
    assert [] + rest == rest;
  }

  lemma ShortToken(f: seq<word>, ni: nat, nj: nat, nbits: nat, k: nat)
    requires IsShortField(f, ni, nj, nbits) && k < |f|
    ensures f[k] < 0x1_0000
  {
    Pow2Monotonic(nbits, 16);
    Pow2Values();
  }

  /** One tile. */
  method TakeMinTile(r: BitReader, ufld: array<word>, ni: nat, nj: nat, nbits: nat, t: Tile,
                     ghost f: seq<word>, ghost rest: seq<bool>)
    requires r.Valid() && r.z != ufld && ufld.Length >= |f| && IsShortField(f, ni, nj, nbits) && InField(t, ni, nj)
    requires rest != [] && r.Rest() == MinTile(f, ni, t, nbits) + rest
    modifies r, ufld
    ensures r.Valid() && r.Rest() == rest
    ensures TileRestored(ufld[..], old(ufld[..]), f, ni, t)
  {
    hide Row, Col, Ftn2c, Bits, Pow2, RestOf, LowZeros, TokenOf, TileLow, TileHigh, CellsMinus, DifferencesFit;
    hide TileRestored;
    CodesFit(f, ni, nj, nbits, t);
    Pow2Values();
    ghost var code, low, body := TileCodeOf(f, ni, t), TileLow(f, ni, t, 0, 0), MinBody(f, ni, t, nbits);
    if code != 0 { DifferencesOfTile(f, ni, nj, nbits, t); }
    assert r.Rest() == Bits(code, 4) + (body + rest);
    var nbitsNeeded := r.Take(4, code, body + rest);
    if nbitsNeeded == 0 {
      var localMin := r.Take(nbits, low, rest);
      FillTile(ufld, ni, nj, t, localMin, f);
    } else if nbitsNeeded == 15 || nbitsNeeded == 16 {
      TakeDifferences(r, ufld, ni, nj, t, 0, 16, nbits, f, rest);
    } else {
      ghost var cells := CellsMinus(f, ni, t, 0, 0, low, nbitsNeeded);
      assert r.Rest() == Bits(low, nbits) + (cells + rest);
      var localMin := r.Take(nbits, low, cells + rest);
      TakeDifferences(r, ufld, ni, nj, t, localMin, nbitsNeeded, nbits, f, rest);
    }
  }

  /** All the tiles. */
  method TakeMinTiles(r: BitReader, ufld: array<word>, ni: nat, nj: nat, nbits: nat, ghost f: seq<word>,
                      ghost rest: seq<bool>)
    requires r.Valid() && r.z != ufld && IsShortField(f, ni, nj, nbits) && ufld.Length >= |f| && rest != []
    requires r.Rest() == MinTiles(f, ni, nj, 1, 1, nbits) + rest
    modifies r, ufld
    ensures ufld[..|f|] == f
  {
    hide Row, Col, Ftn2c, Bits, Pow2, RestOf, LowZeros, MinTile;
    AllPoints(ni, nj);
    var j := 1;
    while j <= nj
      invariant 1 <= j && r.Valid() && r.Rest() == MinTiles(f, ni, nj, 1, j, nbits) + rest
      invariant forall k: nat | k < |f| && TileDone(k, ni, 1, j, 1, SIDE) :: ufld[k] == f[k]
    {
      var i := 1;
      while i <= ni
        invariant 1 <= i && r.Valid() && r.Rest() == MinTiles(f, ni, nj, i, j, nbits) + rest
        invariant forall k: nat | k < |f| && TileDone(k, ni, i, j, 1, SIDE) :: ufld[k] == f[k]
      {
        var t := TileAt(i, j, ni, nj, SIDE);
        ghost var after := MinTiles(f, ni, nj, i + SIDE, j, nbits);
        assert MinTile(f, ni, t, nbits) + after + rest == MinTile(f, ni, t, nbits) + (after + rest);
        TakeMinTile(r, ufld, ni, nj, nbits, t, f, after + rest);
        i := i + SIDE;
      }
      j := j + SIDE;
    }
    SameField(ufld, f, ni, nj);
  }

  /** Restores a field from the stream that starts at word `start`. */
  method UnpackTokensMinimum(ufld: array<word>, z: array<word>, start: nat, ni: nat, nj: nat, nbits: nat,
                             ghost f: seq<word>)
    requires z != ufld && IsShortField(f, ni, nj, nbits) && ufld.Length >= ni * nj
    requires Holds(z[..], start, MinCode(f, ni, nj, nbits))
    modifies ufld
    ensures ufld[..ni * nj] == f
  {
    hide Bits, Pow2, RestOf, LowZeros, WordsBits, MinTiles;
    var r := new BitReader(z, start);
    HoldsAhead(z, start, MinCode(f, ni, nj, nbits));
    TakeMinTiles(r, ufld, ni, nj, nbits, f, r.Rest()[|MinCode(f, ni, nj, nbits)|..]);
  }
}
