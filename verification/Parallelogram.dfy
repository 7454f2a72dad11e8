/** The code of a field by the parallelogram predictor: the first row and the first
    column as they are, then the prediction errors of the other points in 3x3 tiles, each
    tile with the width that its largest error needs.  The three coders of the library
    differ in the size of their tokens and of the container of a tile width. */
module Parallelogram {
  import opened Words
  import opened BitStream
  import opened Grid

  /** `packTokensParallelogram_8`, `packTokensParallelogram` and
      `packTokensParallelogram32`. */
  datatype Coder = Coder8 | Coder16 | Coder32

  const STEP: nat := 3

  /** The widest tokens of a coder: exponents, packed integers, mantissas. */
  function MaxBits(c: Coder): (b: nat)
    ensures 8 <= b <= 23
  {
    match c
    case Coder8 => 8
    case Coder16 => 16
    case Coder32 => 23
  }

  /** Size in bits of a decoded token in memory. */
  function Storage(c: Coder): (b: nat)
    ensures MaxBits(c) <= b <= 32
  {
    match c
    case Coder8 => 8
    case Coder16 => 16
    case Coder32 => 32
  }

  /** A field of ni by nj tokens of nbits bits. */
  ghost predicate IsField(c: Coder, f: seq<word>, ni: nat, nj: nat, nbits: nat)
  {
    ni >= 2 && nj >= 2 && |f| == ni * nj && 1 <= nbits <= MaxBits(c) &&
    forall k | 0 <= k < |f| :: f[k] < Pow2(nbits)
  }

  function At(f: seq<word>, k: int): word
  {
    if 0 <= k < |f| then f[k] else 0
  }

  /** The error made by predicting point k from its left, upper and upper left neighbours;
      zero by convention on the first row and column, and outside the field. */
  function Residual(f: seq<word>, ni: nat, k: nat): int
    requires ni > 0
  {
    if k >= |f| || Row(k, ni) == 1 || Col(k, ni) == 1 then 0
    else At(f, k) - (At(f, k - ni) + At(f, k - 1) - At(f, k - 1 - ni))
  }

  /** The error at a point of a tile. */
  ghost function ResidualAt(f: seq<word>, ni: nat, i: nat, j: nat): int
    requires ni > 0
  {
    var k := Ftn2c(i, j, ni);
    if k < 0 then 0 else Residual(f, ni, k)
  }

  /** The largest error of a tile, from the point at offset (m, n) on. */
  ghost function TileMax(f: seq<word>, ni: nat, t: Tile, m: nat, n: nat): nat
    requires ni > 0
    decreases t.n + 1 - n, t.m + 1 - m
  {
    if n > t.n then 0
    else if m > t.m then TileMax(f, ni, t, 0, n + 1)
    else
      var rest := TileMax(f, ni, t, m + 1, n);
      var r := Abs(ResidualAt(f, ni, t.i + m, t.j + n));
      if r < rest then rest else r
  }

  /** The width code of a tile.  The 16-bit coder writes 15 for 16. */
  function WidthCode(c: Coder, localMax: nat): nat
  {
    var b := BitLength(localMax);
    if c == Coder16 && b == 16 then 15 else b
  }

  /** The width of the tokens of a tile: one more bit for the sign. */
  function Width(c: Coder, code: nat): nat
  {
    if c == Coder16 && (code == 15 || code == 16) then 17 else code + 1
  }

  /** Size of the container of the width codes.  The 16-bit coder goes from 4 to 5 bits when
      some error does not fit in 16 bits. */
  ghost function Container(c: Coder, f: seq<word>, ni: nat, nbits: nat): nat
    requires ni > 0
  {
    match c
    case Coder8 => 4
    case Coder32 => 5
    case Coder16 => if nbits >= 15 && (exists k: nat | k < |f| :: Abs(Residual(f, ni, k)) > 65535) then 5 else 4
  }

  // ----- The code -----

  /** The errors of a tile from offset (m, n) on, each truncated to w bits. */
  ghost function CellsCode(f: seq<word>, ni: nat, t: Tile, m: nat, n: nat, w: nat): seq<bool>
    requires ni > 0
    decreases t.n + 1 - n, t.m + 1 - m
  {
    if n > t.n then []
    else if m > t.m then CellsCode(f, ni, t, 0, n + 1, w)
    else Bits(ResidualAt(f, ni, t.i + m, t.j + n) % Pow2(w), w) + CellsCode(f, ni, t, m + 1, n, w)
  }

  ghost function TileBody(c: Coder, f: seq<word>, ni: nat, t: Tile): seq<bool>
    requires ni > 0
  {
    var code := WidthCode(c, TileMax(f, ni, t, 0, 0));
    if code == 0 then [] else CellsCode(f, ni, t, 0, 0, Width(c, code))
  }

  ghost function TileCode(c: Coder, f: seq<word>, ni: nat, t: Tile, container: nat): seq<bool>
    requires ni > 0
  {
    Bits(WidthCode(c, TileMax(f, ni, t, 0, 0)), container) + TileBody(c, f, ni, t)
  }

  /** The tiles from the one at (i, j) on. */
  ghost function TilesCode(c: Coder, f: seq<word>, ni: nat, nj: nat, i: nat, j: nat, container: nat): seq<bool>
    requires ni > 0
    decreases nj + STEP - j, ni + STEP - i
  {
    if j > nj then []
    else if i > ni then TilesCode(c, f, ni, nj, 2, j + STEP, container)
    else TileCode(c, f, ni, TileAt(i, j, ni, nj, STEP), container) + TilesCode(c, f, ni, nj, i + STEP, j, container)
  }

  /** The first row from column i on. */
  ghost function TopCode(f: seq<word>, ni: nat, i: nat, nbits: nat): seq<bool>
    decreases ni + 1 - i
  {
    if i > ni then [] else Bits(At(f, Ftn2c(i, 1, ni)), nbits) + TopCode(f, ni, i + 1, nbits)
  }

  /** The first column from row j on. */
  ghost function LeftCode(f: seq<word>, ni: nat, nj: nat, j: nat, nbits: nat): seq<bool>
    decreases nj + 1 - j
  {
    if j > nj then [] else Bits(At(f, Ftn2c(1, j, ni)), nbits) + LeftCode(f, ni, nj, j + 1, nbits)
  }

  ghost function FieldCode(c: Coder, f: seq<word>, ni: nat, nj: nat, nbits: nat): seq<bool>
    requires ni > 0
  {
    var container := Container(c, f, ni, nbits);
    Bits(container, 3) + (TopCode(f, ni, 1, nbits) +
      (LeftCode(f, ni, nj, 2, nbits) + TilesCode(c, f, ni, nj, 2, 2, container)))
  }

  /** The most bits that a point can take, the width code of its tile included. */
  function PerPoint(c: Coder): nat
  {
    match c
    case Coder8 => 14
    case Coder16 => 23
    case Coder32 => 30
  }

  /** Whether the 32-bit coder gives up on a tile from (i, j) on, when that many bits come
      before: after a tile with errors, too few of the `remaining` words are left. */
  ghost predicate GivesUpFrom(f: seq<word>, ni: nat, nj: nat, nbits: nat, i: nat, j: nat, remaining: int, before: nat)
    requires ni > 0
    decreases nj + STEP - j, ni + STEP - i
  {
    if j > nj then false
    else if i > ni then GivesUpFrom(f, ni, nj, nbits, 2, j + STEP, remaining, before)
    else
      var t := TileAt(i, j, ni, nj, STEP);
      var code := WidthCode(Coder32, TileMax(f, ni, t, 0, 0));
      var after := before + |TileCode(Coder32, f, ni, t, 5)|;
      (code != 0 && remaining < FlushedWords(after) + (1 + (code + 9 * nbits) / 32)) ||
      GivesUpFrom(f, ni, nj, nbits, i + STEP, j, remaining, after)
  }

  ghost predicate GivesUp(c: Coder, f: seq<word>, ni: nat, nj: nat, nbits: nat, remaining: int)
    requires ni > 0
  {
    c == Coder32 &&
    GivesUpFrom(f, ni, nj, nbits, 2, 2, remaining, 3 + |TopCode(f, ni, 1, nbits)| + |LeftCode(f, ni, nj, 2, nbits)|)
  }

  // ----- Sizes of errors and widths -----

  /** Second differences of tokens of nbits bits stay below twice their range. */
  lemma ResidualBound(c: Coder, f: seq<word>, ni: nat, nj: nat, nbits: nat, k: nat)
    requires IsField(c, f, ni, nj, nbits)
    ensures Abs(Residual(f, ni, k)) <= 2 * (Pow2(nbits) - 1)
  {
    hide Row, Col, Pow2;
    forall x ensures At(f, x) <= Pow2(nbits) - 1 {}
  }

  lemma {:induction false} TileMaxBound(f: seq<word>, ni: nat, t: Tile, m: nat, n: nat, limit: nat)
    requires ni > 0
    requires forall k: nat :: Abs(Residual(f, ni, k)) <= limit
    ensures TileMax(f, ni, t, m, n) <= limit
    decreases t.n + 1 - n, t.m + 1 - m
  {
    if n > t.n {
    } else if m > t.m {
      TileMaxBound(f, ni, t, 0, n + 1, limit);
    } else {
      TileMaxBound(f, ni, t, m + 1, n, limit);
    }
  }

  /** No error of a tile exceeds its maximum. */
  lemma {:induction false} TileMaxCovers(f: seq<word>, ni: nat, t: Tile, m: nat, n: nat, m': nat, n': nat)
    requires ni > 0 && m' <= t.m && n' <= t.n
    requires n < n' || (n == n' && m <= m')
    ensures Abs(ResidualAt(f, ni, t.i + m', t.j + n')) <= TileMax(f, ni, t, m, n)
    decreases t.n + 1 - n, t.m + 1 - m
  {
    if m > t.m {
      TileMaxCovers(f, ni, t, 0, n + 1, m', n');
    } else if n < n' || m < m' {
      TileMaxCovers(f, ni, t, m + 1, n, m', n');
    }
  }

  /** What the maximum of a tile can be, given the container: the field says 5 bits when an
      error exceeds 16 bits. */
  ghost predicate FitsContainer(c: Coder, localMax: nat, container: nat)
  {
    match c
    case Coder8 => localMax < 512 && container == 4
    case Coder32 => localMax < 0x100_0000 && container == 5
    case Coder16 => localMax < 0x2_0000 && (container == 5 || (container == 4 && localMax < 0x1_0000))
  }

  /** Every width code fits its container, and every error of the tile its width. */
  lemma WidthsFit(c: Coder, localMax: nat, container: nat)
    requires FitsContainer(c, localMax, container)
    ensures WidthCode(c, localMax) < Pow2(container)
    ensures WidthCode(c, localMax) == 0 <==> localMax == 0
    ensures WidthCode(c, localMax) != 16 || c != Coder16
    ensures 1 <= Width(c, WidthCode(c, localMax)) <= PerPoint(c) - container <= 26
    ensures localMax > 0 ==> localMax < Pow2(Width(c, WidthCode(c, localMax)) - 1)
  {
    Pow2Values();
    BitLengthBounds(localMax);
    match c {
      case Coder8 => assert Pow2(9) == 512; BitLengthMost(localMax, 9);
      case Coder32 => BitLengthMost(localMax, 24);
      case Coder16 =>
        BitLengthMost(localMax, 17);
        if localMax < 0x1_0000 { BitLengthMost(localMax, 16); }
    }
  }

  /** The container chosen for a field suits all its tiles. */
  lemma ContainerFits(c: Coder, f: seq<word>, ni: nat, nj: nat, nbits: nat, t: Tile)
    requires IsField(c, f, ni, nj, nbits)
    ensures FitsContainer(c, TileMax(f, ni, t, 0, 0), Container(c, f, ni, nbits))
    ensures 4 <= Container(c, f, ni, nbits) <= 5
  {
    Pow2Values();
    forall k: nat ensures Abs(Residual(f, ni, k)) <= 2 * (Pow2(nbits) - 1) {
      ResidualBound(c, f, ni, nj, nbits, k);
    }
    Pow2Monotonic(nbits, MaxBits(c));
    TileMaxBound(f, ni, t, 0, 0, 2 * (Pow2(nbits) - 1));
    if c == Coder16 && Container(c, f, ni, nbits) == 4 {
      if nbits < 15 {
        Pow2Monotonic(nbits, 14);
      } else {
        forall k: nat ensures Abs(Residual(f, ni, k)) <= 65535 {
          if k >= |f| { assert Residual(f, ni, k) == 0; }
        }
        TileMaxBound(f, ni, t, 0, 0, 65535);
      }
    }
  }

  // ----- Size of the code -----

  lemma {:induction false} CellsCodeLength(f: seq<word>, ni: nat, t: Tile, m: nat, n: nat, w: nat)
    requires ni > 0
    ensures |CellsCode(f, ni, t, m, n, w)| == CellsLeft(t, m, n) * w
    decreases t.n + 1 - n, t.m + 1 - m
  {
    if n > t.n {
    } else if m > t.m {
      CellsCodeLength(f, ni, t, 0, n + 1, w);
    } else {
      CellsCodeLength(f, ni, t, m + 1, n, w);
      Distribute(1, CellsLeft(t, m + 1, n), w);
    }
  }

  lemma {:induction false} TilesCodeBound(c: Coder, f: seq<word>, ni: nat, nj: nat, nbits: nat, i: nat, j: nat)
    requires IsField(c, f, ni, nj, nbits) && i >= 2 && j >= 2
    ensures |TilesCode(c, f, ni, nj, i, j, Container(c, f, ni, nbits))| <= PointsLeft(ni, nj, i, j, 2,
      STEP) * PerPoint(c)
    decreases nj + STEP - j, ni + STEP - i
  {
    hide CellsCode, TileMax, Bits, Container, PointsLeft, WidthCode;
    var container := Container(c, f, ni, nbits);
    if j > nj {
      assert |TilesCode(c, f, ni, nj, i, j, container)| == 0;
    } else if i > ni {
      PointsOfNextBand(ni, nj, i, j, 2, STEP);
      TilesCodeBound(c, f, ni, nj, nbits, 2, j + STEP);
    } else {
      var t := TileAt(i, j, ni, nj, STEP);
      PointsOfTile(ni, nj, i, j, 2, STEP);
      TileCodeBound(c, f, ni, nj, nbits, t);
      TilesCodeBound(c, f, ni, nj, nbits, i + STEP, j);
      Distribute(CellsLeft(t, 0, 0), PointsLeft(ni, nj, i + STEP, j, 2, STEP), PerPoint(c));
    }
  }

  lemma TileCodeBound(c: Coder, f: seq<word>, ni: nat, nj: nat, nbits: nat, t: Tile)
    requires IsField(c, f, ni, nj, nbits) && CellsLeft(t, 0, 0) >= 1
    ensures |TileCode(c, f, ni, t, Container(c, f, ni, nbits))| <= CellsLeft(t, 0, 0) * PerPoint(c)
  {
    hide TileMax, Bits, Container, CellsLeft, CellsCode, Pow2, WidthCode, Width, FitsContainer, PerPoint;
    var container := Container(c, f, ni, nbits);
    ContainerFits(c, f, ni, nj, nbits, t);
    var localMax := TileMax(f, ni, t, 0, 0);
    WidthsFit(c, localMax, container);
    var w, cells := Width(c, WidthCode(c, localMax)), CellsLeft(t, 0, 0);
    CellsCodeLength(f, ni, t, 0, 0, w);
    CellsBound(cells, w, container, PerPoint(c));
  }

  lemma CellsBound(cells: nat, w: nat, container: nat, perPoint: nat)
    requires w + container <= perPoint && cells >= 1
    ensures container <= container + cells * w <= cells * perPoint
  {
    MulAtMost(w + container, perPoint, cells);
    Distribute(w, container, cells);
    MulAtMost(1, cells, container);
  }

  lemma {:induction false} TopCodeLength(f: seq<word>, ni: nat, i: nat, nbits: nat)
    requires i <= ni + 1
    ensures |TopCode(f, ni, i, nbits)| == (ni + 1 - i) * nbits
    decreases ni + 1 - i
  {
    if i <= ni {
      TopCodeLength(f, ni, i + 1, nbits);
      Distribute(1, ni - i, nbits);
    }
  }

  lemma {:induction false} LeftCodeLength(f: seq<word>, ni: nat, nj: nat, j: nat, nbits: nat)
    requires j <= nj + 1
    ensures |LeftCode(f, ni, nj, j, nbits)| == (nj + 1 - j) * nbits
    decreases nj + 1 - j
  {
    if j <= nj {
      LeftCodeLength(f, ni, nj, j + 1, nbits);
      Distribute(1, nj - j, nbits);
    }
  }

  /** The whole code takes at most 3 bits and `PerPoint` bits a point. */
  lemma FieldCodeBound(c: Coder, f: seq<word>, ni: nat, nj: nat, nbits: nat)
    requires IsField(c, f, ni, nj, nbits)
    ensures |FieldCode(c, f, ni, nj, nbits)| <= 3 + ni * nj * PerPoint(c)
  {
    hide TilesCode, TopCode, LeftCode, Bits, Container;
    TopCodeLength(f, ni, 1, nbits);
    LeftCodeLength(f, ni, nj, 2, nbits);
    TilesCodeBound(c, f, ni, nj, nbits, 2, 2);
    PointsInside(ni, nj);
    var inside := |TilesCode(c, f, ni, nj, 2, 2, Container(c, f, ni, nbits))|;
    SumBound(ni, nj - 1, nbits, PointsLeft(ni, nj, 2, 2, 2, STEP), inside, PerPoint(c));
  }

  lemma SumBound(a: nat, b: nat, nbits: nat, x: nat, inside: nat, p: nat)
    requires nbits <= p && inside <= x * p
    ensures a * nbits + b * nbits + inside <= (a + b + x) * p
  {
    MulAtMost(nbits, p, a);
    MulAtMost(nbits, p, b);
    Distribute(a, b, p);
    Distribute(a + b, x, p);
  }

  /** First row, first column and tiles make up the field. */
  lemma PointsInside(ni: nat, nj: nat)
    requires ni >= 2 && nj >= 2
    ensures ni + (nj - 1) + PointsLeft(ni, nj, 2, 2, 2, STEP) == ni * nj
  {
    AllPointsLeft(ni, nj, 2, STEP);
    Distribute(ni - 1, 1, nj - 1);
    assert ni * nj == ni * (nj - 1) + ni;
  }
}
