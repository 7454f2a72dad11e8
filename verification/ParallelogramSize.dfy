/** How long the code of the parallelogram predictor is, from the size of the errors alone, and when
    the 32-bit coder gives up. */
module ParallelogramSize {
  import opened Words
  import opened BitStream
  import opened Grid
  import opened Parallelogram

  // ----- The width of a tile -----

  /** The size of the error at an offset in a tile. */
  ghost function ErrorAt(f: seq<word>, ni: nat, t: Tile, m: nat, n: nat): nat
    requires ni > 0
  {
    Abs(ResidualAt(f, ni, t.i + m, t.j + n))
  }

  /** No error of a tile needs more than b bits. */
  ghost predicate TileBelow(f: seq<word>, ni: nat, t: Tile, b: nat)
    requires ni > 0
  {
    forall m: nat, n: nat | m <= t.m && n <= t.n :: ErrorAt(f, ni, t, m, n) < Pow2(b)
  }

  /** The largest error of a tile needs b bits. */
  ghost predicate NeedsBits(f: seq<word>, ni: nat, t: Tile, b: nat)
    requires ni > 0
  {
    TileBelow(f, ni, t, b) && (b > 0 ==> !TileBelow(f, ni, t, b - 1))
  }

  /** The maximum is the error of some point. */
  lemma {:induction false} TileMaxAttained(f: seq<word>, ni: nat, t: Tile, m: nat, n: nat) returns (m': nat, n': nat)
    requires ni > 0
    ensures TileMax(f, ni, t, m, n) > 0 ==>
      m' <= t.m && n' <= t.n && ErrorAt(f, ni, t, m', n') == TileMax(f, ni, t, m, n)
    decreases t.n + 1 - n, t.m + 1 - m
  {
    hide ResidualAt;
    m', n' := m, n;
    if n > t.n {
    } else if m > t.m {
      m', n' := TileMaxAttained(f, ni, t, 0, n + 1);
    } else if ErrorAt(f, ni, t, m, n) < TileMax(f, ni, t, m + 1, n) {
      m', n' := TileMaxAttained(f, ni, t, m + 1, n);
    }
  }

  lemma BelowIff(f: seq<word>, ni: nat, t: Tile, b: nat)
    requires ni > 0
    ensures TileBelow(f, ni, t, b) <==> TileMax(f, ni, t, 0, 0) < Pow2(b)
  {
    hide ResidualAt, TileMax, Pow2;
    var m', n' := TileMaxAttained(f, ni, t, 0, 0);
    PowerPositive(b);
    forall m: nat, n: nat | m <= t.m && n <= t.n
      ensures ErrorAt(f, ni, t, m, n) <= TileMax(f, ni, t, 0, 0)
    {
      TileMaxCovers(f, ni, t, 0, 0, m, n);
    }
  }

  lemma PowerPositive(b: nat)
    ensures Pow2(b) >= 1
  {
  }

  lemma NeedsBitLength(f: seq<word>, ni: nat, t: Tile, b: nat)
    requires ni > 0
    ensures NeedsBits(f, ni, t, b) <==> BitLength(TileMax(f, ni, t, 0, 0)) == b
  {
    hide TileMax, TileBelow, Pow2, BitLength;
    var x := TileMax(f, ni, t, 0, 0);
    BelowIff(f, ni, t, b);
    BitLengthBounds(x);
    if b > 0 { BelowIff(f, ni, t, b - 1); }
    if x < Pow2(b) {
      BitLengthMost(x, b);
      if b > 0 && x < Pow2(b - 1) { BitLengthMost(x, b - 1); }
      if BitLength(x) < b { Pow2Monotonic(BitLength(x), b - 1); }
    } else if BitLength(x) <= b {
      Pow2Monotonic(BitLength(x), b);
    }
  }

  /** The sign takes one bit more; the 16-bit coder has no width of 16. */
  function SignedWidth(c: Coder, b: nat): nat
  {
    if c == Coder16 && (b == 15 || b == 16) then 17 else b + 1
  }

  /** Bits of the body of a point. */
  function PointBits(c: Coder, b: nat): nat
  {
    if b == 0 then 0 else SignedWidth(c, b)
  }

  lemma BodyLength(c: Coder, f: seq<word>, ni: nat, t: Tile, container: nat, b: nat)
    requires ni > 0 && NeedsBits(f, ni, t, b)
    ensures |TileCode(c, f, ni, t, container)| == container + CellsLeft(t, 0, 0) * PointBits(c, b)
  {
    hide TileMax, NeedsBits, CellsCode, Bits, CellsLeft, BitLength;
    NeedsBitLength(f, ni, t, b);
    CellsCodeLength(f, ni, t, 0, 0, SignedWidth(c, b));
  }

  /** A tile takes its container and, unless all its errors are zero, just what its largest
      error needs for each of its points. */
  lemma TileLength(c: Coder, f: seq<word>, ni: nat, t: Tile, container: nat, b: nat)
    requires ni > 0 && NeedsBits(f, ni, t, b)
    ensures |TileCode(c, f, ni, t, container)| == container + (t.m + 1) * (t.n + 1) *
      (if b == 0 then 0 else if c == Coder16 && (b == 15 || b == 16) then 17 else b + 1)
  {
    hide NeedsBits, CellsLeft, TileCode;
    BodyLength(c, f, ni, t, container, b);
    CellsLeftIs(t, 0, 0);
    Distribute(t.n, 1, t.m + 1);
  }

  // ----- The length of the code -----

  /** No error of a field needs more than b bits. */
  ghost predicate ErrorsBelow(f: seq<word>, ni: nat, b: nat)
    requires ni > 0
  {
    forall k: nat | k < |f| :: Abs(Residual(f, ni, k)) < Pow2(b)
  }

  function ContainerFor(c: Coder, b: nat): nat
  {
    if c == Coder8 || (c == Coder16 && b <= 16) then 4 else 5
  }

  /** Tiles from index x on, of three each. */
  function Bands(n: nat, x: nat): nat
  {
    if x > n then 0 else (n - x) / 3 + 1
  }

  function TilesLeft(ni: nat, nj: nat, i: nat, j: nat): nat
  {
    if j > nj then 0 else Bands(ni, i) + Bands(nj, j + 3) * Bands(ni, 2)
  }

  function Times(a: nat, b: nat): nat
  {
    a * b
  }

  /** The most bits that a field takes whose errors need no more than b bits. */
  function CodeLimit(c: Coder, ni: nat, nj: nat, nbits: nat, b: nat): nat
    requires ni >= 1 && nj >= 1
  {
    var tiles, inside := Times((ni + 1) / 3, (nj + 1) / 3), Times(ni - 1, nj - 1);
    3 + Times(ni + nj - 1, nbits) + Times(tiles, ContainerFor(c, b)) + Times(inside, PointBits(c, b))
  }

  lemma AllBelow(f: seq<word>, ni: nat, b: nat, t: Tile)
    requires ni > 0 && ErrorsBelow(f, ni, b)
    ensures TileBelow(f, ni, t, b)
  {
    hide Residual, Pow2;
    PowerPositive(b);
    forall m: nat, n: nat | m <= t.m && n <= t.n
      ensures ErrorAt(f, ni, t, m, n) < Pow2(b)
    {
      var k := Ftn2c(t.i + m, t.j + n, ni);
      if k >= |f| { NoResidual(f, ni, k); }
    }
  }

  lemma NoResidual(f: seq<word>, ni: nat, k: nat)
    requires ni > 0 && k >= |f|
    ensures Residual(f, ni, k) == 0
  {
  }

  lemma ContainerIs(c: Coder, f: seq<word>, ni: nat, nbits: nat, b: nat)
    requires ni > 0 && ErrorsBelow(f, ni, b)
    ensures Container(c, f, ni, nbits) <= ContainerFor(c, b)
  {
    hide Residual, Pow2;
    Pow2Values();
    if b <= 16 { Pow2Monotonic(b, 16); }
  }

  lemma TileAtMost(c: Coder, f: seq<word>, ni: nat, t: Tile, container: nat, b: nat)
    requires ni > 0 && TileBelow(f, ni, t, b)
    ensures |TileCode(c, f, ni, t, container)| <= container + CellsLeft(t, 0, 0) * PointBits(c, b)
  {
    hide TileMax, TileBelow, NeedsBits, TileCode, BitLength, CellsLeft, Pow2, PointBits;
    var n := BitLength(TileMax(f, ni, t, 0, 0));
    BelowIff(f, ni, t, b);
    BitLengthMost(TileMax(f, ni, t, 0, 0), b);
    NeedsBitLength(f, ni, t, n);
    BodyLength(c, f, ni, t, container, n);
    MoreBits(c, n, b);
    MulAtMost(PointBits(c, n), PointBits(c, b), CellsLeft(t, 0, 0));
  }

  lemma MoreBits(c: Coder, a: nat, b: nat)
    requires a <= b
    ensures PointBits(c, a) <= PointBits(c, b)
  {
  }

  lemma TilesStep(ni: nat, nj: nat, i: nat, j: nat)
    requires i >= 2 && j >= 2 && j <= nj && ni >= 2
    ensures if i > ni then TilesLeft(ni, nj, i, j) == TilesLeft(ni, nj, 2, j + 3)
      else TilesLeft(ni, nj, i, j) == 1 + TilesLeft(ni, nj, i + 3, j)
  {
    if i > ni && j + 3 <= nj {
      assert Bands(nj, j + 3) == 1 + Bands(nj, j + 6);
      Distribute(1, Bands(nj, j + 6), Bands(ni, 2));
    }
  }

  lemma {:induction false} TilesAtMost(c: Coder, f: seq<word>, ni: nat, nj: nat, i: nat, j: nat, container: nat, b: nat)
    requires ni >= 2 && i >= 2 && j >= 2 && ErrorsBelow(f, ni, b)
    ensures |TilesCode(c, f, ni, nj, i, j, container)|
         <= TilesLeft(ni, nj, i, j) * container + PointsLeft(ni, nj, i, j, 2, STEP) * PointBits(c, b)
    decreases nj + STEP - j, ni + STEP - i
  {
    hide ErrorsBelow, TileCode, PointsLeft, TilesLeft, PointBits, CellsLeft;
    if j <= nj {
      TilesStep(ni, nj, i, j);
      if i > ni {
        PointsOfNextBand(ni, nj, i, j, 2, STEP);
        TilesAtMost(c, f, ni, nj, 2, j + STEP, container, b);
      } else {
        var t := TileAt(i, j, ni, nj, STEP);
        PointsOfTile(ni, nj, i, j, 2, STEP);
        AllBelow(f, ni, b, t);
        TileAtMost(c, f, ni, t, container, b);
        TilesAtMost(c, f, ni, nj, i + STEP, j, container, b);
        Distribute(1, TilesLeft(ni, nj, i + 3, j), container);
        Distribute(CellsLeft(t, 0, 0), PointsLeft(ni, nj, i + STEP, j, 2, STEP), PointBits(c, b));
      }
    }
  }

  /** The whole code: the border on the width of the tokens, and the other points on what the
      largest error needs. */
  lemma FieldLength(c: Coder, f: seq<word>, ni: nat, nj: nat, nbits: nat, b: nat)
    requires IsField(c, f, ni, nj, nbits) && ErrorsBelow(f, ni, b)
    ensures |FieldCode(c, f, ni, nj, nbits)| <= CodeLimit(c, ni, nj, nbits, b)
  {
    hide TilesCode, TopCode, LeftCode, Bits, Container, ErrorsBelow, PointBits, ContainerFor, PointsLeft, TilesLeft;
    TopCodeLength(f, ni, 1, nbits);
    LeftCodeLength(f, ni, nj, 2, nbits);
    Distribute(ni, nj - 1, nbits);
    var container := Container(c, f, ni, nbits);
    TilesAtMost(c, f, ni, nj, 2, 2, container, b);
    ContainerIs(c, f, ni, nbits, b);
    AllPointsLeft(ni, nj, 2, STEP);
    AllTiles(ni, nj);
    MulAtMost(container, ContainerFor(c, b), TilesLeft(ni, nj, 2, 2));
  }

  lemma AllTiles(ni: nat, nj: nat)
    requires ni >= 2 && nj >= 2
    ensures TilesLeft(ni, nj, 2, 2) == Times((ni + 1) / 3, (nj + 1) / 3)
  {
    assert Bands(ni, 2) == (ni + 1) / 3 && Bands(nj, 5) == (nj + 1) / 3 - 1;
    Distribute(1, Bands(nj, 5), Bands(ni, 2));
  }

  // ----- Giving up -----

  /** After the tile at (i, j), whose largest error needs n bits, the words that are left are
      fewer than the coder asks for; `total` are the bits of the whole code. */
  ghost predicate Stops(f: seq<word>, ni: nat, nj: nat, nbits: nat, remaining: int, total: nat, i: nat, j: nat, n: nat)
    requires ni > 0
  {
    2 <= i <= ni && 2 <= j <= nj && i % 3 == 2 && j % 3 == 2 &&
    n > 0 && NeedsBits(f, ni, TileAt(i, j, ni, nj, 3), n) &&
    var after := total - |TilesCode(Coder32, f, ni, nj, i + 3, j, 5)|;
    after >= 0 && remaining < FlushedWords(after) + (1 + (n + 9 * nbits) / 32)
  }

  predicate NotBefore(i: nat, j: nat, i': nat, j': nat)
  {
    j < j' || (j == j' && i <= i')
  }

  ghost predicate StopsFrom(f: seq<word>, ni: nat, nj: nat, nbits: nat, remaining: int, total: nat, i: nat, j: nat)
    requires ni > 0
  {
    exists i': nat, j': nat, n: nat :: NotBefore(i, j, i', j') && Stops(f, ni, nj, nbits, remaining, total, i', j', n)
  }

  lemma {:induction false} GivesUpFromIff(f: seq<word>, ni: nat, nj: nat, nbits: nat, i: nat, j: nat, remaining: int,
                                          before: nat, total: nat)
    requires ni >= 2 && i >= 2 && j >= 2 && i % 3 == 2 && j % 3 == 2
    requires total == before + |TilesCode(Coder32, f, ni, nj, i, j, 5)|
    ensures GivesUpFrom(f, ni, nj, nbits, i, j, remaining, before) <==>
      StopsFrom(f, ni, nj, nbits, remaining, total, i, j)
    decreases nj + STEP - j, ni + STEP - i
  {
    hide Stops, StopsFrom, StopsAt, TileCode, TileMax, FlushedWords;
    if j > nj {
      NoneStops(f, ni, nj, nbits, remaining, total, i, j);
    } else if i > ni {
      GivesUpFromIff(f, ni, nj, nbits, 2, j + 3, remaining, before, total);
      SameStops(f, ni, nj, nbits, remaining, total, i, j);
    } else {
      var after := before + |TileCode(Coder32, f, ni, TileAt(i, j, ni, nj, 3), 5)|;
      GivesUpFromIff(f, ni, nj, nbits, i + 3, j, remaining, after, total);
      TileStops(f, ni, nj, nbits, remaining, total, i, j);
      StopsHere(f, ni, nj, nbits, remaining, total, i, j);
    }
  }

  /** Whether the coder stops after one tile. */
  ghost predicate StopsAt(f: seq<word>, ni: nat, nj: nat, nbits: nat, remaining: int, total: nat, i: nat, j: nat)
    requires ni > 0
  {
    exists n: nat :: Stops(f, ni, nj, nbits, remaining, total, i, j, n)
  }

  lemma NoneStops(f: seq<word>, ni: nat, nj: nat, nbits: nat, remaining: int, total: nat, i: nat, j: nat)
    requires ni > 0 && j > nj
    ensures !StopsFrom(f, ni, nj, nbits, remaining, total, i, j)
  {
  }

  lemma SameStops(f: seq<word>, ni: nat, nj: nat, nbits: nat, remaining: int, total: nat, i: nat, j: nat)
    requires ni > 0 && i > ni && i % 3 == 2 && j % 3 == 2
    ensures StopsFrom(f, ni, nj, nbits, remaining, total, i, j) <==>
      StopsFrom(f, ni, nj, nbits, remaining, total, 2, j + 3)
  {
    hide NeedsBits;
    forall i': nat, j': nat, n: nat | Stops(f, ni, nj, nbits, remaining, total, i', j', n)
      ensures NotBefore(i, j, i', j') <==> NotBefore(2, j + 3, i', j')
    {
    }
  }

  lemma StopsHere(f: seq<word>, ni: nat, nj: nat, nbits: nat, remaining: int, total: nat, i: nat, j: nat)
    requires ni > 0 && i % 3 == 2 && j % 3 == 2
    ensures StopsFrom(f, ni, nj, nbits, remaining, total, i, j) <==>
      StopsAt(f, ni, nj, nbits, remaining, total, i, j) || StopsFrom(f, ni, nj, nbits, remaining, total, i + 3, j)
  {
    hide NeedsBits;
    forall i': nat, j': nat, n: nat | Stops(f, ni, nj, nbits, remaining, total, i', j', n)
      ensures NotBefore(i, j, i', j') <==> (i' == i && j' == j) || NotBefore(i + 3, j, i', j')
    {
    }
  }

  lemma TileStops(f: seq<word>, ni: nat, nj: nat, nbits: nat, remaining: int, total: nat, i: nat, j: nat)
    requires 2 <= i <= ni && 2 <= j <= nj && i % 3 == 2 && j % 3 == 2
    requires total >= |TilesCode(Coder32, f, ni, nj, i + 3, j, 5)|
    ensures var after, t := total - |TilesCode(Coder32, f, ni, nj, i + 3, j, 5)|, TileAt(i, j, ni, nj, 3);
      var code := WidthCode(Coder32, TileMax(f, ni, t, 0, 0));
      StopsAt(f, ni, nj, nbits, remaining, total, i, j) <==>
        code != 0 && remaining < FlushedWords(after) + (1 + (code + 9 * nbits) / 32)
  {
    hide NeedsBits, TilesCode, TileMax, BitLength, FlushedWords, TileAt;
    var t := TileAt(i, j, ni, nj, 3);
    var code := BitLength(TileMax(f, ni, t, 0, 0));
    NeedsBitLength(f, ni, t, code);
    if StopsAt(f, ni, nj, nbits, remaining, total, i, j) {
      var n :| Stops(f, ni, nj, nbits, remaining, total, i, j, n);
      NeedsBitLength(f, ni, t, n);
    }
    if code != 0 &&
      remaining < FlushedWords(total - |TilesCode(Coder32, f, ni, nj, i + 3, j, 5)|) + (1 + (code + 9 * nbits) / 32) {
      assert Stops(f, ni, nj, nbits, remaining, total, i, j, code);
    }
  }

  /** The 32-bit coder gives up if and only if there is a tile with errors after which too few words
      are left. */
  lemma GivesUpIff(f: seq<word>, ni: nat, nj: nat, nbits: nat, remaining: int)
    requires ni >= 2
    ensures GivesUp(Coder32, f, ni, nj, nbits, remaining) <==>
      StopsFrom(f, ni, nj, nbits, remaining, |FieldCode(Coder32, f, ni, nj, nbits)|, 2, 2)
  {
    hide TilesCode, TopCode, LeftCode, Bits, GivesUpFrom, StopsFrom;
    var before := 3 + |TopCode(f, ni, 1, nbits)| + |LeftCode(f, ni, nj, 2, nbits)|;
    GivesUpFromIff(f, ni, nj, nbits, 2, 2, remaining, before, |FieldCode(Coder32, f, ni, nj, nbits)|);
  }

  /** So it does not when the whole code leaves enough words for the widest tile; */
  lemma EnoughLeft(f: seq<word>, ni: nat, nj: nat, nbits: nat, remaining: int)
    requires IsField(Coder32, f, ni, nj, nbits)
    requires WordsFor(|FieldCode(Coder32, f, ni, nj, nbits)|) + 1 + (24 + 9 * nbits) / 32 <= remaining
    ensures !GivesUp(Coder32, f, ni, nj, nbits, remaining)
  {
    hide Stops, FieldCode;
    var total := |FieldCode(Coder32, f, ni, nj, nbits)|;
    GivesUpIff(f, ni, nj, nbits, remaining);
    forall i: nat, j: nat, n: nat ensures !Stops(f, ni, nj, nbits, remaining, total, i, j, n) {
      NotStopped(f, ni, nj, nbits, remaining, total, i, j, n);
    }
  }

  lemma NotStopped(f: seq<word>, ni: nat, nj: nat, nbits: nat, remaining: int, total: nat, i: nat, j: nat, n: nat)
    requires IsField(Coder32, f, ni, nj, nbits) && WordsFor(total) + 1 + (24 + 9 * nbits) / 32 <= remaining
    ensures !Stops(f, ni, nj, nbits, remaining, total, i, j, n)
  {
    hide NeedsBits, TilesCode, IsField, FlushedWords, WordsFor;
    if 2 <= i <= ni && 2 <= j <= nj && NeedsBits(f, ni, TileAt(i, j, ni, nj, 3), n) {
      AtMost24(f, ni, nj, nbits, TileAt(i, j, ni, nj, 3), n);
      var after := total - |TilesCode(Coder32, f, ni, nj, i + 3, j, 5)|;
      if after >= 0 { FlushedLater(after, total); }
    }
  }

  lemma AtMost24(f: seq<word>, ni: nat, nj: nat, nbits: nat, t: Tile, n: nat)
    requires IsField(Coder32, f, ni, nj, nbits) && NeedsBits(f, ni, t, n)
    ensures n <= 24
  {
    hide TileMax, NeedsBits, BitLength;
    Pow2Values();
    ContainerFits(Coder32, f, ni, nj, nbits, t);
    NeedsBitLength(f, ni, t, n);
    BitLengthMost(TileMax(f, ni, t, 0, 0), 24);
  }

  lemma FlushedLater(a: nat, b: nat)
    requires a <= b
    ensures FlushedWords(a) <= WordsFor(b)
  {
  }

  /** and it does when too few words are left after the last tile with errors, whatever its width. */
  lemma TooFewLeft(f: seq<word>, ni: nat, nj: nat, nbits: nat, remaining: int, i: nat, j: nat, n: nat)
    requires ni >= 2 && 2 <= i <= ni && 2 <= j <= nj && i % 3 == 2 && j % 3 == 2
    requires n > 0 && NeedsBits(f, ni, TileAt(i, j, ni, nj, 3), n)
    requires |TilesCode(Coder32, f, ni, nj, i + 3, j, 5)| <= |FieldCode(Coder32, f, ni, nj, nbits)|
    requires remaining < FlushedWords(|FieldCode(Coder32, f, ni, nj, nbits)| - |TilesCode(Coder32, f, ni, nj, i + 3, j,
      5)|)
    ensures GivesUp(Coder32, f, ni, nj, nbits, remaining)
  {
    hide NeedsBits, FieldCode, TilesCode, FlushedWords, GivesUp;
    GivesUpIff(f, ni, nj, nbits, remaining);
    assert Stops(f, ni, nj, nbits, remaining, |FieldCode(Coder32, f, ni, nj, nbits)|, i, j, n);
    assert NotBefore(2, 2, i, j);
  }
}
