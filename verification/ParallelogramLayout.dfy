/** Where the bits of a field are in its code by the parallelogram predictor, and which fields the
    predictor gets right everywhere. */
module ParallelogramLayout {
  import opened Words
  import opened BitStream
  import opened Grid
  import opened Parallelogram
  import opened ParallelogramSize

  // ----- Fields without errors -----

  /** Every token is the sum of one number for its column and one for its row. */
  ghost predicate IsSum(f: seq<word>, ni: nat, nj: nat)
  {
    forall i: nat, j: nat | 1 <= i <= ni && 1 <= j <= nj :: SumAt(f, ni, i, j)
  }

  ghost predicate SumAt(f: seq<word>, ni: nat, i: nat, j: nat)
  {
    At(f, Ftn2c(i, j, ni)) + At(f, 0) == At(f, i - 1) + At(f, Ftn2c(1, j, ni))
  }

  lemma ErrorFree(f: seq<word>, ni: nat, nj: nat, i: nat, j: nat)
    requires |f| == ni * nj && 2 <= i <= ni && 2 <= j <= nj
    ensures 0 <= Ftn2c(i, j, ni) < |f|
    ensures Residual(f, ni, Ftn2c(i, j, ni)) == At(f, Ftn2c(i, j, ni)) + At(f, Ftn2c(i - 1, j - 1, ni)) -
      At(f, Ftn2c(i, j - 1, ni)) - At(f, Ftn2c(i - 1, j, ni))
  {
    hide Row, Col;
    IndexOfPoint(i, j, ni, nj);
    RowAbove(ni, j);
  }

  lemma RowAbove(ni: nat, j: nat)
    ensures ni * (j - 1) - ni == ni * (j - 2)
  {
  }

  lemma {:induction false} SumFrom(f: seq<word>, ni: nat, nj: nat, i: nat, j: nat)
    requires |f| == ni * nj && 1 <= i <= ni && 1 <= j <= nj && ErrorsBelow(f, ni, 0)
    ensures SumAt(f, ni, i, j)
    decreases i + j
  {
    hide Residual, Ftn2c;
    if i == 1 || j == 1 {
      FirstLines(ni, i, j);
    } else {
      SumFrom(f, ni, nj, i - 1, j);
      SumFrom(f, ni, nj, i, j - 1);
      SumFrom(f, ni, nj, i - 1, j - 1);
      ErrorFree(f, ni, nj, i, j);
      assert Abs(Residual(f, ni, Ftn2c(i, j, ni))) < Pow2(0);
    }
  }

  lemma FirstLines(ni: nat, i: nat, j: nat)
    ensures Ftn2c(i, 1, ni) == i - 1 && Ftn2c(1, 1, ni) == 0
  {
  }

  lemma NoErrorAt(f: seq<word>, ni: nat, nj: nat, k: nat)
    requires ni >= 2 && nj >= 2 && |f| == ni * nj && IsSum(f, ni, nj) && k < |f|
    ensures Residual(f, ni, k) == 0
  {
    hide SumAt;
    PointOfIndex(k, ni, nj);
    var i, j := Col(k, ni), Row(k, ni);
    if i > 1 && j > 1 {
      hide Row, Col;
      ErrorFree(f, ni, nj, i, j);
      hide Residual;
      SumsCancel(f, ni, i, j);
    }
  }

  lemma SumsCancel(f: seq<word>, ni: nat, i: nat, j: nat)
    requires i >= 2 && j >= 2 && SumAt(f, ni, i, j) && SumAt(f, ni, i - 1, j)
    requires SumAt(f, ni, i, j - 1) && SumAt(f, ni, i - 1, j - 1)
    ensures At(f, Ftn2c(i, j, ni)) + At(f, Ftn2c(i - 1, j - 1, ni)) ==
      At(f, Ftn2c(i, j - 1, ni)) + At(f, Ftn2c(i - 1, j, ni))
  {
    hide Ftn2c, At;
  }

  /** The predictor is right everywhere if and only if every token is such a sum. */
  lemma NoErrorsIff(f: seq<word>, ni: nat, nj: nat)
    requires ni >= 2 && nj >= 2 && |f| == ni * nj
    ensures ErrorsBelow(f, ni, 0) <==> IsSum(f, ni, nj)
  {
    hide Residual, SumAt;
    if ErrorsBelow(f, ni, 0) {
      forall i: nat, j: nat | 1 <= i <= ni && 1 <= j <= nj ensures SumAt(f, ni, i, j) {
        SumFrom(f, ni, nj, i, j);
      }
    }
    if IsSum(f, ni, nj) {
      forall k: nat | k < |f| ensures Abs(Residual(f, ni, k)) < Pow2(0) {
        NoErrorAt(f, ni, nj, k);
      }
    }
  }

  /** The points inside such a field take nothing but the containers of their tiles. */
  lemma SumLength(c: Coder, f: seq<word>, ni: nat, nj: nat, nbits: nat)
    requires IsField(c, f, ni, nj, nbits) && IsSum(f, ni, nj)
    ensures |FieldCode(c, f, ni, nj, nbits)| <= 3 + Times(ni + nj - 1, nbits) +
      Times(Times((ni + 1) / 3, (nj + 1) / 3), if c == Coder32 then 5 else 4)
  {
    hide ErrorsBelow, IsSum, FieldCode, Times, Pow2;
    NoErrorsIff(f, ni, nj);
    FieldLength(c, f, ni, nj, nbits, 0);
    NoTimes(Times(ni - 1, nj - 1));
  }

  lemma NoTimes(b: nat)
    ensures Times(0, b) == 0 && Times(b, 0) == 0
  {
  }

  // ----- Where the bits are -----

  /** Bits from a position on. */
  function Slice(s: seq<bool>, at: nat, n: nat): seq<bool>
  {
    if at + n <= |s| then s[at..at + n] else []
  }

  lemma SliceLater(before: seq<bool>, s: seq<bool>, at: nat, n: nat, pos: nat)
    requires pos == |before| + at
    ensures Slice(before + s, pos, n) == Slice(s, at, n)
  {
  }

  lemma SliceEarly(s: seq<bool>, after: seq<bool>, at: nat, n: nat)
    requires at + n <= |s|
    ensures Slice(s + after, at, n) == Slice(s, at, n)
  {
  }

  lemma SliceFirst(s: seq<bool>, after: seq<bool>)
    ensures Slice(s + after, 0, |s|) == s
  {
  }

  lemma TimesStep(a: nat, b: nat)
    requires a > 0
    ensures Times(a, b) == b + Times(a - 1, b)
  {
    Distribute(1, a - 1, b);
  }

  lemma TimesAdd(a: nat, b: nat, c: nat)
    ensures Times(a + b, c) == Times(a, c) + Times(b, c)
  {
    Distribute(a, b, c);
  }

  lemma TimesMore(a: nat, b: nat, c: nat)
    requires a <= b
    ensures Times(a, c) <= Times(b, c)
  {
    MulAtMost(a, b, c);
  }

  lemma {:induction false} TopPart(f: seq<word>, ni: nat, first: nat, i: nat, nbits: nat)
    requires 1 <= first <= i <= ni
    ensures Slice(TopCode(f, ni, first, nbits), Times(i - first, nbits), nbits) == Bits(At(f, i - 1), nbits)
    decreases i - first
  {
    hide Bits, Slice, Times, Ftn2c;
    var token, rest := Bits(At(f, Ftn2c(first, 1, ni)), nbits), TopCode(f, ni, first + 1, nbits);
    FirstLines(ni, first, 1);
    if first < i {
      TopPart(f, ni, first + 1, i, nbits);
      TimesStep(i - first, nbits);
      SliceLater(token, rest, Times(i - first - 1, nbits), nbits, Times(i - first, nbits));
    } else {
      NoTimes(nbits);
      SliceFirst(token, rest);
    }
  }

  lemma {:induction false} LeftPart(f: seq<word>, ni: nat, nj: nat, first: nat, j: nat, nbits: nat)
    requires 2 <= first <= j <= nj
    ensures Slice(LeftCode(f, ni, nj, first, nbits), Times(j - first, nbits), nbits) ==
      Bits(At(f, Times(ni, j - 1)), nbits)
    decreases j - first
  {
    hide Bits, Slice, Times, Ftn2c;
    var token, rest := Bits(At(f, Ftn2c(1, first, ni)), nbits), LeftCode(f, ni, nj, first + 1, nbits);
    FirstOfRow(ni, first);
    if first < j {
      LeftPart(f, ni, nj, first + 1, j, nbits);
      TimesStep(j - first, nbits);
      SliceLater(token, rest, Times(j - first - 1, nbits), nbits, Times(j - first, nbits));
    } else {
      NoTimes(nbits);
      SliceFirst(token, rest);
    }
  }

  lemma FirstOfRow(ni: nat, j: nat)
    requires j >= 1
    ensures Ftn2c(1, j, ni) == Times(ni, j - 1)
  {
  }

  /** The code starts with 5 on 3 bits for the 32-bit coder, and for the 16-bit one when an error
      needs more than 16 bits, else with 4. */
  lemma StartsWithContainer(c: Coder, f: seq<word>, ni: nat, nj: nat, nbits: nat)
    requires IsField(c, f, ni, nj, nbits)
    ensures Slice(FieldCode(c, f, ni, nj, nbits), 0, 3) ==
      if c == Coder32 || (c == Coder16 && !ErrorsBelow(f, ni, 16)) then [true, false, true] else [true, false, false]
  {
    hide TilesCode, TopCode, LeftCode, Container, ErrorsBelow, Bits, Pow2, Slice;
    var container := Container(c, f, ni, nbits);
    ContainerIff(c, f, ni, nj, nbits);
    ContainerBits();
    SliceFirst(Bits(container, 3), TopCode(f, ni, 1, nbits) +
      (LeftCode(f, ni, nj, 2, nbits) + TilesCode(c, f, ni, nj, 2, 2, container)));
  }

  lemma ContainerBits()
    ensures Bits(5, 3) == [true, false, true] && Bits(4, 3) == [true, false, false]
  {
    assert Bits(1, 1) == [true] && Bits(2, 2) == [true, false];
  }

  lemma ContainerIff(c: Coder, f: seq<word>, ni: nat, nj: nat, nbits: nat)
    requires IsField(c, f, ni, nj, nbits)
    ensures Container(c, f, ni, nbits) ==
      if c == Coder32 || (c == Coder16 && !ErrorsBelow(f, ni, 16)) then 5 else 4
  {
    hide Residual, Pow2;
    Pow2Values();
    if c == Coder16 && nbits < 15 {
      Pow2Monotonic(nbits, 14);
      forall k: nat | k < |f| ensures Abs(Residual(f, ni, k)) < Pow2(16) {
        ResidualBound(c, f, ni, nj, nbits, k);
      }
    }
  }

  lemma Sections(c: Coder, f: seq<word>, ni: nat, nj: nat, nbits: nat)
    requires ni >= 2 && nj >= 2
    ensures var container := Container(c, f, ni, nbits);
      FieldCode(c, f, ni, nj, nbits) == Bits(container, 3) + (TopCode(f, ni, 1, nbits) +
        (LeftCode(f, ni, nj, 2, nbits) + TilesCode(c, f, ni, nj, 2, 2, container)))
    ensures |TopCode(f, ni, 1, nbits)| == Times(ni, nbits) && |LeftCode(f, ni, nj, 2, nbits)| == Times(nj - 1, nbits)
  {
    hide TilesCode, TopCode, LeftCode, Container, Bits;
    TopCodeLength(f, ni, 1, nbits);
    LeftCodeLength(f, ni, nj, 2, nbits);
  }

  /** After the container come the tokens of the first row, then those of the first column, each on
      the width of the tokens. */
  lemma BorderAt(c: Coder, f: seq<word>, ni: nat, nj: nat, nbits: nat, i: nat, j: nat)
    requires ni >= 2 && nj >= 2 && 1 <= i <= ni && 2 <= j <= nj
    ensures Slice(FieldCode(c, f, ni, nj, nbits), 3 + Times(i - 1, nbits), nbits) == Bits(At(f, i - 1), nbits)
    ensures Slice(FieldCode(c, f, ni, nj, nbits), 3 + Times(ni + j - 2, nbits), nbits) ==
      Bits(At(f, Times(ni, j - 1)), nbits)
  {
    hide FieldCode, TilesCode, TopCode, LeftCode, Container, Bits, Slice, Times, At;
    Sections(c, f, ni, nj, nbits);
    var container := Container(c, f, ni, nbits);
    var top, left := TopCode(f, ni, 1, nbits), LeftCode(f, ni, nj, 2, nbits);
    var tiles := TilesCode(c, f, ni, nj, 2, 2, container);
    TimesStep(i, nbits);
    TimesMore(i, ni, nbits);
    TopPart(f, ni, 1, i, nbits);
    SliceEarly(top, left + tiles, Times(i - 1, nbits), nbits);
    SliceLater(Bits(container, 3), top + (left + tiles), Times(i - 1, nbits), nbits, 3 + Times(i - 1, nbits));
    TimesStep(j - 1, nbits);
    TimesMore(j - 1, nj - 1, nbits);
    LeftPart(f, ni, nj, 2, j, nbits);
    SliceEarly(left, tiles, Times(j - 2, nbits), nbits);
    var at := Times(ni, nbits) + Times(j - 2, nbits);
    SliceLater(top, left + tiles, Times(j - 2, nbits), nbits, at);
    TimesAdd(ni, j - 2, nbits);
    SliceLater(Bits(container, 3), top + (left + tiles), at, nbits, 3 + Times(ni + j - 2, nbits));
  }

  lemma TilesAfter(a: seq<bool>, b: seq<bool>, c: seq<bool>, d: seq<bool>, at: nat)
    requires at == |a| + |b| + |c|
    ensures at <= |a + (b + (c + d))| && (a + (b + (c + d)))[at..] == d
  {
    assert a + (b + (c + d)) == a + b + c + d;
  }

  /** Then come the tiles, */
  lemma TilesFollow(c: Coder, f: seq<word>, ni: nat, nj: nat, nbits: nat)
    requires ni >= 2 && nj >= 2
    ensures var container, at := Container(c, f, ni, nbits), 3 + Times(ni + nj - 1, nbits);
      at <= |FieldCode(c, f, ni, nj, nbits)| &&
      FieldCode(c, f, ni, nj, nbits)[at..] == TilesCode(c, f, ni, nj, 2, 2, container)
  {
    hide FieldCode, TilesCode, TopCode, LeftCode, Container, Bits, Times;
    Sections(c, f, ni, nj, nbits);
    var container := Container(c, f, ni, nbits);
    TimesAdd(ni, nj - 1, nbits);
    TilesAfter(Bits(container, 3), TopCode(f, ni, 1, nbits), LeftCode(f, ni, nj, 2, nbits),
      TilesCode(c, f, ni, nj, 2, 2, container), 3 + Times(ni + nj - 1, nbits));
  }

  // ----- The cells of a tile -----

  /** Cells from offset (m, n) up to offset (m', n'). */
  function CellsBetween(t: Tile, m: nat, n: nat, m': nat, n': nat): int
  {
    (n' - n) * (t.m + 1) + m' - m
  }

  lemma NextCell(t: Tile, m: nat, n: nat, m': nat, n': nat)
    requires m' <= t.m && m <= t.m + 1 && (n < n' || (n == n' && m <= m'))
    ensures CellsBetween(t, m, n, m', n') >= 0
    ensures m > t.m ==> CellsBetween(t, m, n, m', n') == CellsBetween(t, 0, n + 1, m', n')
    ensures m <= t.m && (n < n' || m < m') ==>
      CellsBetween(t, m, n, m', n') == 1 + CellsBetween(t, m + 1, n, m', n') >= 1
    ensures n == n' && m == m' ==> CellsBetween(t, m, n, m', n') == 0
  {
    if n < n' {
      Distribute(1, n' - n - 1, t.m + 1);
      MulAtMost(0, n' - n - 1, t.m + 1);
    }
  }

  lemma {:induction false} CellPart(f: seq<word>, ni: nat, t: Tile, m: nat, n: nat, w: nat, m': nat, n': nat)
    requires ni > 0 && m' <= t.m && n' <= t.n && (n < n' || (n == n' && m <= m')) && m <= t.m + 1
    requires CellsBetween(t, m, n, m', n') >= 0
    ensures Slice(CellsCode(f, ni, t, m, n, w), Times(CellsBetween(t, m, n, m', n'), w), w) ==
      Bits(ResidualAt(f, ni, t.i + m', t.j + n') % Pow2(w), w)
    decreases t.n + 1 - n, t.m + 1 - m
  {
    hide Bits, Slice, Times, ResidualAt, CellsBetween;
    NextCell(t, m, n, m', n');
    if m > t.m {
      CellPart(f, ni, t, 0, n + 1, w, m', n');
    } else {
      var cell, rest := Bits(ResidualAt(f, ni, t.i + m, t.j + n) % Pow2(w), w), CellsCode(f, ni, t, m + 1, n, w);
      if n < n' || m < m' {
        CellPart(f, ni, t, m + 1, n, w, m', n');
        TimesStep(CellsBetween(t, m, n, m', n'), w);
        SliceLater(cell, rest, Times(CellsBetween(t, m + 1, n, m', n'), w), w,
          Times(CellsBetween(t, m, n, m', n'), w));
      } else {
        NoTimes(w);
        SliceFirst(cell, rest);
      }
    }
  }

  /** each with its errors row by row after its container, all of them on the width that the largest
      one needs, and as numbers of that width with a sign. */
  lemma CellAt(c: Coder, f: seq<word>, ni: nat, t: Tile, container: nat, b: nat, m: nat, n: nat)
    requires ni > 0 && NeedsBits(f, ni, t, b) && b > 0 && m <= t.m && n <= t.n
    ensures var w := if c == Coder16 && (b == 15 || b == 16) then 17 else b + 1;
      Slice(TileCode(c, f, ni, t, container), container + Times(Times(n, t.m + 1) + m, w), w) ==
      Bits(ResidualAt(f, ni, t.i + m, t.j + n) % Pow2(w), w)
  {
    hide TileMax, NeedsBits, CellsCode, Bits, BitLength, Pow2, Slice, ResidualAt, CellsBetween, Times;
    var w := if c == Coder16 && (b == 15 || b == 16) then 17 else b + 1;
    NeedsBitLength(f, ni, t, b);
    NextCell(t, 0, 0, m, n);
    CellsFromStart(t, m, n);
    CellPart(f, ni, t, 0, 0, w, m, n);
    SliceLater(Bits(WidthCode(c, TileMax(f, ni, t, 0, 0)), container), CellsCode(f, ni, t, 0, 0, w),
      Times(Times(n, t.m + 1) + m, w), w, container + Times(Times(n, t.m + 1) + m, w));
  }

  lemma CellsFromStart(t: Tile, m: nat, n: nat)
    ensures CellsBetween(t, 0, 0, m, n) == Times(n, t.m + 1) + m
  {
  }
}
