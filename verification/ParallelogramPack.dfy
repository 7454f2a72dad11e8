/** The packers of the parallelogram predictor. */
module ParallelogramPack {
  import opened Words
  import opened BitStream
  import opened Grid
  import opened Parallelogram
  import opened ParallelogramSize

  /** Positions of the neighbours of an interior point. */
  lemma Neighbours(i: nat, j: nat, ni: nat, nj: nat)
    requires 2 <= i <= ni && 2 <= j <= nj
    ensures ni + 1 <= Ftn2c(i, j, ni) < ni * nj
    ensures Col(Ftn2c(i, j, ni), ni) == i && Row(Ftn2c(i, j, ni), ni) == j
    ensures Ftn2c(i, j - 1, ni) == Ftn2c(i, j, ni) - ni
    ensures Ftn2c(i - 1, j, ni) == Ftn2c(i, j, ni) - 1
    ensures Ftn2c(i - 1, j - 1, ni) == Ftn2c(i, j, ni) - 1 - ni
  {
    IndexOfPoint(i, j, ni, nj);
    IndexOfPoint(i - 1, j - 1, ni, nj);
    Distribute(j - 2, 1, ni);
  }

  /** The prediction errors, in 32-bit arithmetic. */
  method Residuals(c: Coder, ufld: array<word>, ni: nat, nj: nat, ghost nbits: nat) returns (dst: array<int>)
    requires IsField(c, ufld[..], ni, nj, nbits)
    ensures fresh(dst) && dst.Length == ni * nj
    ensures forall k: nat | k < ni * nj :: dst[k] == Residual(ufld[..], ni, k)
  {
    hide Row, Col, Ftn2c, Residual;
    ghost var f := ufld[..];
    ghost var total := ni * nj;
    AllPoints(ni, nj);
    AllResiduals(c, f, ni, nj, nbits);
    dst := new int[ni * nj];
    for j := 1 to nj + 1
      invariant forall k: nat | k < total && Col(k, ni) == 1 && Row(k, ni) < j :: dst[k] == 0
    {
      IndexOfPoint(1, j, ni, nj);
      dst[Ftn2c(1, j, ni)] := 0;
    }
    for i := 1 to ni + 1
      invariant forall k: nat | k < total && Col(k, ni) == 1 :: dst[k] == 0
      invariant forall k: nat | k < total && Row(k, ni) == 1 && Col(k, ni) < i :: dst[k] == 0
    {
      IndexOfPoint(i, 1, ni, nj);
      dst[Ftn2c(i, 1, ni)] := 0;
    }
    for j := 2 to nj + 1
      invariant forall k: nat | k < total && (Col(k, ni) == 1 || Row(k, ni) < j) :: dst[k] == Residual(f, ni, k)
    {
      for i := 2 to ni + 1
        invariant forall k: nat | k < total &&
          (Col(k, ni) == 1 || Row(k, ni) < j || (Row(k, ni) == j && Col(k, ni) < i)) ::
          dst[k] == Residual(f, ni, k)
      {
        Neighbours(i, j, ni, nj);
        var k22 := Ftn2c(i, j, ni);
        ResidualInWord(c, f, ni, nj, nbits, k22);
        dst[k22] := Signed((ufld[k22] - (ufld[k22 - ni] + ufld[k22 - 1] - ufld[k22 - 1 - ni])) % WORD_BASE);
      }
    }
  }

  /** Residuals vanish on the first row and column. */
  lemma AllResiduals(c: Coder, f: seq<word>, ni: nat, nj: nat, nbits: nat)
    requires IsField(c, f, ni, nj, nbits)
    ensures forall k: nat | k < ni * nj && (Row(k, ni) == 1 || Col(k, ni) == 1) :: Residual(f, ni, k) == 0
  {
  }

  /** The wrap-around of the word arithmetic does not show. */
  lemma ResidualInWord(c: Coder, f: seq<word>, ni: nat, nj: nat, nbits: nat, k: nat)
    requires IsField(c, f, ni, nj, nbits) && ni + 1 <= k < ni * nj && Row(k, ni) >= 2 && Col(k, ni) >= 2
    ensures Signed((f[k] - (f[k - ni] + f[k - 1] - f[k - 1 - ni])) % WORD_BASE) == Residual(f, ni, k)
  {
    hide Row, Col;
    Pow2Values();
    Pow2Monotonic(nbits, 23);
    ResidualBound(c, f, ni, nj, nbits, k);
    WrapOfSmall(Residual(f, ni, k));
  }

  lemma WrapOfSmall(d: int)
    requires Abs(d) < 0x8000_0000
    ensures Signed(d % WORD_BASE) == d
  {
  }

  /** The array of errors as the tile code sees it. */
  ghost predicate IsResiduals(dst: seq<int>, f: seq<word>, ni: nat, nj: nat)
  {
    ni >= 2 && |dst| == ni * nj && forall k: nat | k < |dst| :: dst[k] == Residual(f, ni, k)
  }

  lemma PointOfTile(dst: seq<int>, f: seq<word>, ni: nat, nj: nat, t: Tile, m: nat, n: nat)
    requires IsResiduals(dst, f, ni, nj) && InField(t, ni, nj) && m <= t.m && n <= t.n
    ensures 0 <= Ftn2c(t.i + m, t.j + n, ni) < |dst|
    ensures dst[Ftn2c(t.i + m, t.j + n, ni)] == ResidualAt(f, ni, t.i + m, t.j + n)
  {
    IndexOfPoint(t.i + m, t.j + n, ni, nj);
  }

  /** The number of bits that the largest error of a tile needs, by the table of logarithms
      up to 255 and by its high byte above. */
  method BitsNeeded(localMax: nat) returns (nbitsNeeded: nat)
    ensures nbitsNeeded == BitLength(localMax)
  {
    if localMax == 0 {
      nbitsNeeded := 0;
    } else if localMax < 256 {
      nbitsNeeded := BitLength(localMax);
    } else if localMax > 65535 {
      nbitsNeeded := BitLength(localMax);
    } else {
      BitLengthOfHigh(localMax);
      nbitsNeeded := 8 + BitLength(localMax / 256);
    }
  }

  /** The largest error of a tile. */
  method LocalMax(dst: array<int>, ni: nat, nj: nat, t: Tile, ghost f: seq<word>) returns (localMax: nat)
    requires IsResiduals(dst[..], f, ni, nj) && InField(t, ni, nj)
    ensures localMax == TileMax(f, ni, t, 0, 0)
  {
    hide Ftn2c, ResidualAt, IsResiduals;
    PointOfTile(dst[..], f, ni, nj, t, 0, 0);
    TileMaxCovers(f, ni, t, 0, 0, 0, 0);
    var max := dst[Ftn2c(t.i, t.j, ni)];
    for n := 0 to t.n + 1
      invariant Max(max, TileMax(f, ni, t, 0, n)) == TileMax(f, ni, t, 0, 0)
      invariant n > 0 ==> max >= 0
    {
      for m := 0 to t.m + 1
        invariant Max(max, TileMax(f, ni, t, m, n)) == TileMax(f, ni, t, 0, 0)
        invariant n > 0 || m > 0 ==> max >= 0
      {
        PointOfTile(dst[..], f, ni, nj, t, m, n);
        var k := Ftn2c(t.i + m, t.j + n, ni);
        if max < Abs(dst[k]) { max := Abs(dst[k]); }
      }
    }
    localMax := max;
  }

  /** Stuffs the error at one point of a tile, truncated to w bits. */
  method StuffCell(s: BitWriter, dst: array<int>, ni: nat, nj: nat, t: Tile, m: nat, n: nat, w: nat,
                   ghost f: seq<word>, ghost rest: seq<bool>, ghost all: seq<bool>)
    requires s.Valid() && s.z as object != dst && IsResiduals(dst[..], f, ni, nj) && InField(t, ni, nj) && 1 <= w <= 31
    requires m <= t.m && n <= t.n
    requires s.Stream() + (Bits(ResidualAt(f, ni, t.i + m, t.j + n) % Pow2(w), w) + rest) == all
    requires |all| <= s.Capacity() - 32
    modifies s, s.z
    ensures s.Valid() && s.Stream() + rest == all && s.cur >= old(s.cur)
    ensures forall k | 0 <= k < s.z.Length && (k < old(s.cur) || s.cur <= k) :: s.z[k] == old(s.z[k])
  {
    hide Ftn2c, ResidualAt, IsResiduals, Bits, Pow2, StreamOf, And;
    PointOfTile(dst[..], f, ni, nj, t, m, n);
    var d := dst[Ftn2c(t.i + m, t.j + n, ni)];
    MaskOfSigned(d, w);
    TokenFits(d, w);
    var token: word := And(d % WORD_BASE, Pow2(w) - 1);
    Append(s.Stream(), Bits(token, w), rest, all);
    s.Stuff(token, w);
  }

  /** Stuffs the errors of a row of a tile. */
  method StuffRow(s: BitWriter, dst: array<int>, ni: nat, nj: nat, t: Tile, n: nat, w: nat,
                  ghost f: seq<word>, ghost rest: seq<bool>, ghost all: seq<bool>)
    requires s.Valid() && s.z as object != dst && IsResiduals(dst[..], f, ni, nj) && InField(t, ni, nj) && 1 <= w <= 31
    requires n <= t.n && s.Stream() + (CellsCode(f, ni, t, 0, n, w) + rest) == all && |all| <= s.Capacity() - 32
    modifies s, s.z
    ensures s.Valid() && s.Stream() + (CellsCode(f, ni, t, 0, n + 1, w) + rest) == all && s.cur >= old(s.cur)
    ensures forall k | 0 <= k < s.z.Length && (k < old(s.cur) || s.cur <= k) :: s.z[k] == old(s.z[k])
  {
    hide Ftn2c, ResidualAt, IsResiduals, Bits, Pow2, StreamOf, CellsCode;
    for m := 0 to t.m + 1
      invariant s.Valid() && s.Stream() + (CellsCode(f, ni, t, m, n, w) + rest) == all && s.cur >= old(s.cur)
      invariant forall k | 0 <= k < s.z.Length && (k < old(s.cur) || s.cur <= k) :: s.z[k] == old(s.z[k])
    {
      CellsStep(f, ni, t, m, n, w, rest);
      StuffCell(s, dst, ni, nj, t, m, n, w, f, CellsCode(f, ni, t, m + 1, n, w) + rest, all);
    }
    RowDone(f, ni, t, n, w);
  }

  /** The code at a point, then the code of the points after it. */
  lemma CellsStep(f: seq<word>, ni: nat, t: Tile, m: nat, n: nat, w: nat, rest: seq<bool>)
    requires ni > 0 && m <= t.m && n <= t.n
    ensures CellsCode(f, ni, t, m, n, w) + rest ==
      Bits(ResidualAt(f, ni, t.i + m, t.j + n) % Pow2(w), w) + (CellsCode(f, ni, t, m + 1, n, w) + rest)
  {
    hide Bits, Pow2, ResidualAt;
  }

  lemma RowDone(f: seq<word>, ni: nat, t: Tile, n: nat, w: nat)
    requires ni > 0 && n <= t.n
    ensures CellsCode(f, ni, t, t.m + 1, n, w) == CellsCode(f, ni, t, 0, n + 1, w)
  {
  }

  /** Stuffs the errors of a tile, each truncated to w bits. */
  method StuffCells(s: BitWriter, dst: array<int>, ni: nat, nj: nat, t: Tile, w: nat,
                    ghost f: seq<word>, ghost rest: seq<bool>, ghost all: seq<bool>)
    requires s.Valid() && s.z as object != dst && IsResiduals(dst[..], f, ni, nj) && InField(t, ni, nj) && 1 <= w <= 31
    requires s.Stream() + (CellsCode(f, ni, t, 0, 0, w) + rest) == all && |all| <= s.Capacity() - 32
    modifies s, s.z
    ensures s.Valid() && s.Stream() + rest == all && s.cur >= old(s.cur)
    ensures forall k | 0 <= k < s.z.Length && (k < old(s.cur) || s.cur <= k) :: s.z[k] == old(s.z[k])
  {
    hide Ftn2c, ResidualAt, IsResiduals, Bits, Pow2, StreamOf;
    for n := 0 to t.n + 1
      invariant s.Valid() && s.Stream() + (CellsCode(f, ni, t, 0, n, w) + rest) == all && s.cur >= old(s.cur)
      invariant forall k | 0 <= k < s.z.Length && (k < old(s.cur) || s.cur <= k) :: s.z[k] == old(s.z[k])
    {
      StuffRow(s, dst, ni, nj, t, n, w, f, rest, all);
    }
    assert [] + rest == rest;
  }

  lemma TokenFits(d: int, w: nat)
    requires 1 <= w <= 31
    ensures 0 <= d % Pow2(w) < Pow2(w) <= WORD_BASE
  {
    Pow2Monotonic(w, 32);
    Pow2Values();
  }

  /** What is left to write, and room to close the stream after it. */
  ghost predicate Due(stream: seq<bool>, code: seq<bool>, all: seq<bool>, capacity: int)
  {
    stream + code == all && |all| <= capacity - 32
  }

  /** One tile: its width code, then its errors unless they are all zero. */
  method StuffTile(s: BitWriter, c: Coder, dst: array<int>, ni: nat, nj: nat, nbits: nat, t: Tile, container: nat,
                   ghost f: seq<word>, ghost rest: seq<bool>, ghost all: seq<bool>) returns (nbitsNeeded: nat)
    requires s.Valid() && s.z as object != dst && IsField(c, f, ni, nj, nbits)
    requires IsResiduals(dst[..], f, ni, nj) && InField(t, ni, nj) && container == Container(c, f, ni, nbits)
    requires Due(s.Stream(), TileCode(c, f, ni, t, container) + rest, all, s.Capacity())
    modifies s, s.z
    ensures s.Valid() && s.cur >= old(s.cur)
    ensures Due(s.Stream(), rest, all, s.Capacity())
    ensures nbitsNeeded == WidthCode(c, TileMax(f, ni, t, 0, 0))
    ensures forall k | 0 <= k < s.z.Length && (k < old(s.cur) || s.cur <= k) :: s.z[k] == old(s.z[k])
  {
    hide Ftn2c, ResidualAt, IsResiduals, Bits, Pow2, StreamOf, CellsCode, TileMax, Container;
    ContainerFits(c, f, ni, nj, nbits, t);
    var localMax := LocalMax(dst, ni, nj, t, f);
    WidthsFit(c, localMax, container);
    nbitsNeeded := BitsNeeded(localMax);
    if c == Coder16 && nbitsNeeded == 16 { nbitsNeeded := 15; }
    CodeInWord(nbitsNeeded, container);
    ghost var body := TileBody(c, f, ni, t);
    assert Bits(nbitsNeeded, container) + body + rest == Bits(nbitsNeeded, container) + (body + rest);
    Append(s.Stream(), Bits(nbitsNeeded, container), body + rest, all);
    s.Stuff(nbitsNeeded, container);
    if nbitsNeeded == 0 {
      assert [] + rest == rest;
    } else if c == Coder16 && nbitsNeeded == 15 {
      StuffCells(s, dst, ni, nj, t, 17, f, rest, all);
    } else {
      StuffCells(s, dst, ni, nj, t, nbitsNeeded + 1, f, rest, all);
    }
  }

  lemma CodeInWord(code: nat, container: nat)
    requires code < Pow2(container) && container <= 5
    ensures code < WORD_BASE
  {
    Pow2Monotonic(container, 5);
    Pow2Values();
  }

  /** All the tiles.  The 32-bit coder gives up as soon as a tile with errors leaves too
      little space; `ok` tells whether the code was completed. */
  method StuffTiles(s: BitWriter, c: Coder, dst: array<int>, ni: nat, nj: nat, nbits: nat, container: nat,
                    remainingSpace: int, ghost f: seq<word>, ghost all: seq<bool>) returns (ok: bool)
    requires s.Valid() && s.z as object != dst && IsField(c, f, ni, nj, nbits)
    requires IsResiduals(dst[..], f, ni, nj) && container == Container(c, f, ni, nbits)
    requires Due(s.Stream(), TilesCode(c, f, ni, nj, 2, 2, container), all, s.Capacity())
    modifies s, s.z
    ensures s.Valid() && s.cur >= old(s.cur)
    ensures ok ==> s.Stream() == all
    ensures ok == !(c == Coder32 && GivesUpFrom(f, ni, nj, nbits, 2, 2, remainingSpace, old(|s.Stream()|)))
    ensures forall k | 0 <= k < s.z.Length && (k < old(s.cur) || s.cur <= k) :: s.z[k] == old(s.z[k])
  {
    hide Ftn2c, IsResiduals, Bits, Pow2, StreamOf, TileCode, Container, TileMax, WidthCode;
    assert c == Coder32 ==> container == 5 by { Container32(f, ni, nbits); }
    var j := 2;
    while j <= nj
      invariant 2 <= j && s.Valid() && s.cur >= old(s.cur)
      invariant Due(s.Stream(), TilesCode(c, f, ni, nj, 2, j, container), all, s.Capacity())
      invariant c == Coder32 ==> (GivesUpFrom(f, ni, nj, nbits, 2, 2, remainingSpace, old(|s.Stream()|)) <==>
        GivesUpFrom(f, ni, nj, nbits, 2, j, remainingSpace, |s.Stream()|))
      invariant forall k | 0 <= k < s.z.Length && (k < old(s.cur) || s.cur <= k) :: s.z[k] == old(s.z[k])
    {
      var i := 2;
      while i <= ni
        invariant 2 <= i && s.Valid() && s.cur >= old(s.cur)
        invariant Due(s.Stream(), TilesCode(c, f, ni, nj, i, j, container), all, s.Capacity())
        invariant c == Coder32 ==> (GivesUpFrom(f, ni, nj, nbits, 2, 2, remainingSpace, old(|s.Stream()|)) <==>
          GivesUpFrom(f, ni, nj, nbits, i, j, remainingSpace, |s.Stream()|))
        invariant forall k | 0 <= k < s.z.Length && (k < old(s.cur) || s.cur <= k) :: s.z[k] == old(s.z[k])
      {
        ghost var t, before := TileAt(i, j, ni, nj, STEP), |s.Stream()|;
        ghost var rest := TilesCode(c, f, ni, nj, i + STEP, j, container);
        var nbitsNeeded := StuffTile(s, c, dst, ni, nj, nbits, TileAt(i, j, ni, nj, STEP), container, f, rest, all);
        assert |s.Stream()| == before + |TileCode(c, f, ni, t, container)|;
        s.Position();
        if c == Coder32 && nbitsNeeded != 0 &&
          remainingSpace < (s.cur - s.start) + (1 + (nbitsNeeded + 9 * nbits) / 32) {
          return false;
        }
        i := i + STEP;
      }
      j := j + STEP;
    }
    assert s.Stream() + [] == s.Stream();
    ok := true;
  }

  lemma Container32(f: seq<word>, ni: nat, nbits: nat)
    requires ni > 0
    ensures Container(Coder32, f, ni, nbits) == 5
  {
  }

  /** The first row. */
  method StuffTop(s: BitWriter, c: Coder, ufld: array<word>, ni: nat, nj: nat, nbits: nat,
                  ghost rest: seq<bool>, ghost all: seq<bool>)
    requires s.Valid() && s.z != ufld && IsField(c, ufld[..], ni, nj, nbits)
    requires Due(s.Stream(), TopCode(ufld[..], ni, 1, nbits) + rest, all, s.Capacity())
    modifies s, s.z
    ensures s.Valid() && s.cur >= old(s.cur)
    ensures Due(s.Stream(), rest, all, s.Capacity())
    ensures forall k | 0 <= k < s.z.Length && (k < old(s.cur) || s.cur <= k) :: s.z[k] == old(s.z[k])
  {
    hide Ftn2c, Bits, Pow2, StreamOf;
    ghost var f := ufld[..];
    for i := 1 to ni + 1
      invariant s.Valid() && s.cur >= old(s.cur) && ufld[..] == f
      invariant Due(s.Stream(), TopCode(f, ni, i, nbits) + rest, all, s.Capacity())
      invariant forall k | 0 <= k < s.z.Length && (k < old(s.cur) || s.cur <= k) :: s.z[k] == old(s.z[k])
    {
      IndexOfPoint(i, 1, ni, nj);
      var token := ufld[Ftn2c(i, 1, ni)];
      ghost var after := TopCode(f, ni, i + 1, nbits);
      assert Bits(token, nbits) + after + rest == Bits(token, nbits) + (after + rest);
      Append(s.Stream(), Bits(token, nbits), after + rest, all);
      s.Stuff(token, nbits);
    }
    assert [] + rest == rest;
  }

  /** The first column. */
  method StuffLeft(s: BitWriter, c: Coder, ufld: array<word>, ni: nat, nj: nat, nbits: nat,
                   ghost rest: seq<bool>, ghost all: seq<bool>)
    requires s.Valid() && s.z != ufld && IsField(c, ufld[..], ni, nj, nbits)
    requires Due(s.Stream(), LeftCode(ufld[..], ni, nj, 2, nbits) + rest, all, s.Capacity())
    modifies s, s.z
    ensures s.Valid() && s.cur >= old(s.cur)
    ensures Due(s.Stream(), rest, all, s.Capacity())
    ensures forall k | 0 <= k < s.z.Length && (k < old(s.cur) || s.cur <= k) :: s.z[k] == old(s.z[k])
  {
    hide Ftn2c, Bits, Pow2, StreamOf;
    ghost var f := ufld[..];
    for j := 2 to nj + 1
      invariant s.Valid() && s.cur >= old(s.cur) && ufld[..] == f
      invariant Due(s.Stream(), LeftCode(f, ni, nj, j, nbits) + rest, all, s.Capacity())
      invariant forall k | 0 <= k < s.z.Length && (k < old(s.cur) || s.cur <= k) :: s.z[k] == old(s.z[k])
    {
      IndexOfPoint(1, j, ni, nj);
      var token := ufld[Ftn2c(1, j, ni)];
      ghost var after := LeftCode(f, ni, nj, j + 1, nbits);
      assert Bits(token, nbits) + after + rest == Bits(token, nbits) + (after + rest);
      Append(s.Stream(), Bits(token, nbits), after + rest, all);
      s.Stuff(token, nbits);
    }
    assert [] + rest == rest;
  }

  /** Size of the container: the 16-bit coder scans the field for an error beyond 16 bits. */
  method ChooseContainer(c: Coder, dst: array<int>, ni: nat, nj: nat, nbits: nat, ghost f: seq<word>)
    returns (container: nat)
    requires IsResiduals(dst[..], f, ni, nj) && IsField(c, f, ni, nj, nbits)
    ensures container == Container(c, f, ni, nbits)
  {
    hide Residual;
    match c {
      case Coder8 => container := 4;
      case Coder32 => container := 5;
      case Coder16 =>
        container := 4;
        var gt16 := false;
        if nbits >= 15 {
          var i := 0;
          while i < ni * nj && !gt16
            invariant i <= ni * nj && container == (if gt16 then 5 else 4)
            invariant gt16 ==> exists k: nat | k < |f| :: Abs(Residual(f, ni, k)) > 65535
            invariant !gt16 ==> forall k: nat | k < i :: Abs(Residual(f, ni, k)) <= 65535
            decreases ni * nj - i, !gt16
          {
            assert dst[i] == dst[..][i] == Residual(f, ni, i);
            if 65535 < Abs(dst[i]) {
              container := 5;
              gt16 := true;
            }
            i := i + 1;
          }
        }
    }
  }

  /** The code of a whole field, from word `start` on.  `zlng` is the length of the stream in
      bytes, and 0 when the 32-bit coder gives up. */
  method PackTokens(c: Coder, z: array<word>, start: nat, ufld: array<word>, ni: nat, nj: nat, nbits: nat,
                    remainingSpace: int)
    returns (zlng: nat)
    requires z != ufld && IsField(c, ufld[..], ni, nj, nbits)
    requires start < z.Length && |FieldCode(c, ufld[..], ni, nj, nbits)| <= 32 * (z.Length - start)
    modifies z
    ensures zlng == 0 <==> GivesUp(c, ufld[..], ni, nj, nbits, remainingSpace)
    ensures zlng != 0 ==> zlng == 1 + 4 * WordsFor(|FieldCode(c, ufld[..], ni, nj, nbits)|)
    ensures zlng != 0 ==> forall b: nat | ErrorsBelow(ufld[..], ni, b) ::
      zlng <= 1 + 4 * WordsFor(CodeLimit(c, ni, nj, nbits, b))
    ensures zlng != 0 ==> Stored(z[..], start, FieldCode(c, ufld[..], ni, nj, nbits))
    ensures forall k | 0 <= k < start :: z[k] == old(z[k])
    ensures zlng != 0 ==>
      forall k | start < k < z.Length && start + WordsFor(|FieldCode(c, ufld[..], ni, nj, nbits)|) <= k ::
      z[k] == old(z[k])
  {
    hide Ftn2c, Bits, Pow2, StreamOf, TopCode, LeftCode, TilesCode, Container, Residual, WordsBits, Stored, GivesUpFrom;
    hide ErrorsBelow, CodeLimit, WordsFor;
    ghost var f := ufld[..];
    var dst := Residuals(c, ufld, ni, nj, nbits);
    assert IsResiduals(dst[..], f, ni, nj);
    var container := ChooseContainer(c, dst, ni, nj, nbits, f);
    z[start] := 0;
    assert ufld[..] == f;
    ContainerFits(c, f, ni, nj, nbits, TileAt(2, 2, ni, nj, STEP));
    var s := new BitWriter(z, start);
    ghost var all := FieldCode(c, f, ni, nj, nbits);
    ghost var tiles := TilesCode(c, f, ni, nj, 2, 2, container);
    ghost var left := LeftCode(f, ni, nj, 2, nbits) + tiles;
    ghost var border := TopCode(f, ni, 1, nbits) + left;
    ContainerInField(container);
    Append([], Bits(container, 3), border, all);
    s.Stuff(container, STEP);
    assert [] + Bits(container, 3) == Bits(container, 3);
    StuffTop(s, c, ufld, ni, nj, nbits, left, all);
    StuffLeft(s, c, ufld, ni, nj, nbits, tiles, all);
    assert |s.Stream()| == 3 + |TopCode(f, ni, 1, nbits)| + |LeftCode(f, ni, nj, 2, nbits)|;
    var ok := StuffTiles(s, c, dst, ni, nj, nbits, container, remainingSpace, f, all);
    assert ok == !GivesUp(c, f, ni, nj, nbits, remainingSpace);
    hide GivesUp;
    if !ok { return 0; }
    s.Close();
    zlng := 1 + (s.cur - start) * 4;
    WithinLimits(c, f, ni, nj, nbits);
  }

  lemma WithinLimits(c: Coder, f: seq<word>, ni: nat, nj: nat, nbits: nat)
    requires IsField(c, f, ni, nj, nbits)
    ensures forall b: nat | ErrorsBelow(f, ni, b) ::
      WordsFor(|FieldCode(c, f, ni, nj, nbits)|) <= WordsFor(CodeLimit(c, ni, nj, nbits, b))
  {
    hide ErrorsBelow, FieldCode, CodeLimit;
    forall b: nat | ErrorsBelow(f, ni, b)
      ensures WordsFor(|FieldCode(c, f, ni, nj, nbits)|) <= WordsFor(CodeLimit(c, ni, nj, nbits, b))
    {
      FieldLength(c, f, ni, nj, nbits, b);
    }
  }

  lemma ContainerInField(container: nat)
    requires container <= 5
    ensures container < Pow2(3)
  {
    Pow2Values();
  }
}
