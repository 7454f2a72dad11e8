/** The unpackers of the parallelogram predictor. */
module ParallelogramUnpack {
  import opened Words
  import opened BitStream
  import opened Grid
  import opened Parallelogram
  import opened ParallelogramPack

  /** Reads the errors of a tile and restores their signs. */
  method TakeCells(r: BitReader, tmp: array<int>, ni: nat, nj: nat, t: Tile, w: nat,
                   ghost f: seq<word>, ghost rest: seq<bool>)
    requires r.Valid() && r.z as object != tmp && tmp.Length == ni * nj && InField(t, ni, nj) && 1 <= w <= 31
    requires rest != []
    requires ni > 0 && TileMax(f, ni, t, 0, 0) < Pow2(w - 1)
    requires r.Rest() == CellsCode(f, ni, t, 0, 0, w) + rest
    modifies r, tmp
    ensures r.Valid() && r.Rest() == rest
    ensures forall k: nat | k < tmp.Length :: tmp[k] == if InTile(k, t, ni) then Residual(f, ni, k) else old(tmp[k])
  {
    hide Row, Col, Ftn2c, Residual, Bits, Pow2, RestOf, LowZeros, Shl, Asr, TileMax;
    ghost var tmp0 := tmp[..];
    AllPoints(ni, nj);
    for n := 0 to t.n + 1
      invariant r.Valid() && r.Rest() == CellsCode(f, ni, t, 0, n, w) + rest
      invariant forall k: nat | k < tmp.Length ::
        tmp[k] == if CellDone(k, t, ni, 0, n) then Residual(f, ni, k) else tmp0[k]
    {
      for m := 0 to t.m + 1
        invariant r.Valid() && r.Rest() == CellsCode(f, ni, t, m, n, w) + rest
        invariant forall k: nat | k < tmp.Length ::
          tmp[k] == if CellDone(k, t, ni, m, n) then Residual(f, ni, k) else tmp0[k]
      {
        IndexOfPoint(t.i + m, t.j + n, ni, nj);
        TileMaxCovers(f, ni, t, 0, 0, m, n);
        var k := Ftn2c(t.i + m, t.j + n, ni);
        ghost var d := ResidualAt(f, ni, t.i + m, t.j + n);
        ghost var after := CellsCode(f, ni, t, m + 1, n, w);
        TokenFits(d, w);
        assert r.Rest() == Bits(d % Pow2(w), w) + (after + rest);
        var token := r.Take(w, d % Pow2(w), after + rest);
        SignExtension(d, w);
        tmp[k] := Asr(Signed(Shl(token, 32 - w)), 32 - w);
      }
    }
    assert [] + rest == rest;
  }

  /** A tile without errors. */
  method ZeroCells(tmp: array<int>, ni: nat, nj: nat, t: Tile, ghost f: seq<word>)
    requires tmp.Length == ni * nj && InField(t, ni, nj) && ni > 0 && TileMax(f, ni, t, 0, 0) == 0
    modifies tmp
    ensures forall k: nat | k < tmp.Length :: tmp[k] == if InTile(k, t, ni) then Residual(f, ni, k) else old(tmp[k])
  {
    hide Row, Col, Ftn2c, Residual, TileMax;
    ghost var tmp0 := tmp[..];
    AllPoints(ni, nj);
    for n := 0 to t.n + 1
      invariant forall k: nat | k < tmp.Length ::
        tmp[k] == if CellDone(k, t, ni, 0, n) then Residual(f, ni, k) else tmp0[k]
    {
      for m := 0 to t.m + 1
        invariant forall k: nat | k < tmp.Length ::
          tmp[k] == if CellDone(k, t, ni, m, n) then Residual(f, ni, k) else tmp0[k]
      {
        IndexOfPoint(t.i + m, t.j + n, ni, nj);
        TileMaxCovers(f, ni, t, 0, 0, m, n);
        tmp[Ftn2c(t.i + m, t.j + n, ni)] := 0;
      }
    }
  }

  /** One tile. */
  method TakeTile(r: BitReader, c: Coder, tmp: array<int>, ni: nat, nj: nat, ghost nbits: nat, t: Tile, container: nat,
                  ghost f: seq<word>, ghost rest: seq<bool>)
    requires r.Valid() && r.z as object != tmp && IsField(c, f, ni, nj, nbits) && tmp.Length == ni * nj
    requires InField(t, ni, nj) && container == Container(c, f, ni, nbits) && rest != []
    requires r.Rest() == TileCode(c, f, ni, t, container) + rest
    modifies r, tmp
    ensures r.Valid() && r.Rest() == rest
    ensures forall k: nat | k < tmp.Length :: tmp[k] == if InTile(k, t, ni) then Residual(f, ni, k) else old(tmp[k])
  {
    hide Row, Col, Ftn2c, Residual, Bits, Pow2, RestOf, LowZeros, TileMax, CellsCode, Container, ResidualAt, InTile;
    ContainerFits(c, f, ni, nj, nbits, t);
    ghost var localMax := TileMax(f, ni, t, 0, 0);
    WidthsFit(c, localMax, container);
    ghost var code, body := WidthCode(c, localMax), TileBody(c, f, ni, t);
    assert r.Rest() == Bits(code, container) + (body + rest);
    var nbitsNeeded := r.Take(container, code, body + rest);
    if nbitsNeeded == 0 {
      assert [] + rest == rest;
      ZeroCells(tmp, ni, nj, t, f);
    } else {
      if c == Coder16 && (nbitsNeeded == 15 || nbitsNeeded == 16) {
        TakeCells(r, tmp, ni, nj, t, 17, f, rest);
      } else {
        TakeCells(r, tmp, ni, nj, t, nbitsNeeded + 1, f, rest);
      }
    }
  }

  /** The tiles cover every interior point. */
  method TakeTiles(r: BitReader, c: Coder, tmp: array<int>, ni: nat, nj: nat, ghost nbits: nat, container: nat,
                   ghost f: seq<word>, ghost rest: seq<bool>)
    requires r.Valid() && r.z as object != tmp && IsField(c, f, ni, nj, nbits) && tmp.Length == ni * nj
    requires container == Container(c, f, ni, nbits) && rest != []
    requires r.Rest() == TilesCode(c, f, ni, nj, 2, 2, container) + rest
    modifies r, tmp
    ensures forall k: nat | k < tmp.Length && Row(k, ni) >= 2 && Col(k, ni) >= 2 :: tmp[k] == Residual(f, ni, k)
  {
    hide Row, Col, Ftn2c, Residual, Bits, Pow2, RestOf, LowZeros, TileCode, Container;
    AllPoints(ni, nj);
    var j := 2;
    while j <= nj
      invariant 2 <= j && r.Valid() && r.Rest() == TilesCode(c, f, ni, nj, 2, j, container) + rest
      invariant forall k: nat | k < tmp.Length && TileDone(k, ni, 2, j, 2, STEP) :: tmp[k] == Residual(f, ni, k)
    {
      var i := 2;
      while i <= ni
        invariant 2 <= i && r.Valid() && r.Rest() == TilesCode(c, f, ni, nj, i, j, container) + rest
        invariant forall k: nat | k < tmp.Length && TileDone(k, ni, i, j, 2, STEP) :: tmp[k] == Residual(f, ni, k)
      {
        var t := TileAt(i, j, ni, nj, STEP);
        ghost var after := TilesCode(c, f, ni, nj, i + STEP, j, container);
        assert TileCode(c, f, ni, t, container) + after + rest == TileCode(c, f, ni, t, container) + (after + rest);
        TakeTile(r, c, tmp, ni, nj, nbits, t, container, f, after + rest);
        i := i + STEP;
      }
      j := j + STEP;
    }
  }

  /** The first row. */
  method TakeTop(r: BitReader, c: Coder, ufld: array<word>, ni: nat, nj: nat, nbits: nat,
                 ghost f: seq<word>, ghost rest: seq<bool>)
    requires r.Valid() && r.z != ufld && IsField(c, f, ni, nj, nbits) && ufld.Length >= |f| && rest != []
    requires r.Rest() == TopCode(f, ni, 1, nbits) + rest
    modifies r, ufld
    ensures r.Valid() && r.Rest() == rest
    ensures forall k: nat | k < |f| && Row(k, ni) == 1 :: ufld[k] == f[k]
  {
    hide Row, Col, Ftn2c, Bits, Pow2, RestOf, LowZeros;
    AllPoints(ni, nj);
    for i := 1 to ni + 1
      invariant r.Valid() && r.Rest() == TopCode(f, ni, i, nbits) + rest
      invariant forall k: nat | k < |f| && Row(k, ni) == 1 && Col(k, ni) < i :: ufld[k] == f[k]
    {
      IndexOfPoint(i, 1, ni, nj);
      var k := Ftn2c(i, 1, ni);
      ghost var after := TopCode(f, ni, i + 1, nbits);
      assert r.Rest() == Bits(f[k], nbits) + (after + rest);
      var token := r.Take(nbits, f[k], after + rest);
      ufld[k] := token;
    }
    assert [] + rest == rest;
  }

  /** The first column. */
  method TakeLeft(r: BitReader, c: Coder, ufld: array<word>, ni: nat, nj: nat, nbits: nat,
                  ghost f: seq<word>, ghost rest: seq<bool>)
    requires r.Valid() && r.z != ufld && IsField(c, f, ni, nj, nbits) && ufld.Length >= |f| && rest != []
    requires r.Rest() == LeftCode(f, ni, nj, 2, nbits) + rest
    requires forall k: nat | k < |f| && Row(k, ni) == 1 :: ufld[k] == f[k]
    modifies r, ufld
    ensures r.Valid() && r.Rest() == rest
    ensures forall k: nat | k < |f| && (Row(k, ni) == 1 || Col(k, ni) == 1) :: ufld[k] == f[k]
  {
    hide Row, Col, Ftn2c, Bits, Pow2, RestOf, LowZeros;
    AllPoints(ni, nj);
    for j := 2 to nj + 1
      invariant r.Valid() && r.Rest() == LeftCode(f, ni, nj, j, nbits) + rest
      invariant forall k: nat | k < |f| && (Row(k, ni) == 1 || (Col(k, ni) == 1 && Row(k, ni) < j)) :: ufld[k] == f[k]
    {
      IndexOfPoint(1, j, ni, nj);
      var k := Ftn2c(1, j, ni);
      ghost var after := LeftCode(f, ni, nj, j + 1, nbits);
      assert r.Rest() == Bits(f[k], nbits) + (after + rest);
      var token := r.Take(nbits, f[k], after + rest);
      ufld[k] := token;
    }
    assert [] + rest == rest;
  }

  /** The points around an interior point, and that adding its error to the prediction
      gives it back, in storage of the size of the coder. */
  lemma AroundPoint(c: Coder, f: seq<word>, i: nat, j: nat, ni: nat, nj: nat, nbits: nat)
    requires IsField(c, f, ni, nj, nbits) && 2 <= i <= ni && 2 <= j <= nj
    ensures var k := Ftn2c(i, j, ni);
      ni + 1 <= k < |f| && Col(k, ni) == i && Row(k, ni) == j &&
      Ftn2c(i, j - 1, ni) == k - ni && Row(k - ni, ni) == j - 1 &&
      Ftn2c(i - 1, j, ni) == k - 1 && Row(k - 1, ni) == j && Col(k - 1, ni) == i - 1 &&
      Ftn2c(i - 1, j - 1, ni) == k - 1 - ni && Row(k - 1 - ni, ni) == j - 1 &&
      (Residual(f, ni, k) + (f[k - ni] as int + f[k - 1] as int - f[k - 1 - ni] as int)) % Pow2(Storage(c)) == f[k]
  {
    hide Row, Col, Ftn2c, Residual, Pow2;
    Neighbours(i, j, ni, nj);
    IndexOfPoint(i, j - 1, ni, nj);
    IndexOfPoint(i - 1, j, ni, nj);
    IndexOfPoint(i - 1, j - 1, ni, nj);
    ResidualUndone(c, f, ni, nj, nbits, Ftn2c(i, j, ni));
  }

  /** Adding the errors to the predictions, row by row, undoes the predictor.  The result
      is truncated to the size of a token in memory. */
  method Reconstruct(c: Coder, ufld: array<word>, tmp: array<int>, ni: nat, nj: nat, ghost nbits: nat,
                     ghost f: seq<word>)
    requires IsField(c, f, ni, nj, nbits) && tmp.Length == |f| <= ufld.Length && ufld as object != tmp
    requires forall k: nat | k < |f| && Row(k, ni) >= 2 && Col(k, ni) >= 2 :: tmp[k] == Residual(f, ni, k)
    requires forall k: nat | k < |f| && (Row(k, ni) == 1 || Col(k, ni) == 1) :: ufld[k] == f[k]
    modifies ufld
    ensures ufld[..|f|] == f
  {
    hide Row, Col, Ftn2c, Residual, Pow2;
    AllPoints(ni, nj);
    for j := 2 to nj + 1
      invariant forall k: nat | k < |f| && (Col(k, ni) == 1 || Row(k, ni) < j) :: ufld[k] == f[k]
    {
      for i := 2 to ni + 1
        invariant forall k: nat | k < |f| &&
          (Col(k, ni) == 1 || Row(k, ni) < j || (Row(k, ni) == j && Col(k, ni) < i)) ::
          ufld[k] == f[k]
      {
        AroundPoint(c, f, i, j, ni, nj, nbits);
        var k11, k12, k21, k22 := Ftn2c(i - 1, j - 1, ni), Ftn2c(i - 1, j, ni), Ftn2c(i, j - 1, ni), Ftn2c(i, j, ni);
        var prediction: int := ufld[k21] as int + ufld[k12] as int - ufld[k11] as int;
        ufld[k22] := (tmp[k22] + prediction) % Pow2(Storage(c));
      }
    }
    SameField(ufld, f, ni, nj);
  }

  lemma SameField(ufld: array<word>, f: seq<word>, ni: nat, nj: nat)
    requires ni > 0 && |f| == ni * nj <= ufld.Length
    requires forall k: nat | k < |f| && (Col(k, ni) == 1 || Row(k, ni) < nj + 1) :: ufld[k] == f[k]
    ensures ufld[..|f|] == f
  {
    hide Row, Col;
    forall k: nat | k < |f| ensures ufld[k] == f[k] {
      PointOfIndex(k, ni, nj);
    }
  }

  lemma ResidualUndone(c: Coder, f: seq<word>, ni: nat, nj: nat, nbits: nat, k: nat)
    requires IsField(c, f, ni, nj, nbits) && ni + 1 <= k < ni * nj && Row(k, ni) >= 2 && Col(k, ni) >= 2
    ensures (Residual(f, ni, k) + (f[k - ni] as int + f[k - 1] as int - f[k - 1 - ni] as int)) % Pow2(Storage(c)) ==
      f[k]
  {
    hide Row, Col, Pow2;
    assert Residual(f, ni, k) + (f[k - ni] as int + f[k - 1] as int - f[k - 1 - ni] as int) == f[k] as int;
    Pow2Monotonic(nbits, Storage(c));
    SmallMod(f[k], Pow2(Storage(c)));
  }

  lemma SmallMod(x: nat, m: nat)
    requires x < m
    ensures x % m == x
  {
    ModUniqueInt(m, 0, x, x);
  }

  /** Restores a field from the stream that starts at word `start`. */
  method UnpackTokens(c: Coder, ufld: array<word>, z: array<word>, start: nat, ni: nat, nj: nat, nbits: nat,
                      ghost f: seq<word>)
    requires z != ufld && IsField(c, f, ni, nj, nbits) && ufld.Length >= ni * nj
    requires Holds(z[..], start, FieldCode(c, f, ni, nj, nbits))
    modifies ufld
    ensures ufld[..ni * nj] == f
  {
    hide Row, Col, Ftn2c, Residual, Bits, Pow2, RestOf, LowZeros, TopCode, LeftCode, TilesCode, Container, WordsBits;
    var r := new BitReader(z, start);
    var tmp := new int[ni * nj];
    HoldsAhead(z, start, FieldCode(c, f, ni, nj, nbits));
    ghost var tail := r.Rest()[|FieldCode(c, f, ni, nj, nbits)|..];
    ghost var container := Container(c, f, ni, nbits);
    ghost var tiles := TilesCode(c, f, ni, nj, 2, 2, container);
    ghost var top, left := TopCode(f, ni, 1, nbits), LeftCode(f, ni, nj, 2, nbits);
    ContainerFits(c, f, ni, nj, nbits, TileAt(2, 2, ni, nj, STEP));
    ContainerInField(container);
    Regrouped(Bits(container, 3), top, left, tiles, tail);
    var nbitsReqContainer := r.Take(STEP, container, top + (left + (tiles + tail)));
    TakeTop(r, c, ufld, ni, nj, nbits, f, left + (tiles + tail));
    TakeLeft(r, c, ufld, ni, nj, nbits, f, tiles + tail);
    TakeTiles(r, c, tmp, ni, nj, nbits, nbitsReqContainer, f, tail);
    Reconstruct(c, ufld, tmp, ni, nj, nbits, f);
  }

  lemma Regrouped(a: seq<bool>, b: seq<bool>, c: seq<bool>, d: seq<bool>, e: seq<bool>)
    ensures a + (b + (c + d)) + e == a + (b + (c + (d + e)))
  {
  }
}
