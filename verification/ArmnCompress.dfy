/** The compressor of packed fields of at most 16 bits (`armn_compress`, `c_fstzip`,
    `c_fstunzip`), on a little-endian machine: the field is compressed in place, and its
    16-bit halves are swapped first where they were packed the other way round. */
module ArmnCompress {
  import opened Words
  import opened BitStream
  import opened Grid
  import opened Fstzip
  import M = Minimum
  import P = Parallelogram
  import Size = ParallelogramSize
  import Layout = ParallelogramLayout
  import Pack = ParallelogramPack
  import Unpack = ParallelogramUnpack

  const BEST: int := 1
  const FAST: int := 0
  const UNSET: int := -1

  // ----- Halves of words -----

  function Swapped(w: word): word
  {
    w / 0x1_0000 + w % 0x1_0000 * 0x1_0000
  }

  lemma SwapByShifts(w: word)
    ensures Or(Shr(w, 16), Shl(w, 16)) == Swapped(w)
  {
    hide Or, Shl, Shr, Pow2;
    Pow2Values();
    ShrIsDiv(w, 16);
    ShlIsMod(w, 16);
    OrIsSum(w % 0x1_0000, w / 0x1_0000, 16);
    OrCommutes(w / 0x1_0000, w % 0x1_0000 * 0x1_0000);
  }

  /** Half k of a run of words, in the order of the memory. */
  function ShortIn(fld: seq<word>, k: nat): (s: word)
    requires k / 2 < |fld|
    ensures s < 0x1_0000
  {
    if k % 2 == 0 then fld[k / 2] % 0x1_0000 else fld[k / 2] / 0x1_0000
  }

  /** Token k of a field.  The integer packers put the first token of a word in its high
      half; other fields come as shorts and are not to be swapped. */
  function TokenIn(fld: seq<word>, k: nat, swapStream: int): (s: word)
    requires k / 2 < |fld|
    ensures s < 0x1_0000
  {
    if (k % 2 == 0) == (swapStream == 1) then fld[k / 2] / 0x1_0000 else fld[k / 2] % 0x1_0000
  }

  ghost function Tokens(fld: seq<word>, n: nat, swapStream: int): (f: seq<word>)
    requires (n + 1) / 2 <= |fld|
    ensures |f| == n && forall k | 0 <= k < n :: f[k] == TokenIn(fld, k, swapStream)
  {
    seq(n, k requires 0 <= k < n => TokenIn(fld, k, swapStream))
  }

  /** The first two tokens of a field that is swapped are the high half of its first word, then the low one; in
      another field it is the other way round. */
  lemma FirstTokens(fld: seq<word>, n: nat)
    requires 2 <= n && (n + 1) / 2 <= |fld|
    ensures Tokens(fld, n, 1)[..2] == [fld[0] / 0x1_0000, fld[0] % 0x1_0000]
    ensures Tokens(fld, n, 0)[..2] == [fld[0] % 0x1_0000, fld[0] / 0x1_0000]
  {
  }

  /** Swaps the halves of the first words. */
  method SwapHalves(fld: array<word>, limite: nat)
    requires limite <= fld.Length
    modifies fld
    ensures forall k | 0 <= k < fld.Length :: fld[k] == if k < limite then Swapped(old(fld[k])) else old(fld[k])
  {
    hide Or, Shl, Shr, Swapped;
    for i := 0 to limite
      invariant forall k | 0 <= k < fld.Length :: fld[k] == if k < i then Swapped(old(fld[k])) else old(fld[k])
    {
      SwapByShifts(fld[i]);
      fld[i] := Or(Shr(fld[i], 16), Shl(fld[i], 16));
    }
  }

  /** The first n halves of a field as an array of shorts. */
  method ShortsOf(fld: array<word>, n: nat) returns (us: array<word>)
    requires (n + 1) / 2 <= fld.Length
    ensures fresh(us) && us.Length == n && forall k | 0 <= k < n :: us[k] == ShortIn(fld[..], k)
  {
    us := new word[n];
    for i := 0 to n
      invariant forall k | 0 <= k < i :: us[k] == ShortIn(fld[..], k)
    {
      us[i] := if i % 2 == 0 then fld[i / 2] % 0x1_0000 else fld[i / 2] / 0x1_0000;
    }
  }

  /** What a half of the scratch storage holds: a short, or what was in the storage before. */
  function ScratchHalf(us: seq<word>, junk: word, k: nat): (h: word)
    ensures h < 0x1_0000
  {
    if k < |us| then us[k] % 0x1_0000 else if k % 2 == 0 then junk % 0x1_0000 else junk / 0x1_0000
  }

  /** `memcpy` of that many words from storage that starts with those shorts, and whose other words
      are `junk`. */
  method CopyShorts(fld: array<word>, us: array<word>, n: nat, junk: word)
    requires fld != us && n <= fld.Length
    modifies fld
    ensures forall k | 0 <= k < 2 * n && k < us.Length && us[k] < 0x1_0000 :: ShortIn(fld[..], k) == us[k]
    ensures forall k | n <= k < fld.Length :: fld[k] == old(fld[k])
    ensures forall k | us.Length <= 2 * k && k < n :: fld[k] == junk
  {
    hide ScratchHalf;
    for i := 0 to n
      invariant forall k | 0 <= k < i ::
        fld[k] == ScratchHalf(us[..], junk, 2 * k) + ScratchHalf(us[..], junk, 2 * k + 1) * 0x1_0000
      invariant forall k | n <= k < fld.Length :: fld[k] == old(fld[k])
    {
      fld[i] := ScratchHalf(us[..], junk, 2 * i) + ScratchHalf(us[..], junk, 2 * i + 1) * 0x1_0000;
    }
    forall k | 0 <= k < 2 * n && k < us.Length && us[k] < 0x1_0000 ensures ShortIn(fld[..], k) == us[k] {
      FromScratch(us[..], junk, k / 2, fld[k / 2]);
    }
    forall k | us.Length <= 2 * k && k < n ensures fld[k] == junk {
      FromScratch(us[..], junk, k, fld[k]);
    }
  }

  lemma FromScratch(us: seq<word>, junk: word, i: nat, w: word)
    requires w == ScratchHalf(us, junk, 2 * i) + ScratchHalf(us, junk, 2 * i + 1) * 0x1_0000
    ensures 2 * i < |us| && us[2 * i] < 0x1_0000 ==> w % 0x1_0000 == us[2 * i]
    ensures 2 * i + 1 < |us| && us[2 * i + 1] < 0x1_0000 ==> w / 0x1_0000 == us[2 * i + 1]
    ensures |us| <= 2 * i ==> w == junk
  {
  }

  /** The copy of the words of the shorts stays within the words of the field if and only if their
      number is odd. */
  lemma CopyInsideIff(npts: nat)
    ensures 1 + npts / 2 <= (npts + 1) / 2 <==> npts % 2 == 1
  {
  }

  /** `memcpy` of whole words and at most one byte more. */
  method CopyBytes(dst: array<word>, src: array<word>, nbytes: nat)
    requires dst != src && nbytes % 4 <= 1 && (nbytes + 3) / 4 <= dst.Length && (nbytes + 3) / 4 <= src.Length
    modifies dst
    ensures forall k | 0 <= k < nbytes / 4 :: dst[k] == src[k]
  {
    for i := 0 to nbytes / 4
      invariant forall k | 0 <= k < i :: dst[k] == src[k]
    {
      dst[i] := src[i];
    }
    if nbytes % 4 == 1 {
      var w := nbytes / 4;
      dst[w] := dst[w] / 0x100 * 0x100 + src[w] % 0x100;
    }
  }

  // ----- The two coders -----

  predicate UsesMinimum(level: int, ni: nat, nj: nat, nbits: nat)
  {
    level == FAST || ni < 16 || nj < 16 || nbits <= 4
  }

  function HeaderOf(minimum: bool, nbits: nat): Header
  {
    if minimum then Header(MINIMUM, 0, 5, nbits, 1, 0) else Header(PARALLELOGRAM, 1, 3, nbits, 1, 0)
  }

  ghost function CodeOf(minimum: bool, f: seq<word>, ni: nat, nj: nat, nbits: nat): seq<bool>
    requires ni > 0
  {
    if minimum then M.MinCode(f, ni, nj, nbits) else P.FieldCode(P.Coder16, f, ni, nj, nbits)
  }

  /** Length of the stream in bytes, the header word and one byte included. */
  ghost function CodedLength(minimum: bool, f: seq<word>, ni: nat, nj: nat, nbits: nat): nat
    requires ni > 0
  {
    1 + 4 * (1 + WordsFor(|CodeOf(minimum, f, ni, nj, nbits)|))
  }

  /** The words hold the stream of field f. */
  ghost predicate Packed(z: seq<word>, minimum: bool, f: seq<word>, ni: nat, nj: nat, nbits: nat)
  {
    IsField(minimum, f, ni, nj, nbits) && |z| >= 1 && z[0] == ToWord(HeaderOf(minimum, nbits)) &&
    Holds(z, 1, CodeOf(minimum, f, ni, nj, nbits))
  }

  ghost predicate IsField(minimum: bool, f: seq<word>, ni: nat, nj: nat, nbits: nat)
  {
    M.IsShortField(f, ni, nj, nbits) && ni >= 2 && nj >= 2 && (minimum || (ni >= 16 && nj >= 16))
  }

  /** Either code fits in one word a point, with its header. */
  lemma CodeFits(minimum: bool, f: seq<word>, ni: nat, nj: nat, nbits: nat)
    requires IsField(minimum, f, ni, nj, nbits)
    ensures |CodeOf(minimum, f, ni, nj, nbits)| <= 32 * (ni * nj - 1)
  {
    hide P.FieldCode, M.MinCode, Pow2;
    AtLeast(ni, nj);
    if minimum { M.MinCodeBound(f, ni, nj, nbits); } else { P.FieldCodeBound(P.Coder16, f, ni, nj, nbits); }
  }

  lemma AtLeast(ni: nat, nj: nat)
    requires ni >= 2 && nj >= 2
    ensures ni * nj >= 4
    ensures ni >= 16 && nj >= 16 ==> ni * nj >= 256
  {
  }

  /** `c_fstzip_minimum` */
  method ZipMinimum(zfld: array<word>, us: array<word>, ni: nat, nj: nat, nbits: nat, header: word) returns (zlng: nat)
    requires zfld != us && IsField(true, us[..], ni, nj, nbits) && zfld.Length >= ni * nj
    modifies zfld
    ensures zlng == CodedLength(true, us[..], ni, nj, nbits) && zfld.Length >= 1 && zfld[0] == header
    ensures Stored(zfld[..], 1, CodeOf(true, us[..], ni, nj, nbits))
  {
    hide M.MinCode, Pow2, Stored;
    AtLeast(ni, nj);
    CodeFits(true, us[..], ni, nj, nbits);
    zfld[0] := header;
    assert us[..|us[..]|] == us[..];
    zlng := M.PackTokensMinimum(zfld, 1, us, ni, nj, nbits, us[..]);
    zlng := zlng + 4;
  }

  /** `c_fstzip_parallelogram` */
  method ZipParallelogram(zfld: array<word>, us: array<word>, ni: nat, nj: nat, nbits: nat, header: word)
    returns (zlng: nat)
    requires zfld != us && IsField(false, us[..], ni, nj, nbits) && zfld.Length >= ni * nj
    modifies zfld
    ensures zlng == CodedLength(false, us[..], ni, nj, nbits) && zfld.Length >= 1 && zfld[0] == header
    ensures Stored(zfld[..], 1, CodeOf(false, us[..], ni, nj, nbits))
  {
    hide Size.ErrorsBelow, Size.CodeLimit;
    hide P.FieldCode, Pow2, Stored;
    AtLeast(ni, nj);
    CodeFits(false, us[..], ni, nj, nbits);
    zfld[0] := header;
    zlng := Pack.PackTokens(P.Coder16, zfld, 1, us, ni, nj, nbits, 0);
    zlng := zlng + 4;
  }

  /** `c_fstzip`: the header, then the code of the chosen method. */
  method Zip(zfld: array<word>, us: array<word>, ni: nat, nj: nat, codeMethode: nat, degre: nat, step: nat, nbits: nat)
    returns (zlng: nat)
    requires zfld != us
    requires ((codeMethode == MINIMUM && degre == 0 && step == 5) ||
      (codeMethode == PARALLELOGRAM && degre == 1 && step == 3))
    requires IsField(codeMethode == MINIMUM, us[..], ni, nj, nbits) && zfld.Length >= ni * nj
    modifies zfld
    ensures zlng == CodedLength(codeMethode == MINIMUM, us[..], ni, nj, nbits)
    ensures zfld.Length >= 1 && zfld[0] == ToWord(HeaderOf(codeMethode == MINIMUM, nbits))
    ensures Stored(zfld[..], 1, CodeOf(codeMethode == MINIMUM, us[..], ni, nj, nbits))
  {
    hide CodeOf, Pow2, Stored, ToWord, CodedLength;
    var header := ToWord(Header(codeMethode, degre, step, nbits, 1, 0));
    if codeMethode == MINIMUM {
      zlng := ZipMinimum(zfld, us, ni, nj, nbits, header);
    } else {
      zlng := ZipParallelogram(zfld, us, ni, nj, nbits, header);
    }
  }

  /** `c_fstunzip`: decodes by the method that the header names. */
  method Unzip(us: array<word>, zfld: array<word>, ni: nat, nj: nat, ghost minimum: bool, ghost nbits: nat,
               ghost f: seq<word>)
    requires us != zfld && Packed(zfld[..], minimum, f, ni, nj, nbits) && us.Length >= ni * nj
    modifies us
    ensures us[..ni * nj] == f
  {
    hide P.FieldCode, M.MinCode, Pow2, Holds, ToWord, OfWord;
    HeaderRoundTrip(HeaderOf(minimum, nbits));
    var header := OfWord(zfld[0]);
    if header.predictorType == MINIMUM {
      M.UnpackTokensMinimum(us, zfld, 1, ni, nj, header.nbits, f);
    } else {
      Unpack.UnpackTokens(P.Coder16, us, zfld, 1, ni, nj, header.nbits, f);
    }
  }

  // ----- Fields and their halves -----

  /** Swapping puts the tokens in the order of the memory. */
  lemma ShortsAreTokens(fld: seq<word>, swapped: seq<word>, n: nat, swapStream: int)
    requires (n + 1) / 2 <= |fld| == |swapped|
    requires forall k | 0 <= k < |fld| ::
      swapped[k] == if swapStream == 1 && k < (n + 1) / 2 then Swapped(fld[k]) else fld[k]
    ensures forall k | 0 <= k < n :: ShortIn(swapped, k) == TokenIn(fld, k, swapStream)
    ensures forall k | 0 <= k < n :: ShortIn(fld, k) == TokenIn(swapped, k, swapStream)
  {
    hide Swapped;
    forall k | 0 <= k < n
      ensures ShortIn(swapped, k) == TokenIn(fld, k, swapStream) && ShortIn(fld, k) == TokenIn(swapped, k, swapStream)
    {
      HalvesSwapped(fld[k / 2]);
    }
  }

  lemma HalvesSwapped(w: word)
    ensures Swapped(w) / 0x1_0000 == w % 0x1_0000 && Swapped(w) % 0x1_0000 == w / 0x1_0000
    ensures Swapped(Swapped(w)) == w
  {
  }

  lemma SwappedTwice(before: seq<word>, between: seq<word>, after: seq<word>, limite: nat)
    requires limite <= |before| == |between| == |after|
    requires forall k | 0 <= k < |before| :: between[k] == if k < limite then Swapped(before[k]) else before[k]
    requires forall k | 0 <= k < |before| :: after[k] == if k < limite then Swapped(between[k]) else between[k]
    ensures after == before
  {
    hide Swapped;
    forall k | 0 <= k < |before| ensures after[k] == before[k] {
      HalvesSwapped(before[k]);
    }
  }

  /** Copying a stream of whole words and one byte. */
  method CopyStream(fld: array<word>, zfld: array<word>, zlng: nat, ghost minimum: bool, ghost f: seq<word>,
                    ghost ni: nat, ghost nj: nat, ghost nbits: nat)
    requires fld != zfld && IsField(minimum, f, ni, nj, nbits) && zlng == CodedLength(minimum, f, ni, nj, nbits)
    requires zlng <= 4 * fld.Length && zlng <= 4 * zfld.Length && zfld[0] == ToWord(HeaderOf(minimum, nbits))
    requires Stored(zfld[..], 1, CodeOf(minimum, f, ni, nj, nbits))
    modifies fld
    ensures Packed(fld[..], minimum, f, ni, nj, nbits)
  {
    hide ToWord, CodeOf, Stored;
    CopyBytes(fld, zfld, zlng);
    StoredStill(zfld[..], fld[..], 1, CodeOf(minimum, f, ni, nj, nbits));
  }

  /** The module state. */
  class Compressor {
    var fstcompressionLevel: int
    var swapStream: int

    ghost predicate Valid()
      reads this
    {
      -1 <= fstcompressionLevel <= 1 && 0 <= swapStream <= 1
    }

    constructor ()
      ensures Valid() && fstcompressionLevel == UNSET && swapStream == 1
    {
      fstcompressionLevel := UNSET;
      swapStream := 1;
    }

    /** `c_armn_compress_setlevel` */
    method SetLevel(level: int)
      requires Valid()
      modifies this`fstcompressionLevel
      ensures Valid() && fstcompressionLevel == if level == BEST then BEST else FAST
    {
      fstcompressionLevel := if level == BEST then BEST else if level == FAST then FAST else FAST;
    }

    /** `c_armn_compress_setswap` */
    method SetSwap(swapState: int)
      requires Valid()
      modifies this`swapStream
      ensures Valid() && swapStream == if swapState == 0 || swapState == 1 then swapState else old(swapStream)
    {
      if swapState == 0 || swapState == 1 { swapStream := swapState; }
    }

    function Level(): int
      reads this
    {
      if fstcompressionLevel == UNSET then BEST else fstcompressionLevel
    }

    ghost predicate Compressible(fld: seq<word>, ni: nat, nj: nat, nk: nat, nbits: nat)
      requires ni >= 1 && (ni * nj + 1) / 2 <= |fld|
      reads this
    {
      nbits <= 16 && ni != 1 && nj != 1 &&
      CodedLength(UsesMinimum(Level(), ni, nj, nbits), Tokens(fld, ni * nj, swapStream), ni, nj, nbits) < 1 +
        2 * (ni * nj * nk)
    }

    /** Codes the swapped field in scratch storage of n words, and copies the stream over the
        field when it is shorter than n shorts. */
    method ReplaceByStream(fld: array<word>, ni: nat, nj: nat, n: nat, nbits: nat, ghost f: seq<word>)
      returns (zlng: int)
      requires Valid() && fstcompressionLevel != UNSET && n >= ni * nj && (n + 1) / 2 <= fld.Length
      requires |f| == ni * nj && forall k | 0 <= k < ni * nj :: f[k] == ShortIn(fld[..], k)
      requires IsField(UsesMinimum(fstcompressionLevel, ni, nj, nbits), f, ni, nj, nbits)
      modifies fld
      ensures var minimum := UsesMinimum(fstcompressionLevel, ni, nj, nbits);
        if CodedLength(minimum, f, ni, nj, nbits) < 1 + 2 * n
        then zlng == CodedLength(minimum, f, ni, nj, nbits) && Packed(fld[..], minimum, f, ni, nj, nbits)
        else zlng == -1 && fld[..] == old(fld[..])
    {
      hide Pow2, ToWord, CodedLength, Packed, Stored, ShortIn;
      var us := ShortsOf(fld, ni * nj);
      assert us[..] == f;
      var zfld := new word[n];
      var lng: nat;
      if 0 == fstcompressionLevel || ni < 16 || nj < 16 || nbits <= 4 {
        lng := Zip(zfld, us, ni, nj, MINIMUM, 0, 5, nbits);
      } else {
        lng := Zip(zfld, us, ni, nj, PARALLELOGRAM, 1, 3, nbits);
      }
      if lng >= 1 + n * 16 / 8 { return -1; }
      CopyStream(fld, zfld, lng, UsesMinimum(fstcompressionLevel, ni, nj, nbits), f, ni, nj, nbits);
      zlng := lng;
    }

    /** `armn_compress` with COMPRESS: the length of the stream, or -1 with the field as it
        was. */
    method Compress(fld: array<word>, ni: nat, nj: nat, nk: nat, nbits: nat) returns (zlng: int)
      requires Valid() && ni >= 1 && nj >= 1 && nk >= 1 && nbits >= 1 && (ni * nj * nk + 1) / 2 <= fld.Length
      requires (ni * nj + 1) / 2 <= fld.Length
      requires forall k | 0 <= k < ni * nj :: TokenIn(fld[..], k, swapStream) < Pow2(nbits)
      modifies this`fstcompressionLevel, fld
      ensures Valid() && fstcompressionLevel == old(Level())
      ensures zlng == -1 <==> !old(Compressible(fld[..], ni, nj, nk, nbits))
      ensures zlng == -1 ==> fld[..] == old(fld[..])
      ensures zlng != -1 ==> var minimum, f := UsesMinimum(fstcompressionLevel, ni, nj, nbits),
        Tokens(old(fld[..]), ni * nj, swapStream);
        zlng == CodedLength(minimum, f, ni, nj, nbits) && Packed(fld[..], minimum, f, ni, nj, nbits)
      ensures zlng != -1 ==> nbits <= 16 && zlng <= 2 * (ni * nj * nk)
      ensures zlng != -1 ==> fld.Length >= 1
      ensures zlng != -1 ==>
        OfWord(fld[0]) == if old(fstcompressionLevel) == 0 || ni < 16 || nj < 16 || nbits <= 4
          then Header(3, 0, 5, nbits, 1, 0) else Header(4, 1, 3, nbits, 1, 0)
    {
      hide Pow2, CodedLength, Swapped, Packed, TokenIn;
      if fstcompressionLevel == -1 { fstcompressionLevel := BEST; }
      if nbits > 16 || ni == 1 || nj == 1 { return -1; }
      ghost var f := Tokens(fld[..], ni * nj, swapStream);
      MoreLayers(ni * nj, nk);
      var limite := (1 + ni * nj) / 2;
      if swapStream == 1 { SwapHalves(fld, limite); }
      ghost var swapped := fld[..];
      ShortsAreTokens(old(fld[..]), swapped, ni * nj, swapStream);
      zlng := ReplaceByStream(fld, ni, nj, ni * nj * nk, nbits, f);
      if zlng == -1 && swapStream == 1 {
        SwapHalves(fld, limite);
        SwappedTwice(old(fld[..]), swapped, fld[..], limite);
      }
      if zlng != -1 { MethodInHeader(fld[..], UsesMinimum(fstcompressionLevel, ni, nj, nbits), f, ni, nj, nbits); }
    }

    lemma MoreLayers(n: nat, nk: nat)
      requires nk >= 1
      ensures n * nk >= n
    {
    }

    /** Fields with small errors are compressed: no error needs more than b bits, and with b bits for
        each point the stream would be shorter than the field. */
    lemma SmallErrors(fld: seq<word>, ni: nat, nj: nat, nk: nat, nbits: nat, b: nat)
      requires fstcompressionLevel != FAST && ni >= 16 && nj >= 16 && 5 <= nbits <= 16 && (ni * nj + 1) / 2 <= |fld|
      requires forall k | 0 <= k < ni * nj :: TokenIn(fld, k, swapStream) < Pow2(nbits)
      requires Size.ErrorsBelow(Tokens(fld, ni * nj, swapStream), ni, b)
      requires 4 + 4 * WordsFor(Size.CodeLimit(P.Coder16, ni, nj, nbits, b)) < 2 * (ni * nj * nk)
      ensures Compressible(fld, ni, nj, nk, nbits)
    {
      hide Pow2, TokenIn, P.FieldCode, Size.ErrorsBelow, Size.CodeLimit;
      Size.FieldLength(P.Coder16, Tokens(fld, ni * nj, swapStream), ni, nj, nbits, b);
    }

    /** So are fields whose tokens are sums of one number for their column and one for their row. */
    lemma SumsCompressed(fld: seq<word>, ni: nat, nj: nat, nk: nat, nbits: nat)
      requires fstcompressionLevel != FAST && ni >= 16 && nj >= 16 && nk >= 1 && 5 <= nbits <= 16
      requires (ni * nj + 1) / 2 <= |fld|
      requires forall k | 0 <= k < ni * nj :: TokenIn(fld, k, swapStream) < Pow2(nbits)
      requires Layout.IsSum(Tokens(fld, ni * nj, swapStream), ni, nj)
      ensures Compressible(fld, ni, nj, nk, nbits)
    {
      hide Pow2, TokenIn, P.FieldCode, Layout.IsSum;
      var f := Tokens(fld, ni * nj, swapStream);
      MoreLayers(ni * nj, nk);
      Layout.SumLength(P.Coder16, f, ni, nj, nbits);
      BorderIsShort(ni, nj, nbits);
    }

    /** `armn_compress` with UNCOMPRESS.  The number of bits of the tokens is in the header;
        the argument only tells whether the field was compressed at all.  With an even number of
        points one word more than the field is written, from the scratch storage as it was given
        by the system. */
    method Uncompress(fld: array<word>, ni: nat, nj: nat, nk: nat, nbits: nat, junk: word, ghost minimum: bool,
                      ghost zbits: nat, ghost f: seq<word>)
      returns (lng: nat)
      requires Valid() && 1 + ni * nj / 2 <= fld.Length
      requires nbits <= 16 && ni != 1 && nj != 1 ==> Packed(fld[..], minimum, f, ni, nj, zbits)
      modifies this`fstcompressionLevel, fld
      ensures Valid() && fstcompressionLevel == old(Level())
      ensures if nbits <= 16 && ni != 1 && nj != 1 then lng == 2 * (ni * nj) &&
        Tokens(fld[..], ni * nj, swapStream) == f
        else lng == 1 + ni * nj * nk * nbits / 8 && fld[..] == old(fld[..])
      ensures forall k | 1 + ni * nj / 2 <= k < fld.Length :: fld[k] == old(fld[k])
      ensures nbits <= 16 && ni != 1 && nj != 1 && ni * nj % 2 == 0 ==> fld[ni * nj / 2] == junk
    {
      hide Pow2, Swapped, TokenIn, Packed;
      if fstcompressionLevel == -1 { fstcompressionLevel := BEST; }
      if nbits > 16 || ni == 1 || nj == 1 { return 1 + ni * nj * nk * nbits / 8; }
      UncompressField(fld, ni, nj, ni * nj, junk, minimum, zbits, f);
      lng := ni * nj * 2;
    }

    /** Decodes into scratch storage, copies the shorts back and swaps them. */
    method UncompressField(fld: array<word>, ni: nat, nj: nat, npts: nat, junk: word, ghost minimum: bool,
                           ghost zbits: nat, ghost f: seq<word>)
      requires Valid() && npts == ni * nj && 1 + npts / 2 <= fld.Length && Packed(fld[..], minimum, f, ni, nj, zbits)
      modifies fld
      ensures Tokens(fld[..], npts, swapStream) == f
      ensures forall k | 1 + npts / 2 <= k < fld.Length :: fld[k] == old(fld[k])
      ensures npts % 2 == 0 ==> fld[npts / 2] == junk
    {
      hide Pow2, Swapped, TokenIn, Packed, ShortIn;
      PackedTokens(fld[..], minimum, f, ni, nj, zbits);
      var unzfld := new word[npts];
      Unzip(unzfld, fld, ni, nj, minimum, zbits, f);
      CopyShorts(fld, unzfld, 1 + npts / 2, junk);
      ghost var shorts := fld[..];
      assert forall k | 0 <= k < npts :: unzfld[k] == unzfld[..npts][k];
      if swapStream == 1 { SwapHalves(fld, (1 + npts) / 2); }
      ShortsAreTokens(shorts, fld[..], npts, swapStream);
    }

    /** Whichever coder is chosen, and whether or not the field can be compressed, the tokens of
        its first layer are found again; the whole field is when it has one layer or is not
        compressed, and otherwise the word after an even layer is lost. */
    method RoundTrip(fld: array<word>, ni: nat, nj: nat, nk: nat, nbits: nat, junk: word) returns (zlng: int)
      requires Valid() && ni >= 1 && nj >= 1 && nk >= 1 && nbits >= 1 && 1 + ni * nj * nk / 2 <= fld.Length
      requires 1 + ni * nj / 2 <= fld.Length
      requires forall k | 0 <= k < ni * nj :: TokenIn(fld[..], k, swapStream) < Pow2(nbits)
      modifies this`fstcompressionLevel, fld
      ensures Tokens(fld[..], ni * nj, swapStream) == old(Tokens(fld[..], ni * nj, swapStream))
      ensures nk == 1 || zlng == -1 ==>
        Tokens(fld[..], ni * nj * nk, swapStream) == old(Tokens(fld[..], ni * nj * nk, swapStream))
      ensures zlng != -1 && ni * nj % 2 == 0 ==> fld[ni * nj / 2] == junk
      ensures zlng == -1 <==> !old(Compressible(fld[..], ni, nj, nk, nbits))
    {
      hide Pow2, Packed, TokenIn, CodedLength;
      ghost var f := Tokens(fld[..], ni * nj, swapStream);
      zlng := Compress(fld, ni, nj, nk, nbits);
      if zlng != -1 {
        var lng := Uncompress(fld, ni, nj, nk, nbits, junk, UsesMinimum(fstcompressionLevel, ni, nj, nbits), nbits, f);
      }
    }

    /** Tokens of at most 4 bits are always compressed, but for fields of 16 points or less. */
    lemma NarrowTokens(fld: seq<word>, ni: nat, nj: nat, nk: nat, nbits: nat)
      requires ni >= 2 && nj >= 2 && nk >= 1 && 1 <= nbits <= 4 && ni * nj > 16 && (ni * nj + 1) / 2 <= |fld|
      requires forall k | 0 <= k < ni * nj :: TokenIn(fld, k, swapStream) < Pow2(nbits)
      ensures Compressible(fld, ni, nj, nk, nbits)
    {
      hide Pow2, TokenIn, M.MinCode;
      var f := Tokens(fld, ni * nj, swapStream);
      M.MinCodeBound(f, ni, nj, nbits);
      AtMost12(|M.MinCode(f, ni, nj, nbits)|, ni * nj, M.MostBits(nbits));
      MoreLayers(ni * nj, nk);
    }
  }

  lemma BorderIsShort(ni: nat, nj: nat, nbits: nat)
    requires ni >= 16 && nj >= 16 && nbits <= 16
    ensures 3 + Size.Times(ni + nj - 1, nbits) + Size.Times(Size.Times((ni + 1) / 3, (nj + 1) / 3), 4) <=
      8 * (ni * nj)
  {
    hide Size.Times;
    TimesSwapped(ni + nj - 1, nbits);
    SidesAreLess(ni, nj);
    QuarterOfField((ni + 1) / 3, (nj + 1) / 3, ni, nj);
  }

  lemma TimesSwapped(a: nat, b: nat)
    requires b <= 16
    ensures Size.Times(a, b) <= 16 * a
  {
    MulAtMost(b, 16, a);
  }

  lemma SidesAreLess(ni: nat, nj: nat)
    requires ni >= 16 && nj >= 16
    ensures 16 * (ni + nj) <= 2 * (ni * nj)
  {
    MulAtMost(16, ni, nj);
    MulAtMost(16, nj, ni);
  }

  lemma QuarterOfField(a: nat, b: nat, ni: nat, nj: nat)
    requires 2 * a <= ni && 2 * b <= nj
    ensures Size.Times(Size.Times(a, b), 4) <= ni * nj
  {
    MulAtMost(2 * a, ni, 2 * b);
    MulAtMost(2 * b, nj, ni);
    DoubleSides(a, b);
  }

  lemma DoubleSides(a: nat, b: nat)
    ensures 2 * a * (2 * b) == Size.Times(Size.Times(a, b), 4)
  {
  }

  lemma MethodInHeader(z: seq<word>, minimum: bool, f: seq<word>, ni: nat, nj: nat, nbits: nat)
    requires Packed(z, minimum, f, ni, nj, nbits)
    ensures |z| >= 1
    ensures OfWord(z[0]) == if minimum then Header(3, 0, 5, nbits, 1, 0) else Header(4, 1, 3, nbits, 1, 0)
  {
    hide ToWord, OfWord, Pow2, CodeOf, Holds;
    HeaderRoundTrip(HeaderOf(minimum, nbits));
  }

  lemma AtMost12(bits: nat, npts: nat, most: nat)
    requires bits <= most * npts && most <= 12 && npts > 16
    ensures 1 + 4 * (1 + WordsFor(bits)) < 1 + 2 * npts
  {
    MulAtMost(most, 12, npts);
  }

  /** A field of 16 by 16 points: whatever the word after it was, it is overwritten. */
  method WordAfterField(after: word, junk: word) returns (fld: array<word>, zlng: int)
    ensures fld.Length == 129 && zlng != -1 && fld[128] == junk
    ensures forall k | 0 <= k < 256 :: TokenIn(fld[..], k, 1) == 0
  {
    hide Pow2, Tokens, TokenIn, Compressor.Compressible;
    fld := ZeroField(after);
    OneBit();
    var c := new Compressor();
    ghost var f := Tokens(fld[..], 256, 1);
    var ni, nj := 16, 16;
    c.NarrowTokens(fld[..], ni, nj, 1, 1);
    zlng := c.RoundTrip(fld, ni, nj, 1, 1, junk);
    assert forall k | 0 <= k < 256 :: TokenIn(fld[..], k, 1) == Tokens(fld[..], 256, 1)[k] == f[k];
  }

  method ZeroField(after: word) returns (fld: array<word>)
    ensures fresh(fld) && fld.Length == 129 && fld[128] == after
    ensures forall k | 0 <= k < 256 :: TokenIn(fld[..], k, 1) == 0
  {
    fld := new word[129](k => if k == 128 then after else 0);
  }

  lemma OneBit()
    ensures Pow2(1) == 2
  {
  }

  lemma PackedTokens(z: seq<word>, minimum: bool, f: seq<word>, ni: nat, nj: nat, nbits: nat)
    requires Packed(z, minimum, f, ni, nj, nbits)
    ensures |f| == ni * nj >= 4 && forall k | 0 <= k < |f| :: f[k] < 0x1_0000
  {
    AtLeast(ni, nj);
    forall k | 0 <= k < |f| ensures f[k] < 0x1_0000 {
      M.ShortToken(f, ni, nj, nbits, k);
    }
  }
}
