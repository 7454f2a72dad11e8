/** A report whose buffer is full: what a replacement or an addition leaves when the dimension
    check refuses its words. */
module BurpFull {
  import opened Words
  import opened BitStream
  import opened BurpFormat
  import opened BurpLayout
  import opened BurpSteps
  import opened BurpReport
  import opened RecordBuffer
  import C = CompactInteger

  /** The header of a block after a replacement that was refused. */
  ghost function LeftHeader(blocks: seq<Block>, k: nat, width: nat, i: nat): BlockHeader
    requires k < |blocks| && i < |blocks| && |blocks[i].first3| == 3 && 1 <= width <= 32
    requires 0 <= Growth(blocks[k], width)
  {
    var h := HeaderOf(blocks[i], Bit0(blocks, i));
    if i < k then h else if i == k then h.(nbit := width - 1) else h.(bit0 := h.bit0 + Growth(blocks[k], width) / 2)
  }

  /** What the headers say after a replacement that was refused: those after the block say
      that they start later, */
  lemma HeadersLeft(blocks: seq<Block>, k: nat, width: nat, i: nat)
    requires k < |blocks| && i < |blocks| && 1 <= width <= 32 && AllFit(blocks)
    requires 0 <= Growth(blocks[k], width) && |Bodies(blocks)| + Growth(blocks[k], width) < 0x20_0000
    ensures 4 * i + 4 <= |WidenedWords(blocks, k, width)| && |blocks[i].first3| == 3
    ensures OfWords(WidenedWords(blocks, k, width)[4 * i..4 * i + 4]) == LeftHeader(blocks, k, width, i)
  {
    hide AllFit, Bodies, Bit0, BlockFits, HeaderOf, HeaderFits, HeaderWordsAt, ToWords, OfWords, Shifted, SetWidth;
    hide Growth, WidenedWords, WithWord;
    HeaderPart(blocks, k, width, i);
    HeaderAt(blocks, i);
    if i == k {
      SaysWidth(HeaderOf(blocks[i], Bit0(blocks, i)), width);
    } else if i > k {
      Bit0Bound(blocks, i);
      OffsetIs(blocks[i], Bit0(blocks, i));
      SaysLater(HeaderOf(blocks[i], Bit0(blocks, i)), Growth(blocks[k], width) / 2);
    }
  }

  lemma SaysWidth(h: BlockHeader, width: nat)
    requires HeaderFits(h) && 1 <= width <= 32
    ensures OfWords(WithWord(ToWords(h), 0, SetWidth(ToWords(h)[0], width - 1))) == h.(nbit := width - 1)
  {
    hide ToWords, OfWords, SetWidth;
    NewWidth(h, width - 1);
    HeaderReadBack(h.(nbit := width - 1));
  }

  lemma SaysLater(h: BlockHeader, d: nat)
    requires HeaderFits(h) && h.bit0 + d < 0x10_0000
    ensures OfWords(Shifted(ToWords(h), d)) == h.(bit0 := h.bit0 + d)
  {
    hide ToWords, OfWords, Shifted;
    ShiftedHeader(h, d);
    HeaderReadBack(h.(bit0 := h.bit0 + d));
  }

  /** The words of one header. */
  lemma HeaderPart(blocks: seq<Block>, k: nat, width: nat, i: nat)
    requires k < |blocks| && i < |blocks| && 1 <= width <= 32
    ensures 4 * i + 4 <= |WidenedWords(blocks, k, width)|
    ensures WidenedWords(blocks, k, width)[4 * i..4 * i + 4] == if i < k then HeaderWordsAt(blocks, i)
      else if i == k then WithWord(HeaderWordsAt(blocks, k), 0, SetWidth(HeaderWordsAt(blocks, k)[0], width - 1))
      else Shifted(HeaderWordsAt(blocks, i), Growth(blocks[k], width) / 2)
  {
    hide Bodies, HeaderWordsAt, Shifted, SetWidth, Growth, Flatten;
    var hs := ShiftFrom(WideHeaders(blocks, k, width), k + 1, Growth(blocks[k], width) / 2);
    WideSize(blocks, k, width, Growth(blocks[k], width) / 2);
    FlattenPart(hs, i, DIMENT, 4 * i);
    SliceOfConcat(Flatten(hs), Bodies(blocks), 4 * i, 4);
  }

  lemma StillFits(h: BlockHeader, nbit: nat)
    requires HeaderFits(h) && nbit < 32
    ensures HeaderFits(h.(nbit := nbit))
  {
  }

  /** but every body is where it was, */
  lemma BodiesLeft(blocks: seq<Block>, k: nat, width: nat, i: nat)
    requires k < |blocks| && i < |blocks| && 1 <= width <= 32 && AllFit(blocks)
    ensures var w, at := WidenedWords(blocks, k, width), 4 * |blocks| + 2 * Bit0(blocks, i);
      at + |blocks[i].body| <= |w| && w[at..at + |blocks[i].body|] == blocks[i].body
  {
    hide AllFit, Bodies, BlockFits, Headers, Flatten, WideHeaders, ShiftFrom, Growth, Bit0;
    WideSize(blocks, k, width, Growth(blocks[k], width) / 2);
    HeadersSize(blocks);
    BodyIn(blocks, i);
    var h, h', c := Flatten(ShiftFrom(WideHeaders(blocks, k, width), k + 1, Growth(blocks[k], width) / 2)),
      Flatten(Headers(blocks)), Bodies(blocks);
    var at, n := 2 * Bit0(blocks, i), |blocks[i].body|;
    SameTail(h, h', c, at, n);
  }

  lemma SameTail(h: seq<word>, h': seq<word>, c: seq<word>, at: nat, n: nat)
    requires |h| == |h'| && at + n <= |c|
    ensures (h + c)[|h| + at..|h| + at + n] == (h' + c)[|h| + at..|h| + at + n]
  {
  }

  /** the new values go on for as many words as were refused into the body of the next block, */
  lemma IntoTheNext(blocks: seq<Block>, k: nat, width: nat)
    requires k + 1 < |blocks| && AllFit(blocks)
    ensures ValuesWord(blocks, k) + PackedWords(|blocks[k].values|, width)
         == DATA_INDEX + 4 * |blocks| + 2 * Bit0(blocks, k + 1) + Growth(blocks[k], width)
  {
    hide AllFit, Bodies, BlockFits, Bit0, Words64, ListWords;
    BlockOf(blocks, k);
    BodySize(blocks[k]);
    BodyEven(blocks[k]);
    NextStart(blocks, k);
  }

  /** and the last block would end past the data. */
  lemma LastEndsOutside(blocks: seq<Block>, k: nat, width: nat, last: nat, length: nat)
    requires k + 1 < |blocks| && AllFit(blocks) && last == DATA_INDEX + 4 * |blocks| + |Bodies(blocks)|
    requires DimError(last, Growth(blocks[k], width), length + HEAD_WORDS)
    ensures var n := |blocks| - 1;
      DATA_INDEX + 4 * |blocks| + 2 * Bit0(blocks, n) + Growth(blocks[k], width) + |blocks[n].body| > length
  {
    hide AllFit, Bodies, BlockFits, Bit0, Growth;
    LastBody(blocks);
  }

  /** After an addition whose values were refused the headers are as they were, but each body
      is four words after the place where it is looked for. */
  lemma BodiesPushed(blocks: seq<Block>, w: seq<word>, n: nat, i: nat)
    requires AllFit(blocks) && i < |blocks| && Pushed(Contents(blocks), w, 4 * |blocks|, n)
    ensures 4 * i + 4 <= |w| && w[4 * i..4 * i + 4] == HeaderWordsAt(blocks, i)
    ensures var at := 4 * |blocks| + 2 * Bit0(blocks, i) + 4;
      at + |blocks[i].body| <= |w| && w[at..at + |blocks[i].body|] == blocks[i].body
  {
    hide AllFit, Bodies, BlockFits, Bit0, HeaderWordsAt, Contents;
    HeadersSize(blocks);
    HeaderIn(blocks, i);
    BodyIn(blocks, i);
    var u, at, m := Contents(blocks), 4 * |blocks| + 2 * Bit0(blocks, i), |blocks[i].body|;
    PushedPart(u, w, 4 * |blocks|, n, at, m);
    assert u[..4 * |blocks|][4 * i..4 * i + 4] == w[..4 * |blocks|][4 * i..4 * i + 4];
  }

  lemma PushedPart(u: seq<word>, w: seq<word>, at: nat, n: nat, from: nat, m: nat)
    requires Pushed(u, w, at, n) && at <= from && from + m <= |u|
    ensures w[from + 4..from + 4 + m] == u[from..from + m]
  {
    forall j | from <= j < from + m ensures w[j + 4] == u[j] {
      assert w[at + 4..|u| + 4][j - at] == u[at..][j - at];
    }
  }

  // ----- Two reports -----

  predicate AllAre(values: seq<word>, n: nat, v: word)
  {
    |values| == n && forall k | 0 <= k < n :: values[k] == v
  }

  lemma WidthOfSame(values: seq<word>, n: nat, v: word, inbits: nat)
    requires n > 0 && AllAre(values, n, v) && inbits <= 32 && v < 0x8000_0000
    ensures Largest(values) == v && Unsigned(values, inbits) && (inbits == 32 ==> Width(values, inbits) == 32)
    ensures v == 0 && inbits == 1 ==> Width(values, inbits) == 1
    ensures v == 0x7FFF_FFFF ==> Width(values, inbits) == 32
  {
    hide Largest;
    Pow2Values();
    if v == 0x7FFF_FFFF { NeededOfLargest(); }
    if v == 0 { assert Needed(0) == 1; }
  }

  lemma NeededOfLargest()
    ensures Needed(0x7FFF_FFFF) == 32
  {
    hide Pow2;
    NeededLeavesRoom(0x7FFF_FFFF);
    Pow2Values();
    if Needed(0x7FFF_FFFF) <= 31 { Pow2Monotonic(Needed(0x7FFF_FFFF), 31); }
  }

  lemma SmallSizes()
    ensures ListSize(1, 32, 1) == 0 && PackedWords(32, 1) == 2 && PackedWords(32, 32) == 32
    ensures BodyWords(1, 32, 1, 1) == 2 && BodyWords(1, 32, 1, 32) == 32
  {
  }

  predicate IsSmall(b: Block)
  {
    b.nele == 1 && b.nval == 32 && b.nt == 1
  }

  /** The words of a block of one element and 32 values. */
  lemma SmallBlock(b: Block)
    requires BlockFits(b) && IsSmall(b)
    ensures ListWords(b) == 0 && |b.values| == 32 && |b.body| == PackedWords(32, b.nbit)
  {
    hide Encodable, Stored;
  }

  /** One such block more. */
  method AddSmall(report: Report, nbit: nat, zeros: seq<word>)
    requires report.Valid() && nbit in {1, 32} && AllAre(zeros, 32, 0) && |Bodies(report.blocks)| < 0x1000
    requires report.buffer.Last() + 4 + PackedWords(32, nbit) <= report.buffer.data.Length
    modifies report, report.buffer, report.buffer.data
    ensures report.Valid() && |report.blocks| == old(|report.blocks|) + 1
    ensures report.blocks[..|report.blocks| - 1] == old(report.blocks)
    ensures var b := report.blocks[|report.blocks| - 1]; IsSmall(b) && b.nbit == nbit && b.values == zeros
    ensures |Bodies(report.blocks)| == old(|Bodies(report.blocks)|) + PackedWords(32, nbit)
    ensures report.buffer.Last() == old(report.buffer.Last()) + 4 + PackedWords(32, nbit)
  {
    hide AllFit, Bodies, Bit0, BlockFits, Contents, Width, Unsigned, HasWidth, Words64, ListSize, PackedWords;
    hide BodyWords, MayWrite, RoomForHeader;
    hide DimError, AllAre, Arguments, First3, Pushed, Family, WordsOf, InPairs;
    ghost var before, n := report.blocks, |report.blocks|;
    var lstele: seq<word> := [0, 0, 0];
    HeadersSize(before);
    SmallFits(zeros, lstele, nbit, report.buffer.Last(), DATA_INDEX + 4 * n, report.buffer.data.Length);
    var err, bkno, bit0 := report.Add(1, 32, 1, 0, 0, 0, nbit, lstele, zeros);
    ghost var b := report.blocks[n];
    OneMoreBody(report.blocks, before, b);
    SmallBlock(b);
    HeadersSize(report.blocks);
  }

  lemma SmallFits(zeros: seq<word>, lstele: seq<word>, nbit: nat, last: nat, at: nat, length: nat)
    requires AllAre(zeros, 32, 0) && |lstele| == 3 && nbit in {1, 32} && last + 4 + PackedWords(32, nbit) <= length
    ensures zeros != [] && |zeros| == 32 && Arguments(1, 32, 1, lstele, zeros) && Unsigned(zeros, nbit)
    ensures HasWidth(zeros, nbit)
    ensures Width(zeros, nbit) == nbit && RoomForHeader(last + ListSize(1, 32, 1), at, length)
    ensures MayWrite(last + ListSize(1, 32, 1) + 4, PackedWords(32, nbit), length) && BodyWords(1, 32, 1, nbit) <= 32
    ensures !DimError(last + ListSize(1, 32, 1) + 4, PackedWords(32, nbit), length + HEAD_WORDS)
  {
    hide Width, Unsigned, Largest, ListSize, PackedWords, BodyWords;
    SmallSizes();
    WidthOfSame(zeros, 32, 0, nbit);
  }

  lemma OneMoreBody(after: seq<Block>, blocks: seq<Block>, b: Block)
    requires after != [] && AllFit(after) && after[..|after| - 1] == blocks && after[|after| - 1] == b
    ensures BlockFits(b) && |Bodies(after)| == |Bodies(blocks)| + |b.body|
  {
    hide Bodies, BlockFits;
    assert after == blocks + [b];
    BodiesConcat(blocks, [b]);
    BodiesOne(b);
  }

  /** Two blocks of zeros, the first on one bit and the second on 32, in a buffer that they fill. */
  ghost predicate TwoBlocks(blocks: seq<Block>)
  {
    |blocks| == 2 && IsSmall(blocks[0]) && blocks[0].nbit == 1 && AllAre(blocks[0].values, 32, 0) &&
    IsSmall(blocks[1]) && blocks[1].nbit == 32 && AllAre(blocks[1].values, 32, 0) && |Bodies(blocks)| == 34
  }

  lemma Nothing(report: Report)
    requires report.Valid() && report.blocks == []
    ensures report.buffer.Last() == DATA_INDEX && |Bodies(report.blocks)| == 0
  {
    hide Bodies;
    NoBodies();
    HeadersSize([]);
  }

  method FullReport() returns (report: Report)
    ensures fresh(report) && fresh(report.buffer) && fresh(report.buffer.data)
    ensures report.Valid() && TwoBlocks(report.blocks) && report.buffer.Last() == report.buffer.data.Length == 52
  {
    hide AllFit, BlockFits, Contents, Bodies, PackedWords, ListSize, BodyWords, IsSmall;
    report := new Report(52);
    var zeros := Zeros32();
    SmallSizes();
    Nothing(report);
    AddSmall(report, 1, zeros);
    ghost var one := report.blocks;
    AddSmall(report, 32, zeros);
    assert report.blocks[..1] == one;
    assert report.blocks[0] == one[0];
  }

  /** Places and sizes in that report. */
  lemma FullPlaces(blocks: seq<Block>, large: seq<word>)
    requires AllFit(blocks) && TwoBlocks(blocks) && AllAre(large, 32, 0x7FFF_FFFF)
    ensures Width(large, 1) == 32 && Unsigned(large, 1) && Growth(blocks[0], 32) == 30 && ValuesWord(blocks, 0) == 18
    ensures Bit0(blocks, 1) == 1 && |blocks[1].body| == 32 && AllAre(blocks[1].body, 32, 0)
  {
    hide AllFit, BlockFits, Width, Unsigned, Bit0, PackedWords, ListWords, ListSize, BodyWords;
    SmallSizes();
    WidthOfSame(large, 32, 0x7FFF_FFFF, 1);
    BlockOf(blocks, 0);
    BlockOf(blocks, 1);
    SmallBlock(blocks[0]);
    SmallBlock(blocks[1]);
    FirstStart(blocks);
    NextStart(blocks, 0);
    ZeroBody(blocks[1]);
  }

  lemma FirstStart(blocks: seq<Block>)
    ensures Bit0(blocks, 0) == 0
  {
    hide Bodies;
    assert blocks[..0] == [];
    NoBodies();
  }

  lemma ZeroBody(b: Block)
    requires BlockFits(b) && IsSmall(b) && b.nbit == 32 && AllAre(b.values, 32, 0)
    ensures b.body == b.values
  {
    hide Encodable, Stored, C.PackedBits;
    SmallBlock(b);
    SmallSizes();
    C.WholeWordsAre(b.body, b.values);
  }

  /** The values of the first block may be replaced, but the words that come in are refused. */
  lemma FirstRefused(report: Report, large: seq<word>)
    requires report.Valid() && TwoBlocks(report.blocks) && report.buffer.Last() == report.buffer.data.Length == 52
    requires AllAre(large, 32, 0x7FFF_FFFF)
    ensures |report.blocks| == 2 && large != [] && report.Replaceable(0, large) && report.Refused(0, large)
  {
    hide AllFit, BlockFits, Bodies, Contents, Width, Unsigned, Growth, PackedWords, ValuesWord, ListSize, BodyWords;
    FullPlaces(report.blocks, large);
    SmallSizes();
  }

  /** What is then found in the words of the report. */
  lemma SecondLost(report: Report, large: seq<word>, err: int)
    requires AllFit(report.blocks) && TwoBlocks(report.blocks) && report.buffer.data.Length == 52
    requires AllAre(large, 32, 0x7FFF_FFFF) && large != [] && report.HalfReplaced(0, large, err)
    ensures err == 0 && report.buffer.Valid() && |report.buffer.Used()| == 42
    ensures AllAre(report.buffer.Used()[10..40], 30, 0x7FFF_FFFF) && OfWords(report.buffer.Used()[4..8]).bit0 == 16
  {
    hide AllFit, BlockFits, Bodies, Bit0, Width, Unsigned, Growth, PackedWords, ValuesWord, Stored, C.PackedBits;
    hide OfWords, WidenedWords;
    hide ListSize, BodyWords, HeaderOf;
    FullPlaces(report.blocks, large);
    SmallSizes();
    ghost var w := WidenedWords(report.blocks, 0, 32);
    LeftSize(report.blocks, 0, 32);
    C.WholeWordsAre(report.buffer.data[18..50], large);
    HeadersLeft(report.blocks, 0, 32, 1);
    OffsetIs(report.blocks[1], 1);
    assert report.buffer.Used()[4..8] == w[4..8];
    assert forall j | 0 <= j < 30 :: report.buffer.Used()[10..40][j] == report.buffer.data[18..50][j + 2];
  }

  lemma LeftSize(blocks: seq<Block>, k: nat, width: nat)
    requires k < |blocks| && 1 <= width <= 32
    ensures |WidenedWords(blocks, k, width)| == 4 * |blocks| + |Bodies(blocks)|
  {
    hide Bodies, Growth, Flatten, WideHeaders;
    WideSize(blocks, k, width, Growth(blocks[k], width) / 2);
  }

  /** Replacing the first block by values of 32 bits returns 0, and its values are over those of
      the second block, whose header says now that it starts 30 words later. */
  method SilentLoss() returns (report: Report, err: int)
    ensures fresh(report) && err == 0 && TwoBlocks(report.blocks) && !report.Valid() && report.buffer.Valid()
    ensures AllFit(report.blocks) && Bit0(report.blocks, 1) == 1 && AllAre(report.blocks[1].body, 32, 0)
    ensures |report.buffer.Used()| == 42 && AllAre(report.buffer.Used()[10..40], 30, 0x7FFF_FFFF)
    ensures OfWords(report.buffer.Used()[4..8]).bit0 == 16 && DATA_INDEX + 8 + 2 * 16 + 32 > report.buffer.data.Length
  {
    hide AllFit, BlockFits, Bodies, Bit0, Contents, OfWords, Width, WordsOf, InPairs, TwoBlocks, AllAre;
    report := FullReport();
    var large := Large();
    FullPlaces(report.blocks, large);
    FirstRefused(report, large);
    err := report.Rep(1, large);
    SecondLost(report, large, err);
    NotTheReport(report);
  }

  method Large() returns (large: seq<word>)
    ensures AllAre(large, 32, 0x7FFF_FFFF) && large != []
  {
    large := seq(32, _ => 0x7FFF_FFFF);
  }

  lemma NotTheReport(report: Report)
    requires TwoBlocks(report.blocks) && AllFit(report.blocks) && report.buffer.Valid() && |report.buffer.Used()| == 42
    requires OfWords(report.buffer.Used()[4..8]).bit0 == 16 && Bit0(report.blocks, 1) == 1
    ensures !report.Valid()
  {
    hide AllFit, BlockFits, Bodies, Bit0, Contents, OfWords, HeaderWordsAt;
    if report.Valid() {
      HeaderIn(report.blocks, 1);
      HeaderTells(report.blocks, 1, report.buffer.Used()[4..8]);
      OffsetIs(report.blocks[1], 1);
    }
  }

  lemma TooLarge(zeros: seq<word>, lstele: seq<word>)
    requires AllAre(zeros, 32, 0) && |lstele| == 3
    ensures zeros != [] && |zeros| == 32 && Arguments(1, 32, 1, lstele, zeros) && Unsigned(zeros, 32)
    ensures Width(zeros, 32) == 32 && ListSize(1, 32, 1) == 0 && PackedWords(32, 32) == 32
    ensures BodyWords(1, 32, 1, 32) == 32
  {
    hide Width, Unsigned, Largest, ListSize, PackedWords, BodyWords;
    SmallSizes();
    WidthOfSame(zeros, 32, 0, 32);
  }

  /** Adding a block whose values are refused leaves a header that no block has. */
  method HeaderOnly() returns (report: Report, err: int)
    ensures fresh(report) && err == ERR_BAD_DIM && report.blocks == [] && report.buf8 == 0
    ensures report.buffer.Valid() && |report.buffer.Used()| == 4 && !report.Valid()
  {
    hide AllFit, Bodies, Bit0, BlockFits, Contents, Width, Unsigned, HasWidth, ListSize, PackedWords, BodyWords;
    hide AllAre, Arguments, First3, Family;
    report := new Report(20);
    var lstele: seq<word>, zeros: seq<word> := [0, 0, 0], Zeros32();
    Nothing(report);
    TooLarge(zeros, lstele);
    var bkno, bit0;
    err, bkno, bit0 := report.Add(1, 32, 1, 0, 0, 0, 32, lstele, zeros);
  }

  function Zeros32(): (zeros: seq<word>)
    ensures AllAre(zeros, 32, 0)
  {
    seq(32, _ => 0)
  }
}
