/** A report in a buffer: blocks are added, deleted, replaced and read back. */
module BurpReport {
  import opened Words
  import opened BitStream
  import opened BurpFormat
  import opened BurpLayout
  import opened BurpList
  import opened BurpSteps
  import opened RecordBuffer
  import C = CompactInteger

  // ----- The block that a call describes -----

  function Family(bfam: nat, bdesc: nat): nat
  {
    if bdesc != 0 then bfam % 64 * 64 + bdesc % 64 else SwapHalves(bfam)
  }

  /** The block descriptor only repeats the high half of the family. */
  predicate DescriptorAgrees(bfam: nat, bdesc: nat)
  {
    bdesc == 0 || bfam / 64 % 64 == 0 || bfam / 64 % 64 == bdesc
  }

  lemma FamilyIsSmall(bfam: nat, bdesc: nat)
    ensures Family(bfam, bdesc) < 0x1000
  {
    hide SwapHalves;
    FamilyReadBack(bfam);
  }

  ghost function First3(lstele: seq<word>): (f: seq<word>)
    ensures |f| == 3
  {
    seq(3, k requires 0 <= k < 3 => if k < |lstele| then lstele[k] % 0x1_0000 else 0)
  }

  ghost function NewBlock(family: nat, btyp: nat, nele: nat, nval: nat, nt: nat, nbit: nat, lstele: seq<word>,
                          tblval: seq<word>,
                          body: seq<word>): Block
    requires nele <= |lstele|
  {
    Block(family, btyp % 0x8000, nele, nval, nt, nbit, Elements(lstele, 0, nele), First3(lstele), tblval, body)
  }

  /** The family that is stored: of the one given the six low bits, then those of the descriptor if there is
      one, or else the six high ones. */
  lemma FamilyGiven(bfam: nat, bdesc: nat)
    ensures Bits(Family(bfam, bdesc), 12) == Bits(bfam, 6) + Bits(if bdesc != 0 then bdesc else bfam / 64, 6)
  {
    hide Bits, Shr;
    assert Pow2(6) == 64;
    var last := if bdesc != 0 then bdesc else bfam / 64;
    assert Family(bfam, bdesc) == last % 64 + 64 * (bfam % 64);
    hide Family, SwapHalves;
    SixBits(bfam % 64, last % 64, bfam, 64);
    SixBits(0, 0, last, 64);
  }

  /** What a new block is, from what its caller gave. */
  lemma AsGiven(family: nat, btyp: nat, nele: nat, nval: nat, nt: nat, nbit: nat, lstele: seq<word>,
                tblval: seq<word>, body: seq<word>)
    requires nele <= |lstele|
    ensures var b := NewBlock(family, btyp, nele, nval, nt, nbit, lstele, tblval, body);
      b.bfamdesc == family && b.btyp == btyp % 0x8000 && b.nele == nele && b.nval == nval && b.nt == nt &&
      b.nbit == nbit && b.values == tblval && |b.elems| == nele &&
      forall k | 0 <= k < nele :: b.elems[k] == lstele[k] % 0x1_0000
  {
  }

  /** Number of elements already in the header. */
  function Done(nele: nat, nval: nat, nt: nat): nat
  {
    if Big(nele, nval, nt) then 0 else 3
  }

  lemma ListOfNew(b: Block, lstele: seq<word>)
    requires b.nele <= |lstele| && b.elems == Elements(lstele, 0, b.nele)
    ensures ListBits(b) == TokensBits(Elements(lstele, Done(b.nele, b.nval, b.nt), b.nele), 16)
    ensures ListWords(b) == Words64(16 * Remaining(Done(b.nele, b.nval, b.nt), b.nele))
  {
    hide TokensBits;
    assert b.elems[InHeader(b.nele, b.nval, b.nt)..] == Elements(lstele, Done(b.nele, b.nval, b.nt), b.nele);
  }

  /** What the callers of `c_mrbadd` give. */
  predicate Arguments(nele: nat, nval: nat, nt: nat, lstele: seq<word>, tblval: seq<word>)
  {
    1 <= nele < 0x1_0000 && 1 <= nval < 0x1_0000 && 1 <= nt < 0x1_0000 && |tblval| == nele * nval * nt &&
    nele <= |lstele| && (Big(nele, nval, nt) || 3 <= |lstele|)
  }

  lemma NewBlockFits(b: Block, list: seq<word>, values: seq<word>, lstele: seq<word>)
    requires Arguments(b.nele, b.nval, b.nt, lstele, b.values) && Encodable(b.values, b.nbit)
    requires b.bfamdesc < 0x1000 && b.btyp < 0x8000 && b.elems == Elements(lstele, 0, b.nele)
    requires b.first3 == First3(lstele)
    requires b.body == list + values && |list| == ListWords(b) && |values| == Words64(|b.values| * b.nbit)
    requires Stored(list, 0, ListBits(b)) && Stored(values, 0, C.PackedBits(b.values, b.nbit))
    ensures BlockFits(b)
  {
    hide Stored, ListBits, ListWords, Words64;
    EncodableWidth(b.values, b.nbit);
    StoredFirst(list, values, ListBits(b));
    StoredAfter(list, values, C.PackedBits(b.values, b.nbit));
    hide Encodable;
    assert forall k | 0 <= k < 3 && k < b.nele :: b.first3[k] == b.elems[k];
  }

  lemma StoredFirst(a: seq<word>, b: seq<word>, bits: seq<bool>)
    requires Stored(a, 0, bits)
    ensures Stored(a + b, 0, bits)
  {
    StoredStill(a, a + b, 0, bits);
  }

  lemma StoredAfter(a: seq<word>, b: seq<word>, bits: seq<bool>)
    requires Stored(b, 0, bits)
    ensures Stored(a + b, |a|, bits)
  {
    hide Stored;
    assert (a + b)[|a|..|a + b|] == b;
    StoredWithin(a + b, |a|, 0, |a + b|, bits);
  }

  // ----- Dimensions of a block, from its header -----

  datatype Dims = Dims(nele: nat, nval: nat, nt: nat)

  function DimsOf(h: BlockHeader): Dims
  {
    if h.flag != 0 then Dims(h.elem1, h.elem2, h.elem3) else Dims(h.nele, h.nval, h.nt)
  }

  lemma DimsAre(b: Block, bit0: nat)
    requires |b.first3| == 3
    ensures var h := HeaderOf(b, bit0);
      DimsOf(h) == Dims(b.nele, b.nval, b.nt) && h.bit0 == bit0 && h.datyp == 2 &&
        (h.flag != 0 <==> Big(b.nele, b.nval, b.nt))
  {
  }

  /** Number of elements in the list of a block. */
  function InList(h: BlockHeader): nat
  {
    if h.flag != 0 then h.elem1 else if h.nele > 3 then h.nele - 3 else 0
  }

  lemma ListIs(b: Block, bit0: nat)
    requires |b.first3| == 3 && |b.elems| == b.nele
    ensures b.nele - InHeader(b.nele, b.nval, b.nt) == InList(HeaderOf(b, bit0))
    ensures ListWords(b) == Words64(InList(HeaderOf(b, bit0)) * 16)
    ensures InList(HeaderOf(b, bit0)) == 0 ==> ListWords(b) == 0
  {
  }

  /** Room to cut out a block: each cut also moves the words that follow the report. */
  ghost predicate RoomToCut(last: nat, length: nat, b: Block)
  {
    (ListWords(b) > 0 ==> last + ListWords(b) < length) && last + |b.body| < length + 2 * ListWords(b) &&
      last + 4 < length + |b.body|
  }

  /** The bits by which a report grows: a header, a list and values, each rounded to 64 bits. */
  ghost function BlockBits(nele: nat, nval: nat, nt: nat, width: nat): int
  {
    128 + (16 * ListLength(nele, nval, nt) + 63) / 64 * 64 + (nele * nval * nt * width + 63) / 64 * 64
  }

  lemma OneMoreSize(before: seq<Block>, after: seq<Block>)
    requires |after| == |before| + 1 && after[..|before|] == before
    ensures var b := after[|before|];
      128 + 64 * SizesUpTo(after, |after|) == 64 * SizesUpTo(before, |before|) + BlockBits(b.nele, b.nval, b.nt, b.nbit)
  {
    hide Size;
    SizesOfPrefix(before, after, |before|);
    SizeInBits(after[|before|]);
  }

  lemma {:induction false} SizesOfPrefix(before: seq<Block>, after: seq<Block>, k: nat)
    requires k <= |before| <= |after| && after[..|before|] == before
    ensures SizesUpTo(after, k) == SizesUpTo(before, k)
  {
    hide Size;
    if k > 0 {
      SizesOfPrefix(before, after, k - 1);
      assert after[k - 1] == after[..|before|][k - 1];
    }
  }

  /** The words of the list of a new block, */
  function ListSize(nele: nat, nval: nat, nt: nat): nat
  {
    Words64(16 * Remaining(Done(nele, nval, nt), nele))
  }

  /** and those that its body takes. */
  ghost function BodyWords(nele: nat, nval: nat, nt: nat, width: nat): nat
  {
    ListSize(nele, nval, nt) + PackedWords(nele * nval * nt, width)
  }

  lemma SomeWords(count: nat, width: nat)
    requires 1 <= count && 1 <= width
    ensures Words64(count * width) >= 2
  {
    assert count * width >= 1;
  }

  /** A header comes in at word `at`: if it is not at the end, the word that follows the record
      moves too. */
  predicate RoomForHeader(last: nat, at: nat, length: nat)
  {
    last + DIMENT < length || (last + DIMENT == length && at == last)
  }

  /** Once the list is in the data, which nothing checks, a header is never refused. */
  lemma HeaderNeverRefused(last: nat, length: nat)
    ensures DimError(last, DIMENT, length + HEAD_WORDS) ==> last >= length + 7
  {
  }

  /** The words of a new block come in: its list, its header among the others, its values. */
  method WriteBlock(buffer: Buffer, at: nat, header: seq<word>, lstele: seq<word>, done: nat, nele: nat,
                    tblval: seq<word>, width: nat)
    returns (err: int, ghost list: seq<word>, ghost values: seq<word>)
    requires buffer.Valid() && at % 64 == 0 && at / 32 <= buffer.Last() - DATA_INDEX && |header| == DIMENT
    requires nele <= |lstele|
    requires width <= 32
    requires RoomForHeader(buffer.Last() + Words64(16 * Remaining(done, nele)), DATA_INDEX + at / 32,
      buffer.data.Length)
    requires MayWrite(buffer.Last() + Words64(16 * Remaining(done, nele)) + 4, PackedWords(|tblval|, width),
      buffer.data.Length)
    modifies buffer, buffer.data
    ensures buffer.Valid() && |list| == Words64(16 * Remaining(done, nele))
    ensures var last := old(buffer.Last()) + |list| + 4;
      err == if DimError(last, PackedWords(|tblval|, width), buffer.Nwords()) then ERR_BAD_DIM else 0
    ensures |values| == if err == 0 then PackedWords(|tblval|, width) else 0
    ensures Stored(list, 0, TokensBits(Elements(lstele, done, nele), 16))
    ensures err == 0 ==> Stored(values, 0, C.PackedBits(tblval, width))
    ensures var before := old(buffer.Used()) + list;
      buffer.Used() == before[..at / 32] + header + before[at / 32..] + values
  {
    hide Stored, TokensBits, C.PackedBits, Words64, Elements, Remaining, WordsOf;
    list := AppendList(buffer, lstele, done, nele);
    HeaderNeverRefused(buffer.Last(), buffer.data.Length);
    err := buffer.Insert(at, header);
    err, values := buffer.Add(tblval, width);
    if err != 0 { values := []; }
  }

  /** Four words came in at word `at`, and n more at the end. */
  ghost predicate Pushed(u: seq<word>, w: seq<word>, at: nat, n: nat)
  {
    at <= |u| && |w| == |u| + n + 4 && w[..at] == u[..at] && w[at + 4..|u| + 4] == u[at..]
  }

  lemma HeaderPushes(u: seq<word>, list: seq<word>, header: seq<word>, at: nat)
    requires at <= |u| && |header| == 4
    ensures var before := u + list; Pushed(u, before[..at] + header + before[at..] + [], at, |list|)
  {
    var before := u + list;
    assert before[..at] == u[..at];
    assert before[at..] == u[at..] + list;
  }

  lemma NoWords(count: nat)
    ensures Words64(count * 0) == 0
  {
  }

  lemma HeaderBetween(before: seq<word>, at: nat, header: seq<word>, values: seq<word>)
    requires at <= |before|
    ensures (before[..at] + header + before[at..] + values)[at..at + |header|] == header
  {
  }

  /** Where the values of a block without words would start. */
  lemma PastTheEnd(h: BlockHeader, n: nat, bodies: nat, list: nat)
    requires h.bit0 == bodies / 2 && bodies % 2 == 0 && list == Words64(InList(h) * 16)
    ensures ValuesBit(h, n + 1) == 32 * (4 * n + bodies + list + 4)
  {
    hide InList;
  }

  lemma WidthOrNone(tblval: seq<word>, nbit: nat)
    requires tblval != [] && nbit <= 32 && Unsigned(tblval, nbit)
    ensures HasWidth(tblval, nbit) <==> Width(tblval, nbit) > 0
    ensures HasWidth(tblval, nbit) ==> Encodable(tblval, Width(tblval, nbit))
  {
    hide Largest, Needed, Unsigned;
    WidthIsEnough(tblval, nbit);
    if HasWidth(tblval, nbit) { EncodableWidth(tblval, Width(tblval, nbit)); }
  }

  /** The words that `WriteBlock` leaves are a body. */
  lemma WrittenBlock(b: Block, list: seq<word>, values: seq<word>, lstele: seq<word>)
    requires Arguments(b.nele, b.nval, b.nt, lstele, b.values) && Encodable(b.values, b.nbit)
    requires b.bfamdesc < 0x1000 && b.btyp < 0x8000 && b.elems == Elements(lstele, 0, b.nele)
    requires b.first3 == First3(lstele)
    requires b.body == list + values && |list| == Words64(16 * Remaining(Done(b.nele, b.nval, b.nt), b.nele))
    requires |values| == Words64(|b.values| * b.nbit) && Stored(values, 0, C.PackedBits(b.values, b.nbit))
    requires Stored(list, 0, TokensBits(Elements(lstele, Done(b.nele, b.nval, b.nt), b.nele), 16))
    ensures BlockFits(b) && |b.body| == BodyWords(b.nele, b.nval, b.nt, b.nbit)
  {
    hide Encodable, BlockFits, Stored, Elements, First3, Remaining, Words64, ListBits, ListWords;
    ListOfNew(b, lstele);
    NewBlockFits(b, list, values, lstele);
  }

  /** The report with one more block. */
  lemma AddedReport(blocks: seq<Block>, b: Block, list: seq<word>, values: seq<word>)
    requires AllFit(blocks) && BlockFits(b) && b.body == list + values && |Bodies(blocks)| + |b.body| < 0x20_0000
    ensures AllFit(blocks + [b]) && Bit0(blocks + [b], |blocks|) == |Bodies(blocks)| / 2
    ensures var before, at, header := Contents(blocks) + list, 4 * |blocks|, ToWords(HeaderOf(b, |Bodies(blocks)| / 2));
      at <= |before| && before[..at] + header + before[at..] + values == Contents(blocks + [b])
  {
    hide Bodies, Contents, BlockFits, HeaderOf;
    HeadersOfMore(blocks, b);
    BodiesConcat(blocks, [b]);
    BodiesOne(b);
    assert AllFit(blocks + [b]);
    HeaderAt(blocks + [b], |blocks|);
    hide ToWords, HeaderWordsAt, AllFit;
    AddedBlock(blocks, b, list, ToWords(HeaderOf(b, |Bodies(blocks)| / 2)), values);
  }

  // ----- Words changed in place -----

  method SetWord(buffer: Buffer, at: nat, w: word)
    requires buffer.Valid() && at < buffer.Last() - DATA_INDEX
    modifies buffer.data
    ensures buffer.Valid() && buffer.Used() == old(buffer.Used())[at := w]
  {
    hide WordsOf, InPairs;
    buffer.data[DATA_INDEX + at] := w;
  }

  /** The offset in header i changes by d. */
  method ShiftOffset(buffer: Buffer, i: nat, d: int, ghost hs: seq<seq<word>>, ghost tail: seq<word>)
    requires buffer.Valid() && i < |hs| && (forall k | 0 <= k < |hs| :: |hs[k]| == DIMENT)
    requires buffer.Used() == Flatten(hs) + tail
    modifies buffer.data
    ensures buffer.Valid() && buffer.Used() == Flatten(hs[i := Shifted(hs[i], d)]) + tail
  {
    hide WordsOf, InPairs, Flatten, AddToOffset;
    SlotWord(hs, tail, i, 1, AddToOffset(hs[i][1], d));
    assert buffer.Used()[4 * i + 1] == buffer.data[DATA_INDEX + 4 * i + 1];
    SetWord(buffer, 4 * i + 1, AddToOffset(buffer.data[DATA_INDEX + 4 * i + 1], d));
    assert Shifted(hs[i], d) == WithWord(hs[i], 1, AddToOffset(hs[i][1], d));
  }

  /** The offsets in the headers from number `from` on change by d. */
  method ShiftOffsets(buffer: Buffer, from: nat, count: nat, d: int, ghost hs: seq<seq<word>>, ghost tail: seq<word>)
    requires buffer.Valid() && from <= count == |hs| && forall k | 0 <= k < |hs| :: |hs[k]| == DIMENT
    requires buffer.Used() == Flatten(hs) + tail
    modifies buffer.data
    ensures buffer.Valid() && buffer.Used() == Flatten(ShiftFrom(hs, from, d)) + tail
  {
    hide WordsOf, InPairs, Flatten, Shifted;
    ghost var now: seq<seq<word>> := hs;
    for i := from to count
      invariant buffer.Valid() && buffer.Used() == Flatten(now) + tail && |now| == |hs|
      invariant forall k | 0 <= k < |hs| :: now[k] == if from <= k < i then Shifted(hs[k], d) else hs[k]
    {
      ShiftOffset(buffer, i, d, now, tail);
      now := now[i := Shifted(now[i], d)];
    }
    assert now == ShiftFrom(hs, from, d);
  }

  // ----- Deleting -----

  lemma BlockOf(blocks: seq<Block>, k: nat)
    requires AllFit(blocks) && k < |blocks|
    ensures BlockFits(blocks[k])
  {
  }

  lemma Counted(b: Block)
    requires BlockFits(b)
    ensures b.bfamdesc < 0x1000 && b.btyp < 0x8000 && |b.first3| == 3 && |b.elems| == b.nele
    ensures |b.values| == b.nele * b.nval * b.nt >= 1 && 1 <= b.nbit <= 32
  {
    hide BodyHolds, Encodable;
    EncodableWidth(b.values, b.nbit);
    assert b.nele * b.nval >= 1;
  }

  /** What the header of a block says about its body. */
  lemma BodyParts(b: Block, h: BlockHeader, bit0: nat)
    requires BlockFits(b) && |b.first3| == 3 && h == HeaderOf(b, bit0)
    ensures h.bit0 == bit0 && h.nbit + 1 == b.nbit && DimsOf(h) == Dims(b.nele, b.nval, b.nt)
    ensures |b.values| == b.nele * b.nval * b.nt >= 1
    ensures ListWords(b) == Words64(InList(h) * 16) && (InList(h) == 0 ==> ListWords(b) == 0)
    ensures |b.body| == ListWords(b) + Words64(|b.values| * b.nbit) && Words64(|b.values| * b.nbit) >= 2
  {
    hide BlockFits, Words64, InHeader, InList, DimsOf, ListWords;
    Counted(b);
    DimsAre(b, bit0);
    ListIs(b, bit0);
    BodySize(b);
    SomeWords(|b.values|, b.nbit);
  }

  lemma HeaderPlace(k: nat)
    ensures NBENTB * k % 64 == 0 && NBENTB * k / 32 == 4 * k
  {
    ModUnique(64, 2 * k, 0);
    ModUnique(32, 4 * k, 0);
  }

  /** Where a header and a body are, in bits. */
  lemma Places(blocks: seq<Block>, k: nat)
    requires AllFit(blocks) && k < |blocks|
    ensures var bitpos, at := NBENTB * k, Bit0(blocks, k) * 64 + NBENTB * |blocks|;
      bitpos % 64 == 0 && bitpos / 32 == 4 * k && at % 64 == 0 && at / 32 == 4 * |blocks| + 2 * Bit0(blocks, k) &&
      at / 32 + |blocks[k].body| <= |Contents(blocks)|
  {
    hide AllFit, Bit0, Contents;
    BodyIn(blocks, k);
    var bit0 := Bit0(blocks, k);
    ModUnique(64, bit0 + 2 * |blocks|, 0);
    ModUnique(32, 2 * bit0 + 4 * |blocks|, 0);
    ModUnique(64, 2 * k, 0);
    ModUnique(32, 4 * k, 0);
  }

  /** The block after the one that goes tells how many units go with it. */
  lemma NextOffset(blocks: seq<Block>, k: nat)
    requires AllFit(blocks) && k + 1 < |blocks|
    ensures HeaderWordsAt(blocks, k + 1)[1] % 0x10_0000 - Bit0(blocks, k) == |blocks[k].body| / 2
  {
    hide AllFit, Bit0, HeaderWordsAt, HeaderOf, BlockFits, ToWords, OfWords, Bodies;
    HeaderAt(blocks, k + 1);
    OffsetField(HeaderOf(blocks[k + 1], Bit0(blocks, k + 1)));
    OffsetIs(blocks[k + 1], Bit0(blocks, k + 1));
    NextStart(blocks, k);
  }

  lemma OffsetField(h: BlockHeader)
    requires HeaderFits(h) && OfWords(ToWords(h)) == h
    ensures ToWords(h)[1] % 0x10_0000 == h.bit0
  {
    hide ToWords;
  }

  lemma OffsetIs(b: Block, bit0: nat)
    requires |b.first3| == 3
    ensures HeaderOf(b, bit0).bit0 == bit0
  {
  }

  lemma NextStart(blocks: seq<Block>, k: nat)
    requires AllFit(blocks) && k + 1 < |blocks|
    ensures Bit0(blocks, k + 1) == Bit0(blocks, k) + |blocks[k].body| / 2
  {
    hide BlockFits, Bodies;
    assert blocks[..k + 1] == blocks[..k] + [blocks[k]];
    BodiesConcat(blocks[..k], [blocks[k]]);
    BodiesOne(blocks[k]);
    BodiesEven(blocks[..k]);
    BodyEven(blocks[k]);
  }

  lemma NothingShifted(hs: seq<seq<word>>, d: int, d': int)
    requires forall k | 0 <= k < |hs| :: |hs[k]| == DIMENT
    ensures ShiftFrom(hs, |hs|, d) == ShiftFrom(hs, |hs|, d')
  {
    hide Shifted;
  }

  /** The three cuts of `c_mrbdel`. */
  method CutBlock(buffer: Buffer, bitpos: nat, bit0: nat, nelements: nat, nombre: nat, nbit: nat, ghost list: nat,
                  ghost body: nat)
    requires buffer.Valid() && bitpos % 64 == 0 && bit0 % 64 == 0 && bitpos / 32 + 4 <= bit0 / 32
    requires bit0 / 32 + body <= buffer.Last() - DATA_INDEX
    requires list == Words64(nelements * 16) && body == list + Words64(nombre * nbit) && (nelements == 0 ==> list == 0)
    requires (list > 0 ==> buffer.Last() + list < buffer.data.Length)
    requires buffer.Last() + body < buffer.data.Length + 2 * list
    requires buffer.Last() + 4 < buffer.data.Length + body
    modifies buffer, buffer.data
    ensures buffer.Valid()
    ensures buffer.Used() ==
      CutOut(CutOut(CutOut(old(buffer.Used()), bit0 / 32, list), bit0 / 32, body - list), bitpos / 32, 4)
  {
    hide WordsOf, InPairs, CutOut, Words64;
    var err;
    if nelements > 0 {
      SomeWords(nelements, 16);
      err := buffer.Cut(bit0, nelements, 16);
    } else {
      NothingOut(buffer.Used(), bit0 / 32);
    }
    err := buffer.Cut(bit0, nombre, nbit);
    HeaderWords();
    err := buffer.Cut(bitpos, DIMENT, 32);
  }

  lemma NothingOut(u: seq<word>, at: nat)
    requires at <= |u|
    ensures CutOut(u, at, 0) == u
  {
  }

  lemma HeaderWords()
    ensures Words64(DIMENT * 32) == 4
  {
  }

  // ----- Reading back -----

  lemma AddBits(at: nat, bits: nat)
    requires at % 64 == 0
    ensures (at + (bits + 63) / 64 * 64) % 64 == 0 && (at + (bits + 63) / 64 * 64) / 32 == at / 32 + Words64(bits)
  {
    var units, q := at / 64, (bits + 63) / 64;
    ModUnique(64, units, 0);
    ModUnique(32, 2 * units, 0);
    ModUnique(64, units + q, 0);
    ModUnique(32, 2 * (units + q), 0);
  }

  lemma ShortTokens(f: seq<word>)
    requires forall k | 0 <= k < |f| :: f[k] < 0x1_0000
    ensures C.Masked(f, 16) == f
  {
    Pow2Values();
    forall k | 0 <= k < |f| ensures C.Masked(f, 16)[k] == f[k] {
    }
  }

  /** The elements and the values are stored where the header says. */
  lemma StoredParts(blocks: seq<Block>, k: nat)
    requires AllFit(blocks) && k < |blocks| && BlockFits(blocks[k])
    ensures var b, at := blocks[k], 4 * |blocks| + 2 * Bit0(blocks, k);
      Stored(Contents(blocks), at, C.PackedBits(b.elems[InHeader(b.nele, b.nval, b.nt)..], 16)) &&
      Stored(Contents(blocks), at + ListWords(b), C.PackedBits(b.values, b.nbit))
  {
    hide AllFit, Bit0, Contents, Stored, TokensBits, ListWords, Encodable, Words64, InHeader;
    var b, at := blocks[k], 4 * |blocks| + 2 * Bit0(blocks, k);
    BodyIn(blocks, k);
    BodySize(b);
    EncodableWidth(b.values, b.nbit);
    ShortTokens(b.elems[InHeader(b.nele, b.nval, b.nt)..]);
    StoredWithin(Contents(blocks), at, 0, at + |b.body|, ListBits(b));
    StoredWithin(Contents(blocks), at, ListWords(b), at + |b.body|, C.PackedBits(b.values, b.nbit));
  }

  /** Values that are all ones on their width are missing. */
  method Unmask(raw: seq<word>, nbit: nat, ghost values: seq<word>) returns (tblval: seq<word>)
    requires Encodable(values, nbit) && raw == C.Masked(values, nbit)
    ensures tblval == values
  {
    hide Pow2;
    Pow2Values();
    if nbit < 32 { Pow2Monotonic(nbit, 32); }
    var rmask := if nbit >= 32 then MISSING else Pow2(nbit) - 1;
    tblval := [];
    for i := 0 to |raw|
      invariant tblval == values[..i]
    {
      OneValue(values[i], nbit);
      tblval := tblval + [if raw[i] == rmask then MISSING else raw[i]];
    }
  }

  lemma OneValue(v: word, n: nat)
    requires 1 <= n <= 32 && (v == MISSING || v < Pow2(n) - 1)
    ensures v % Pow2(n) == if v == MISSING then Pow2(n) - 1 else v
  {
    if v == MISSING { AllOnes(n); } else { ModUnique(Pow2(n), 0, v); }
  }

  lemma AllOnes(n: nat)
    requires n <= 32
    ensures MISSING % Pow2(n) == Pow2(n) - 1
  {
    hide Pow2;
    Pow2Values();
    Pow2Adds(n, 32 - n);
    LastOf(Pow2(n), Pow2(32 - n), MISSING);
  }

  lemma LastOf(p: nat, q: nat, v: nat)
    requires p >= 1 && q >= 1 && v == p * q - 1
    ensures v % p == p - 1
  {
    DistributeLeft(p, q, 1);
    ModUnique(p, q - 1, p - 1);
  }

  // ----- Replacing -----

  /** Words that a block grows by when its values are packed on that many bits. */
  ghost function Growth(b: Block, width: nat): int
  {
    PackedWords(|b.values|, width) - PackedWords(|b.values|, b.nbit)
  }

  lemma MoreUnits(n: nat, narrow: nat, wide: nat)
    requires 1 <= n && 1 <= narrow <= wide <= 32
    ensures var diff := (wide * n + 63) / 64 - (narrow * n + 63) / 64;
      0 <= 2 * diff <= n && 2 * diff == Words64(n * wide) - Words64(n * narrow)
  {
    var a, c := wide * n, narrow * n;
    assert c <= a && 1 <= c && a <= 32 * n by { Products(n, narrow, wide); }
    assert n * wide == a && n * narrow == c;
    FewUnits(a, c, n);
  }

  lemma Products(n: nat, narrow: nat, wide: nat)
    requires 1 <= n && 1 <= narrow <= wide <= 32
    ensures narrow * n <= wide * n <= 32 * n && 1 <= narrow * n
  {
  }

  lemma FewUnits(a: nat, c: nat, n: nat)
    requires 1 <= c <= a <= 32 * n
    ensures 0 <= 2 * ((a + 63) / 64 - (c + 63) / 64) <= n
  {
    DivMod(a + 63, 64);
    DivMod(c + 63, 64);
  }

  method WidenHeader(buffer: Buffer, k: nat, n: nat, ghost hs: seq<seq<word>>, ghost tail: seq<word>)
    requires buffer.Valid() && k < |hs| && (forall i | 0 <= i < |hs| :: |hs[i]| == DIMENT)
    requires buffer.Used() == Flatten(hs) + tail && n < 32
    modifies buffer.data
    ensures buffer.Valid() && buffer.Used() == Flatten(hs[k := WithWord(hs[k], 0, SetWidth(hs[k][0], n))]) + tail
  {
    hide WordsOf, InPairs, Flatten, SetWidth;
    SlotWord(hs, tail, k, 0, SetWidth(hs[k][0], n));
    assert buffer.Used()[4 * k] == buffer.data[DATA_INDEX + 4 * k];
    SetWord(buffer, 4 * k, SetWidth(buffer.data[DATA_INDEX + 4 * k], n));
  }

  /** As many words as a block grows by find room, with the word that follows the report and moves
      too; or the dimension check refuses them. */
  predicate MayGrow(last: nat, growth: int, length: nat)
  {
    growth > 0 ==> last + growth < length || DimError(last, growth, length + HEAD_WORDS)
  }

  /** The first part of `c_mrbrep`: the header gets the new width, and as many words come in
      as the values need, if the dimension check lets them. */
  method Widen(buffer: Buffer, k: nat, count: nat, bitpos: nat, nbit: nat, newNbit: nat, tblval: seq<word>,
               ghost hs: seq<seq<word>>,
               ghost bodies: seq<word>, ghost growth: int)
    returns (ghost x: seq<word>)
    requires buffer.Valid() && k < count == |hs| && (forall i | 0 <= i < |hs| :: |hs[i]| == DIMENT)
    requires buffer.Used() == Flatten(hs) + bodies
    requires bitpos % 64 == 0 && 4 * count <= bitpos / 32 < 4 * count + |bodies|
    requires 1 <= nbit <= newNbit <= 32 && tblval != [] && hs[k][0] % 0x20 == nbit - 1
    requires growth == Words64(|tblval| * newNbit) - Words64(|tblval| * nbit)
    requires MayGrow(buffer.Last(), growth, buffer.data.Length)
    modifies buffer, buffer.data
    ensures buffer.Valid() && |x| == if DimError(old(buffer.Last()), growth, buffer.Nwords()) then 0 else growth
    ensures var wide := hs[k := WithWord(hs[k], 0, SetWidth(hs[k][0], newNbit - 1))];
      buffer.Used() == Flatten(ShiftFrom(wide, k + 1, growth / 2)) + Grown(bodies, bitpos / 32 - 4 * count, x)
  {
    hide WordsOf, InPairs, Flatten, SetWidth, Words64, Grown, Shifted, ShiftFrom, WithWord;
    x := [];
    MoreUnits(|tblval|, nbit, newNbit);
    if newNbit != nbit {
      x := MakeRoom(buffer, k, count, bitpos, newNbit, (newNbit * |tblval| + 63) / 64 - (nbit * |tblval| + 63) / 64,
        tblval, hs, bodies);
    } else {
      NoneGrown(bodies, bitpos / 32 - 4 * count);
      NoneShifted(hs, k + 1);
      SameWidth(hs, k);
    }
  }

  /** The new width goes into the header, and `diffNmots` units come in at the values. */
  method MakeRoom(buffer: Buffer, k: nat, count: nat, bitpos: nat, newNbit: nat, diffNmots: nat, tblval: seq<word>,
                  ghost hs: seq<seq<word>>, ghost bodies: seq<word>)
    returns (ghost x: seq<word>)
    requires buffer.Valid() && k < count == |hs| && (forall i | 0 <= i < |hs| :: |hs[i]| == DIMENT)
    requires buffer.Used() == Flatten(hs) + bodies
    requires bitpos % 64 == 0 && 4 * count <= bitpos / 32 < 4 * count + |bodies|
    requires 1 <= newNbit <= 32 && 2 * diffNmots <= |tblval|
    requires MayGrow(buffer.Last(), 2 * diffNmots, buffer.data.Length)
    modifies buffer, buffer.data
    ensures buffer.Valid()
    ensures |x| == if DimError(old(buffer.Last()), 2 * diffNmots, buffer.Nwords()) then 0 else 2 * diffNmots
    ensures var wide := hs[k := WithWord(hs[k], 0, SetWidth(hs[k][0], newNbit - 1))];
      buffer.Used() == Flatten(ShiftFrom(wide, k + 1, diffNmots)) + Grown(bodies, bitpos / 32 - 4 * count, x)
  {
    hide WordsOf, InPairs, Flatten, SetWidth, Grown, Shifted, ShiftFrom;
    ghost var wide: seq<seq<word>> := hs[k := WithWord(hs[k], 0, SetWidth(hs[k][0], newNbit - 1))];
    WidenHeader(buffer, k, newNbit - 1, hs, bodies);
    x := [];
    if diffNmots * 2 > 0 {
      x := InsertAndShift(buffer, k + 1, count, bitpos, tblval[..diffNmots * 2], diffNmots, wide, bodies);
    } else {
      NoneGrown(bodies, bitpos / 32 - 4 * count);
      NoneShifted(wide, k + 1);
    }
  }

  lemma SameWidth(hs: seq<seq<word>>, k: nat)
    requires k < |hs| && |hs[k]| == DIMENT
    ensures hs[k := WithWord(hs[k], 0, SetWidth(hs[k][0], hs[k][0] % 0x20))] == hs
  {
    assert SetWidth(hs[k][0], hs[k][0] % 0x20) == hs[k][0];
    assert WithWord(hs[k], 0, hs[k][0]) == hs[k];
  }

  lemma NoneGrown(u: seq<word>, at: nat)
    requires at <= |u|
    ensures Grown(u, at, []) == u
  {
  }

  lemma NoneShifted(hs: seq<seq<word>>, from: nat)
    requires forall k | 0 <= k < |hs| :: |hs[k]| == DIMENT
    ensures ShiftFrom(hs, from, 0) == hs
  {
    forall k | 0 <= k < |hs| ensures Shifted(hs[k], 0) == hs[k] {
    }
  }

  /** The words come in, unless the dimension check refuses them; the offsets change all the
      same, for `c_mrbrep` does not look at what `c_xdfins` returns. */
  method InsertAndShift(buffer: Buffer, from: nat, count: nat, bitpos: nat, x: seq<word>, diff: nat,
                        ghost hs: seq<seq<word>>, ghost bodies: seq<word>)
    returns (ghost added: seq<word>)
    requires buffer.Valid() && from <= count == |hs| && (forall i | 0 <= i < |hs| :: |hs[i]| == DIMENT)
    requires buffer.Used() == Flatten(hs) + bodies
    requires bitpos % 64 == 0 && 4 * count <= bitpos / 32 < 4 * count + |bodies| && |x| == 2 * diff >= 2
    requires MayGrow(buffer.Last(), |x|, buffer.data.Length)
    modifies buffer, buffer.data
    ensures buffer.Valid() && |added| == if DimError(old(buffer.Last()), 2 * diff, buffer.Nwords()) then 0 else 2 * diff
    ensures buffer.Used() == Flatten(ShiftFrom(hs, from, diff)) + Grown(bodies, bitpos / 32 - 4 * count, added)
  {
    hide WordsOf, InPairs, Flatten, Shifted, Grown;
    FlattenLength(hs, DIMENT);
    GrownLater(Flatten(hs), bodies, bitpos / 32 - 4 * count, x);
    NoneGrown(bodies, bitpos / 32 - 4 * count);
    var err := buffer.Insert(bitpos, x);
    added := if err == 0 then x else [];
    GrownIs(old(buffer.Used()), bitpos / 32, x);
    ShiftOffsets(buffer, from, count, diff, hs, Grown(bodies, bitpos / 32 - 4 * count, added));
  }

  lemma GrownIs(u: seq<word>, at: nat, x: seq<word>)
    requires at <= |u|
    ensures Grown(u, at, x) == u[..at] + x + u[at..]
  {
  }

  lemma WidthField(blocks: seq<Block>, k: nat)
    requires AllFit(blocks) && k < |blocks| && BlockFits(blocks[k])
    ensures HeaderWordsAt(blocks, k)[0] % 0x20 == blocks[k].nbit - 1
  {
    hide AllFit, Bodies, ToWords, OfWords, HeaderFits, Bit0, HeaderWordsAt;
    HeaderAt(blocks, k);
    CanTell(blocks[k]);
    NewWidth(HeaderOf(blocks[k], Bit0(blocks, k)), 0);
  }

  /** The headers, with the new width in one of them. */
  ghost function WideHeaders(blocks: seq<Block>, k: nat, newNbit: nat): (hs: seq<seq<word>>)
    requires k < |blocks| && 1 <= newNbit <= 32
    ensures |hs| == |blocks| && forall i | 0 <= i < |hs| :: |hs[i]| == DIMENT
  {
    Headers(blocks)[k := WithWord(HeaderWordsAt(blocks, k), 0, SetWidth(HeaderWordsAt(blocks, k)[0], newNbit - 1))]
  }

  lemma WideSize(blocks: seq<Block>, k: nat, newNbit: nat, d: int)
    requires k < |blocks| && 1 <= newNbit <= 32
    ensures |Flatten(ShiftFrom(WideHeaders(blocks, k, newNbit), k + 1, d))| == 4 * |blocks|
  {
    hide Flatten, Shifted, SetWidth, HeaderWordsAt;
    FlattenLength(ShiftFrom(WideHeaders(blocks, k, newNbit), k + 1, d), DIMENT);
  }

  /** The list of a block, and the values packed again after it, are a body. */
  lemma WidenedFits(b: Block, list: nat, values: seq<word>, wide: Block)
    requires BlockFits(b) && list == ListWords(b) <= |b.body| && |wide.values| == |b.values|
    requires Encodable(wide.values, wide.nbit)
    requires wide == b.(nbit := wide.nbit, values := wide.values, body := b.body[..list] + values)
    requires |values| == PackedWords(|wide.values|, wide.nbit)
    requires Stored(values, 0, C.PackedBits(wide.values, wide.nbit))
    ensures BlockFits(wide) && |wide.body| - |b.body| == Growth(b, wide.nbit)
  {
    hide Stored, TokensBits, Words64, Encodable, InHeader;
    EncodableWidth(wide.values, wide.nbit);
    ListFits(b, list);
    StoredAlone(b.body, 0, list, ListBits(b));
    StoredFirst(b.body[..list], values, ListBits(b));
    StoredAfter(b.body[..list], values, C.PackedBits(wide.values, wide.nbit));
    assert b.body[0..list] == b.body[..list];
    BodySize(b);
  }

  lemma ListFits(b: Block, list: nat)
    requires BlockFits(b) && list == ListWords(b)
    ensures WordsFor(|ListBits(b)|) <= list
  {
    hide BodyHolds, Encodable, TokensBits, InHeader, Words64;
    BodySize(b);
    TokensBitsLength(b.elems[InHeader(b.nele, b.nval, b.nt)..], 16);
    Words64Enough(16 * (b.nele - InHeader(b.nele, b.nval, b.nt)));
  }

  /** Where the values of a block are, in bits from the end of the keys, in a report of n
      blocks. */
  function ValuesBit(h: BlockHeader, n: nat): nat
  {
    h.bit0 * 64 + NBENTB * n + (InList(h) * 16 + 63) / 64 * 64
  }

  lemma ValuesPlace(blocks: seq<Block>, k: nat, h: BlockHeader)
    requires k < |blocks| && |blocks[k].first3| == 3 && h == HeaderOf(blocks[k], Bit0(blocks, k)) && AllFit(blocks)
    ensures ValuesBit(h, |blocks|) % 64 == 0
    ensures ValuesBit(h, |blocks|) / 32 == 4 * |blocks| + 2 * Bit0(blocks, k) + ListWords(blocks[k])
  {
    hide AllFit, Bodies, Bit0, BlockFits, HeaderOf, Contents, Words64, InList, DimsOf, ListWords;
    BlockOf(blocks, k);
    BodyParts(blocks[k], h, Bit0(blocks, k));
    Places(blocks, k);
    AddBits(h.bit0 * 64 + NBENTB * |blocks|, InList(h) * 16);
  }

  lemma ValuesSize(blocks: seq<Block>, k: nat, h: BlockHeader)
    requires k < |blocks| && |blocks[k].first3| == 3 && h == HeaderOf(blocks[k], Bit0(blocks, k)) && AllFit(blocks)
    ensures ListWords(blocks[k]) < |blocks[k].body| && 2 * Bit0(blocks, k) + |blocks[k].body| <= |Bodies(blocks)|
    ensures h.nbit + 1 == blocks[k].nbit <= 32 && HeaderWordsAt(blocks, k)[0] % 0x20 == h.nbit && blocks[k].values != []
  {
    hide AllFit, Bodies, Bit0, BlockFits, HeaderOf, HeaderWordsAt, Contents, Words64, InList, DimsOf, ListWords;
    BlockOf(blocks, k);
    CanTell(blocks[k]);
    BodyParts(blocks[k], h, Bit0(blocks, k));
    Places(blocks, k);
    HeadersSize(blocks);
    WidthField(blocks, k);
  }

  lemma WideIs(blocks: seq<Block>, k: nat, wide: Block, n: nat)
    requires k < |blocks| && 1 <= wide.nbit <= 32
    requires wide == blocks[k].(nbit := wide.nbit, values := wide.values, body := wide.body)
    requires n == |wide.body| - |blocks[k].body| && AllFit(blocks) && AllFit(blocks[k := wide]) && BlockFits(wide)
    ensures ShiftFrom(WideHeaders(blocks, k, wide.nbit), k + 1, n / 2) == Headers(blocks[k := wide])
  {
    hide AllFit, BlockFits, HeaderWordsAt, SetWidth, Headers;
    BlockOf(blocks, k);
    BodyEven(wide);
    BodyEven(blocks[k]);
    ReplacedHeaders(blocks, k, wide, n / 2, WideHeaders(blocks, k, wide.nbit));
  }

  /** The words after the values have been packed again are those of the report with the
      wider block. */
  lemma Repacked(blocks: seq<Block>, k: nat, wide: Block, list: nat, x: seq<word>, w: seq<word>, u: seq<word>,
                 from: nat, to: nat)
    requires k < |blocks| && list == ListWords(blocks[k]) <= |blocks[k].body| && 1 <= wide.nbit <= 32
    requires from == 4 * |blocks| + 2 * Bit0(blocks, k) + list
    requires to == from + Words64(|wide.values| * wide.nbit) <= |u| == |w|
    requires 2 * Bit0(blocks, k) + |blocks[k].body| <= |Bodies(blocks)| && |Bodies(blocks)| + |x| < 0x20_0000
    requires w == Flatten(ShiftFrom(WideHeaders(blocks, k, wide.nbit), k + 1, |x| / 2)) +
      Grown(Bodies(blocks), 2 * Bit0(blocks, k) + list, x)
    requires u[..from] == w[..from] && u[to..] == w[to..]
    requires wide == blocks[k].(nbit := wide.nbit, values := wide.values, body := blocks[k].body[..list] + u[from..to])
    requires Stored(u[from..to], 0, C.PackedBits(wide.values, wide.nbit))
    requires |wide.values| == |blocks[k].values| && |x| == Growth(blocks[k], wide.nbit)
    requires AllFit(blocks) && Encodable(wide.values, wide.nbit)
    ensures AllFit(blocks[k := wide]) && u == Contents(blocks[k := wide])
  {
    hide AllFit, Bodies, Bit0, BlockFits, HeaderWordsAt, Contents, Words64, ListWords, Flatten, SetWidth, Shifted;
    hide Grown, Stored, Encodable, Headers;
    hide ShiftFrom;
    BlockOf(blocks, k);
    WidenedFits(blocks[k], list, u[from..to], wide);
    ReplacedFits(blocks, k, wide);
    WideIs(blocks, k, wide, |x|);
    hide WideHeaders;
    HeadersSize(blocks[k := wide]);
    ReplacedReport(blocks, k, wide, x, u, list, from, to);
  }

  /** The values of a block, among all the words of the data. */
  ghost function ValuesWord(blocks: seq<Block>, k: nat): nat
    requires k < |blocks|
  {
    DATA_INDEX + 4 * |blocks| + 2 * Bit0(blocks, k) + ListWords(blocks[k])
  }

  /** The words of a report in which a header says that a block is wider, and the next ones say that
      they start after it, but no word has moved. */
  ghost function WidenedWords(blocks: seq<Block>, k: nat, width: nat): seq<word>
    requires k < |blocks| && 1 <= width <= 32
  {
    Flatten(ShiftFrom(WideHeaders(blocks, k, width), k + 1, Growth(blocks[k], width) / 2)) + Bodies(blocks)
  }

  /** The words of a report in which the words by which a block grows have come in. */
  ghost function GrownWords(blocks: seq<Block>, k: nat, width: nat, x: seq<word>): seq<word>
    requires k < |blocks| && 1 <= width <= 32 && 2 * Bit0(blocks, k) + ListWords(blocks[k]) <= |Bodies(blocks)|
  {
    Flatten(ShiftFrom(WideHeaders(blocks, k, width), k + 1, |x| / 2)) +
      Grown(Bodies(blocks), 2 * Bit0(blocks, k) + ListWords(blocks[k]), x)
  }

  ghost function WithValues(blocks: seq<Block>, k: nat, tblval: seq<word>, body: seq<word>): seq<Block>
    requires k < |blocks| && tblval != []
  {
    blocks[k := blocks[k].(nbit := Width(tblval, blocks[k].nbit), values := tblval, body := body)]
  }

  /** What the rewriting of a run is for the words after the keys. */
  lemma UsedAfter(z: seq<word>, z': seq<word>, from: nat, to: nat, last: nat, bits: seq<bool>)
    requires DATA_INDEX <= from && to <= last <= |z| && Rewritten(z, z', from, to, bits)
    ensures |z'| == |z| && from <= to
    ensures var w, u, a, b := z[DATA_INDEX..last], z'[DATA_INDEX..last], from - DATA_INDEX, to - DATA_INDEX;
      u[..a] == w[..a] && u[b..] == w[b..] && Stored(u[a..b], 0, bits)
  {
    hide Stored;
    Replaced(z, z', from, to, last);
  }

  /** The values are within the report once it has grown. */
  lemma MovedPlace(blocks: seq<Block>, k: nat, width: nat, last: nat)
    requires AllFit(blocks) && k < |blocks|
    requires last == DATA_INDEX + 4 * |blocks| + |Bodies(blocks)| + Growth(blocks[k], width)
    ensures ValuesWord(blocks, k) + PackedWords(|blocks[k].values|, width) <= last
  {
    hide AllFit, Bodies, BlockFits, Words64, ListWords;
    BlockOf(blocks, k);
    BodySize(blocks[k]);
    BodyPlace(blocks, k);
  }

  /** The values of the last block, once wider, end where the report would. */
  lemma LastBlockGrows(blocks: seq<Block>, k: nat, width: nat, last: nat)
    requires AllFit(blocks) && k < |blocks| && last == DATA_INDEX + 4 * |blocks| + |Bodies(blocks)|
    ensures k + 1 == |blocks| ==>
      ValuesWord(blocks, k) + PackedWords(|blocks[k].values|, width) == last + Growth(blocks[k], width)
  {
    hide AllFit, Bodies, BlockFits, Words64, ListWords;
    BlockOf(blocks, k);
    BodySize(blocks[k]);
    if k + 1 == |blocks| { LastBody(blocks); }
  }

  lemma BodyPlace(blocks: seq<Block>, k: nat)
    requires AllFit(blocks) && k < |blocks|
    ensures 2 * Bit0(blocks, k) + |blocks[k].body| <= |Bodies(blocks)|
  {
    hide AllFit, Bodies, BlockFits, Bit0;
    Bit0Bound(blocks, k);
    BodiesSplit(blocks, k);
  }

  lemma LastBody(blocks: seq<Block>)
    requires AllFit(blocks) && blocks != []
    ensures 2 * Bit0(blocks, |blocks| - 1) + |blocks[|blocks| - 1].body| == |Bodies(blocks)|
  {
    hide AllFit, Bodies, BlockFits, Bit0;
    var k := |blocks| - 1;
    Bit0Bound(blocks, k);
    BodiesSplit(blocks, k);
    assert blocks[k + 1..] == [];
    NoBodies();
  }

  /** The report with the new values is longer by the growth of the block. */
  lemma LongerReport(blocks: seq<Block>, k: nat, tblval: seq<word>, body: seq<word>)
    requires k < |blocks| && tblval != [] && |tblval| == |blocks[k].values| && AllFit(blocks)
    requires AllFit(WithValues(blocks, k, tblval, body))
    ensures |Contents(WithValues(blocks, k, tblval, body))| == |Contents(blocks)| +
      Growth(blocks[k], Width(tblval, blocks[k].nbit))
  {
    hide AllFit, Bodies, BlockFits, Contents, Words64, Width;
    var after := WithValues(blocks, k, tblval, body);
    BlockOf(blocks, k);
    BlockOf(after, k);
    BodySize(blocks[k]);
    BodySize(after[k]);
    HeadersSize(blocks);
    HeadersSize(after);
    BodiesReplaced(blocks, k, after[k]);
    BodiesSplit(blocks, k);
  }

  lemma AllOffsets(blocks: seq<Block>)
    requires AllFit(blocks)
    ensures forall k | 0 <= k < |blocks| :: Bit0(blocks, k) == SizesUpTo(blocks, k)
  {
    hide AllFit, Bit0, SizesUpTo;
    forall k | 0 <= k < |blocks| ensures Bit0(blocks, k) == SizesUpTo(blocks, k) {
      Bit0IsSum(blocks, k);
    }
  }

  class Report {
    const buffer: Buffer
    var buf8: nat
    var buf9: nat
    ghost var blocks: seq<Block>

    ghost predicate Valid()
      reads this, buffer, buffer.data
    {
      IsReport(blocks)
    }

    /** The buffer holds those blocks. */
    ghost predicate IsReport(bs: seq<Block>)
      reads this, buffer, buffer.data
    {
      buffer.Valid() && buf8 == |bs| && buf9 == NBENTB * |bs| && AllFit(bs) && buffer.Used() == Contents(bs)
    }

    constructor (nwords: nat)
      requires DATA_INDEX <= nwords
      ensures Valid() && fresh(buffer) && fresh(buffer.data) && buffer.data.Length == nwords && blocks == []
    {
      buffer := new Buffer(nwords);
      buf8, buf9, blocks := 0, 0, [];
      new;
      assert Contents([]) == [];
    }

    /** The bits of a report: its keys, its headers and its bodies. */
    lemma Sizes()
      requires Valid()
      ensures buffer.nbits == NBENTR + NBENTB * |blocks| + 64 * SizesUpTo(blocks, |blocks|)
      ensures forall k | 0 <= k < |blocks| :: Bit0(blocks, k) == SizesUpTo(blocks, k)
    {
      hide AllFit, Bodies, BlockFits, Contents, Bit0, SizesUpTo;
      ReportSize(blocks);
      AllOffsets(blocks);
    }

    /** The words of a block: its header among the first, and a body that takes the list and the values,
        each rounded to 64 bits. */
    lemma WordsOfBlock(k: nat)
      requires Valid() && k < |blocks|
      ensures var b, u, at := blocks[k], buffer.Used(), 4 * |blocks| + 2 * SizesUpTo(blocks, k);
        4 * k + 4 <= |u| && |b.elems| == b.nele &&
          HeaderSays(OfWords(u[4 * k..4 * k + 4]), b.nele, b.nval, b.nt, b.elems) &&
        OfWords(u[4 * k..4 * k + 4]).bit0 == SizesUpTo(blocks, k) && at + |b.body| <= |u| &&
          u[at..at + |b.body|] == b.body
      ensures var b := blocks[k];
        32 * |b.body| == (16 * ListLength(b.nele, b.nval, b.nt) + 63) / 64 * 64 + (|b.values| * b.nbit + 63) / 64 * 64
    {
      hide AllFit, Bodies, Bit0, OfWords, HeaderWordsAt, HeaderOf, Contents, Words64, Size, ListLength, HeaderSays;
      hide SizesUpTo;
      HeadersSize(blocks);
      HeaderTells(blocks, k, buffer.Used()[4 * k..4 * k + 4]);
      BlockOf(blocks, k);
      CanTell(blocks[k]);
      hide Encodable, BodyHolds;
      HeaderIsAsSaid(blocks[k], Bit0(blocks, k));
      Bit0IsSum(blocks, k);
      BodyIn(blocks, k);
      SizeIs(blocks[k]);
      SizeInBits(blocks[k]);
    }

    lemma BodiesStart()
      requires Valid()
      ensures buffer.nbits == NBENTR + buf9 + 32 * |Bodies(blocks)| && |Bodies(blocks)| % 2 == 0
      ensures (buffer.nbits - NBENTR - buf9) / 64 == |Bodies(blocks)| / 2 < 0x10_0000
      ensures buf9 % 64 == 0 && buf9 / 32 == 4 * |blocks| <= buffer.Last() - DATA_INDEX
    {
      hide Bodies, BlockFits, Contents, Headers, Flatten;
      BodiesEven(blocks);
      HeadersSize(blocks);
    }

    /** `c_mrbadd` with unsigned integers: one more block, last.  It gets the width its
        values need; its body starts where the others end.  A block of missing values only, for
        which no bit is asked, takes no words but says 32 bits.  When the values are refused, the
        list and the header are there, and no block. */
    method Add(nele: nat, nval: nat, nt: nat, bfam: nat, bdesc: nat, btyp: nat, nbit: nat, lstele: seq<word>,
               tblval: seq<word>)
      returns (err: int, bkno: nat, bit0: nat)
      requires Valid() && Arguments(nele, nval, nt, lstele, tblval) && tblval != [] && nbit <= 32
      requires Unsigned(tblval, nbit)
      requires RoomForHeader(buffer.Last() + ListSize(nele, nval, nt), DATA_INDEX + 4 * |blocks|, buffer.data.Length)
      requires MayWrite(buffer.Last() + ListSize(nele, nval, nt) + 4, PackedWords(|tblval|, Width(tblval, nbit)),
        buffer.data.Length)
      requires |Bodies(blocks)| + BodyWords(nele, nval, nt, Width(tblval, nbit)) < 0x20_0000
      modifies this, buffer, buffer.data
      ensures err == if !DescriptorAgrees(bfam, bdesc) then BURP_ERR_BDESC
        else if old(ValuesRefused(nele, nval, nt, nbit, tblval)) then ERR_BAD_DIM else 0
      ensures err == BURP_ERR_BDESC <==> bdesc != 0 && bfam / 64 % 64 != 0 && bfam / 64 % 64 != bdesc
      ensures err == BURP_ERR_BDESC ==> Valid() && blocks == old(blocks)
      ensures err == 0 ==> bkno == buf8 == old(|blocks|) + 1
      ensures err == 0 && HasWidth(tblval, nbit) ==>
        Valid() && bkno == |blocks| && blocks[..bkno - 1] == old(blocks) && bit0 == Bit0(blocks, bkno - 1)
      ensures err == 0 && HasWidth(tblval, nbit) ==>
        var b := blocks[bkno - 1];
        b == NewBlock(Family(bfam, bdesc), btyp, nele, nval, nt, Width(tblval, nbit), lstele, tblval, b.body)
      ensures err == 0 && HasWidth(tblval, nbit) ==>
        buffer.nbits == old(buffer.nbits) + BlockBits(nele, nval, nt, Width(tblval, nbit))
      ensures err == 0 && !HasWidth(tblval, nbit) ==> WithoutWidth(nele, nval, nt)
      ensures err == ERR_BAD_DIM ==> !Valid() && blocks == old(blocks) && buf8 == old(buf8) && buf9 == old(buf9)
      ensures err == ERR_BAD_DIM ==>
        buffer.Valid() && Pushed(old(buffer.Used()), buffer.Used(), 4 * buf8, ListSize(nele, nval, nt))
    {
      hide AllFit, Bodies, Contents, Encodable, Width, HasWidth, Unsigned, Elements, First3, Bit0, BodyWords, ListSize;
      hide PackedWords, DimError, MayWrite;
      hide RoomForHeader, Pushed, WithoutWidth, Arguments, BlockFits, WordsOf, InPairs, Largest, SizesUpTo, BlockBits;
      bkno, bit0 := buf8, 0;
      var inbit, idatyp;
      err, inbit, idatyp := NbitDatyp(nbit, 2, tblval);
      if !DescriptorAgrees(bfam, bdesc) { return BURP_ERR_BDESC, bkno, bit0; }
      FamilyIsSmall(bfam, bdesc);
      WidthOrNone(tblval, nbit);
      Sizes();
      err, bit0 := AddBlock(Family(bfam, bdesc), btyp, nele, nval, nt, inbit, idatyp, lstele, tblval);
      bkno := buf8;
      if err == 0 && inbit > 0 {
        Sizes();
        OneMoreSize(old(blocks), blocks);
      }
    }

    /** The rest of it, once the width is known. */
    method AddBlock(family: nat, btyp: nat, nele: nat, nval: nat, nt: nat, inbit: nat, idatyp: nat, lstele: seq<word>,
                    tblval: seq<word>)
      returns (err: int, bit0: nat)
      requires Valid() && Arguments(nele, nval, nt, lstele, tblval) && tblval != [] && inbit <= 32 && idatyp == 2
      requires family < 0x1000
      requires inbit > 0 ==> Encodable(tblval, inbit)
      requires RoomForHeader(buffer.Last() + ListSize(nele, nval, nt), DATA_INDEX + 4 * |blocks|, buffer.data.Length)
      requires MayWrite(buffer.Last() + ListSize(nele, nval, nt) + 4, PackedWords(|tblval|, inbit), buffer.data.Length)
      requires |Bodies(blocks)| + BodyWords(nele, nval, nt, inbit) < 0x20_0000
      modifies this, buffer, buffer.data
      ensures var last := old(buffer.Last()) + ListSize(nele, nval, nt) + 4;
        err == if DimError(last, PackedWords(|tblval|, inbit), buffer.Nwords()) then ERR_BAD_DIM else 0
      ensures err == 0 ==> buf8 == old(|blocks|) + 1
      ensures err == 0 && inbit > 0 ==>
        Valid() && buf8 == |blocks| && blocks[..buf8 - 1] == old(blocks) && bit0 == Bit0(blocks, buf8 - 1)
      ensures err == 0 && inbit > 0 ==>
        var b := blocks[buf8 - 1]; b == NewBlock(family, btyp, nele, nval, nt, inbit, lstele, tblval, b.body)
      ensures err == 0 && inbit == 0 ==> WithoutWidth(nele, nval, nt)
      ensures err != 0 ==> !Valid() && blocks == old(blocks) && buf8 == old(buf8) && buf9 == old(buf9)
      ensures err != 0 ==>
        buffer.Valid() && Pushed(old(buffer.Used()), buffer.Used(), 4 * buf8, ListSize(nele, nval, nt))
    {
      hide AllFit, Bodies, Contents, Encodable, ToWords, HeaderFits, Elements, First3, Stored, HeaderOf, Words64;
      hide BlockFits, Bit0, BodyWords;
      hide PackedWords, DimError, MayWrite, RoomForHeader, Pushed, WithoutWidth, DimsOf, InList;
      BodiesStart();
      bit0 := (buffer.nbits - NBENTR - buf9) / 64;
      var h := NewHeader(family, btyp, nele, nval, nt, inbit, idatyp, bit0, lstele);
      if inbit > 0 {
        err := AppendBlock(family, btyp, nele, nval, nt, inbit, lstele, tblval, h);
      } else {
        err := 0;
        AppendNoWidth(nele, nval, nt, lstele, tblval, h);
      }
    }

    /** Whether the values of a new block are refused, after its list and its header. */
    ghost predicate ValuesRefused(nele: nat, nval: nat, nt: nat, nbit: nat, tblval: seq<word>)
      requires tblval != []
      reads buffer
    {
      DimError(buffer.Last() + ListSize(nele, nval, nt) + 4, PackedWords(|tblval|, Width(tblval, nbit)),
        buffer.Nwords())
    }

    /** They are when the words of the list, of the header and of the values end more than ten words past the
        data. */
    lemma ValuesRefusedIff(nele: nat, nval: nat, nt: nat, nbit: nat, tblval: seq<word>)
      requires buffer.Valid() && tblval != [] && |tblval| == nele * nval * nt
      ensures ValuesRefused(nele, nval, nt, nbit, tblval) <==>
        32 * buffer.Last() + BlockBits(nele, nval, nt, Width(tblval, nbit)) > 32 * (buffer.data.Length + 10)
    {
    }

    /** The last block says that its values have 32 bits and start after the last word of the
        report. */
    ghost predicate WithoutWidth(nele: nat, nval: nat, nt: nat)
      reads this, buffer, buffer.data
    {
      buffer.Valid() && 1 <= buf8 && buf9 == NBENTB * buf8 && 4 * buf8 <= |buffer.Used()| &&
      var h := OfWords(buffer.Used()[4 * (buf8 - 1)..4 * buf8]);
      h.nbit + 1 == 32 && DimsOf(h) == Dims(nele, nval, nt) && ValuesBit(h, buf8) == 32 * |buffer.Used()|
    }

    method AppendNoWidth(nele: nat, nval: nat, nt: nat, lstele: seq<word>, tblval: seq<word>, h: BlockHeader)
      requires Valid() && Arguments(nele, nval, nt, lstele, tblval) && h.bit0 == |Bodies(blocks)| / 2
      requires HeaderFits(h) && h.nbit == 31 && DimsOf(h) == Dims(nele, nval, nt)
      requires Words64(InList(h) * 16) == Words64(16 * Remaining(Done(nele, nval, nt), nele))
      requires RoomForHeader(buffer.Last() + ListSize(nele, nval, nt), DATA_INDEX + 4 * |blocks|, buffer.data.Length)
      modifies this, buffer, buffer.data
      ensures blocks == old(blocks) && buf8 == old(buf8) + 1 && WithoutWidth(nele, nval, nt)
      ensures !DimError(old(buffer.Last()) + ListSize(nele, nval, nt) + 4, PackedWords(|tblval|, 0), buffer.Nwords())
    {
      hide AllFit, Bodies, Contents, ToWords, OfWords, HeaderFits, Elements, Stored, Words64, InList, DimsOf, Remaining;
      hide ValuesBit;
      BodiesStart();
      HeadersSize(blocks);
      HeaderReadBack(h);
      NoWords(|tblval|);
      ghost var u := buffer.Used();
      var err;
      ghost var list, values;
      err, list, values := WriteBlock(buffer, buf9, ToWords(h), lstele, Done(nele, nval, nt), nele, tblval, 0);
      HeaderBetween(u + list, buf9 / 32, ToWords(h), values);
      PastTheEnd(h, buf8, |Bodies(blocks)|, |list|);
      buf8 := buf8 + 1;
      buf9 := buf9 + NBENTB;
    }

    /** What `c_mrbxtr` gives for that block: the words that happen to follow the report. */
    method XtrWithoutWidth(nele: nat, nval: nat, nt: nat, ghost count: nat) returns (tblval: seq<word>)
      requires buffer.Last() + count < buffer.data.Length && count == nele * nval * nt
      requires WithoutWidth(nele, nval, nt)
      ensures tblval == buffer.data[buffer.Last()..buffer.Last() + count]
    {
      hide Stored, C.PackedBits, OfWords, InList, WordsOf, InPairs, ValuesBit;
      HeaderPlace(buf8 - 1);
      var err, ws := buffer.ExtractWords(NBENTB * (buf8 - 1), DIMENT);
      var h := OfWords(ws);
      var nombre := DimsOf(h).nele * DimsOf(h).nval * DimsOf(h).nt;
      var index := DATA_INDEX + ValuesBit(h, buf8) / 32;
      ghost var there := buffer.data[..][index..index + nombre];
      C.WholeWordsThere(buffer.data[..], index, nombre);
      var raw := C.Unpack(buffer.data, index, nombre, h.nbit + 1, there);
      AllEncodable32(there);
      tblval := Unmask(raw, h.nbit + 1, there);
    }

    method AppendBlock(family: nat, btyp: nat, nele: nat, nval: nat, nt: nat, inbit: nat, lstele: seq<word>,
                       tblval: seq<word>, h: BlockHeader)
      returns (err: int)
      requires Valid() && Arguments(nele, nval, nt, lstele, tblval) && Encodable(tblval, inbit) && tblval != []
      requires family < 0x1000
      requires RoomForHeader(buffer.Last() + ListSize(nele, nval, nt), DATA_INDEX + 4 * |blocks|, buffer.data.Length)
      requires MayWrite(buffer.Last() + ListSize(nele, nval, nt) + 4, PackedWords(|tblval|, inbit), buffer.data.Length)
      requires |Bodies(blocks)| + BodyWords(nele, nval, nt, inbit) < 0x20_0000
      requires HeaderFits(h)
      requires h == HeaderOf(NewBlock(family, btyp, nele, nval, nt, inbit, lstele, tblval, []), |Bodies(blocks)| / 2)
      modifies this, buffer, buffer.data
      ensures var last := old(buffer.Last()) + ListSize(nele, nval, nt) + 4;
        err == if DimError(last, PackedWords(|tblval|, inbit), buffer.Nwords()) then ERR_BAD_DIM else 0
      ensures err == 0 ==> Valid() && buf8 == |blocks| == old(|blocks|) + 1 && blocks[..buf8 - 1] == old(blocks)
      ensures err == 0 ==> Bit0(blocks, buf8 - 1) == old(|Bodies(blocks)| / 2)
      ensures err == 0 ==>
        var b := blocks[buf8 - 1]; b == NewBlock(family, btyp, nele, nval, nt, inbit, lstele, tblval, b.body)
      ensures err != 0 ==> !Valid() && blocks == old(blocks) && buf8 == old(buf8) && buf9 == old(buf9)
      ensures err != 0 ==>
        buffer.Valid() && Pushed(old(buffer.Used()), buffer.Used(), 4 * buf8, ListSize(nele, nval, nt))
    {
      hide AllFit, Bodies, Contents, Encodable, ToWords, HeaderFits, Elements, First3, Stored, Words64, MayWrite;
      hide Pushed;
      BodiesStart();
      EncodableWidth(tblval, inbit);
      SomeWords(|tblval|, inbit);
      ghost var list, values;
      err, list, values := WriteBlock(buffer, buf9, ToWords(h), lstele, Done(nele, nval, nt), nele, tblval, inbit);
      if err != 0 {
        HeaderPushes(old(buffer.Used()), list, ToWords(h), buf9 / 32);
        return;
      }
      ghost var b := NewBlock(family, btyp, nele, nval, nt, inbit, lstele, tblval, list + values);
      WrittenBlock(b, list, values, lstele);
      AddedReport(blocks, b, list, values);
      buf8 := buf8 + 1;
      buf9 := buf9 + NBENTB;
      blocks := blocks + [b];
    }

    method HeaderOfBlock(k: nat) returns (h: BlockHeader)
      requires Valid() && k < buf8
      ensures |blocks[k].first3| == 3 && h == HeaderOf(blocks[k], Bit0(blocks, k))
    {
      hide AllFit, Bodies, Bit0, OfWords, HeaderWordsAt, ToWords, HeaderOf, HeaderFits, Contents, Words64;
      HeadersSize(blocks);
      HeaderPlace(k);
      var err, ws := buffer.ExtractWords(NBENTB * k, DIMENT);
      HeaderTells(blocks, k, ws);
      h := OfWords(ws);
    }

    /** `c_mrbxtr`: the elements and the values of a block, the missing ones included. */
    method Xtr(bkno: int) returns (err: int, lstele: seq<word>, tblval: seq<word>)
      requires Valid() && buffer.Last() < buffer.data.Length
      ensures !(1 <= bkno <= buf8) ==> err == BURP_ERR_BNUM
      ensures 1 <= bkno <= buf8 ==> err == 0 && lstele == blocks[bkno - 1].elems && tblval == blocks[bkno - 1].values
    {
      hide AllFit, Bodies, Bit0, BlockFits, HeaderOf;
      lstele, tblval := [], [];
      if bkno < 1 || bkno > buf8 { return BURP_ERR_BNUM, lstele, tblval; }
      var h := HeaderOfBlock(bkno - 1);
      lstele := XtrList(bkno - 1, h);
      err, tblval := XtrValues(bkno - 1, h);
    }

    method XtrList(k: nat, h: BlockHeader) returns (lstele: seq<word>)
      requires Valid() && buffer.Last() < buffer.data.Length && k < buf8 && |blocks[k].first3| == 3
      requires h == HeaderOf(blocks[k], Bit0(blocks, k))
      ensures lstele == blocks[k].elems
    {
      hide AllFit, Bodies, Bit0, BlockFits, HeaderOf, Contents, Words64, InList, DimsOf, ListWords, Headers, Flatten;
      hide Stored, C.PackedBits, InHeader;
      ghost var b := blocks[k];
      BlockOf(blocks, k);
      BodyParts(b, h, Bit0(blocks, k));
      Places(blocks, k);
      StoredParts(blocks, k);
      lstele := HeaderElements(h, b, Bit0(blocks, k));
      ghost var later := b.elems[InHeader(b.nele, b.nval, b.nt)..];
      if InList(h) > 0 {
        var err, found := buffer.Extract(h.bit0 * 64 + buf9, InList(h), 16, later);
        ShortTokens(later);
        lstele := lstele + found;
      }
    }

    method XtrValues(k: nat, h: BlockHeader) returns (err: int, tblval: seq<word>)
      requires Valid() && buffer.Last() < buffer.data.Length && k < buf8 && |blocks[k].first3| == 3
      requires h == HeaderOf(blocks[k], Bit0(blocks, k))
      ensures err == 0 && tblval == blocks[k].values
    {
      hide AllFit, Bodies, Bit0, BlockFits, HeaderOf, Contents, Words64, InList, DimsOf, ListWords, Headers, Flatten;
      hide Stored, C.PackedBits, InHeader;
      ghost var b := blocks[k];
      BlockOf(blocks, k);
      CanTell(b);
      BodyParts(b, h, Bit0(blocks, k));
      Places(blocks, k);
      StoredParts(blocks, k);
      var bitpos, nombre := h.bit0 * 64 + buf9, DimsOf(h).nele * DimsOf(h).nval * DimsOf(h).nt;
      AddBits(bitpos, InList(h) * 16);
      var raw;
      err, raw := buffer.Extract(bitpos + (InList(h) * 16 + 63) / 64 * 64, nombre, h.nbit + 1, b.values);
      tblval := Unmask(raw, h.nbit + 1, b.values);
    }

    /** `c_mrbprm`: what describes a block. */
    method Prm(bkno: int)
      returns (nele: nat, nval: nat, nt: nat, bfam: nat, btyp: nat, nbit: nat, bit0: nat, datyp: nat)
      requires Valid() && 1 <= bkno <= buf8
      ensures var b := blocks[bkno - 1];
        nele == b.nele && nval == b.nval && nt == b.nt && btyp == b.btyp && nbit == b.nbit && datyp == 2 &&
        bit0 == SizesUpTo(blocks, bkno - 1) && b.bfamdesc == SwapHalves(bfam) && bfam < 0x1000
    {
      hide AllFit, Bodies, Bit0, BlockFits, Contents, Words64, DimsOf, ListWords, Headers, Flatten, SwapHalves;
      ghost var b := blocks[bkno - 1];
      var h := HeaderOfBlock(bkno - 1);
      BlockOf(blocks, bkno - 1);
      BodyParts(b, h, Bit0(blocks, bkno - 1));
      DimsAre(b, Bit0(blocks, bkno - 1));
      Bit0IsSum(blocks, bkno - 1);
      Counted(b);
      FamilyReadBack(b.bfamdesc);
      FamilyReadBack(SwapHalves(b.bfamdesc));
      var dims := DimsOf(h);
      nele, nval, nt, btyp, nbit, bit0, datyp := dims.nele, dims.nval, dims.nt, h.btyp, h.nbit + 1, h.bit0, h.datyp;
      bfam := SwapHalves(h.bfamdesc);
    }

    /** `c_mrbrep`: the block has the new values, on the width they need if it is more than it
        had; the others are as they were.  So it is if and only if the words that come in are not
        refused. */
    method Rep(blkno: int, tblval: seq<word>) returns (err: int)
      requires Valid() && tblval != []
      requires 1 <= blkno <= buf8 ==> Replaceable(blkno - 1, tblval)
      modifies this, buffer, buffer.data
      ensures !(1 <= blkno <= old(buf8)) ==> Valid() && err == BURP_ERR_BNUM && blocks == old(blocks)
      ensures 1 <= blkno <= old(buf8) && !old(Refused(blkno - 1, tblval)) ==> Valid() && err == 0 && blkno <= |blocks|
      ensures 1 <= blkno <= old(buf8) && !old(Refused(blkno - 1, tblval)) ==>
        blocks == WithValues(old(blocks), blkno - 1, tblval, blocks[blkno - 1].body)
      ensures 1 <= blkno <= old(buf8) && old(Refused(blkno - 1, tblval)) ==>
        blocks == old(blocks) && HalfReplaced(blkno - 1, tblval, err) && (err == 0 ==> blkno < |blocks|)
      ensures 1 <= blkno <= old(buf8) ==>
        (IsReportWith(old(blocks), blkno - 1, tblval) <==> !old(Refused(blkno - 1, tblval)))
    {
      hide AllFit, Bodies, BlockFits, Contents, Headers, Flatten, HeaderOf, Bit0, Unsigned, Width, Encodable;
      hide WithValues, IsReportWith;
      if blkno < 1 || blkno > buf8 { return BURP_ERR_BNUM; }
      var h := HeaderOfBlock(blkno - 1);
      BlockOf(blocks, blkno - 1);
      BodyParts(blocks[blkno - 1], h, Bit0(blocks, blkno - 1));
      CanTell(blocks[blkno - 1]);
      var newNbit, newDatyp;
      err, newNbit, newDatyp := NbitDatyp(h.nbit + 1, 2, tblval);
      err := PackAgain(blkno - 1, h, newNbit, tblval);
    }

    /** The buffer holds those blocks, one of them with the new values. */
    ghost predicate IsReportWith(bs: seq<Block>, k: nat, tblval: seq<word>)
      requires k < |bs| && tblval != []
      reads this, buffer, buffer.data
    {
      exists body :: IsReport(WithValues(bs, k, tblval, body))
    }

    lemma KeepsReport(bs: seq<Block>, k: nat, tblval: seq<word>, body: seq<word>)
      requires k < |bs| && tblval != [] && IsReport(WithValues(bs, k, tblval, body))
      ensures IsReportWith(bs, k, tblval)
    {
    }

    /** Whether the words by which a block grows are refused. */
    ghost predicate Refused(k: nat, tblval: seq<word>)
      requires k < |blocks| && tblval != []
      reads this, buffer
    {
      DimError(buffer.Last(), Growth(blocks[k], Width(tblval, blocks[k].nbit)), buffer.Nwords())
    }

    /** They are when the report, with the new values in place of the old ones, each rounded to 64 bits, ends
        more than ten words past the data. */
    lemma RefusedIff(k: nat, tblval: seq<word>)
      requires buffer.Valid() && k < |blocks| && tblval != [] && |tblval| == |blocks[k].values|
      ensures var b := blocks[k];
        Refused(k, tblval) <==>
        32 * buffer.Last() + (|tblval| * Width(tblval, b.nbit) + 63) / 64 * 64 - (|b.values| * b.nbit + 63) / 64 * 64 >
          32 * (buffer.data.Length + 10)
    {
    }

    /** Values of the same number that the packer keeps unsigned.  What comes in is inside the
        data or is refused; and if it is refused, so it is for the values. */
    ghost predicate Replaceable(k: nat, tblval: seq<word>)
      requires Valid() && k < buf8 && tblval != []
      reads this, buffer, buffer.data
    {
      var b := blocks[k];
      var growth := Growth(b, Width(tblval, b.nbit));
      |tblval| == |b.values| && Unsigned(tblval, b.nbit) && |Bodies(blocks)| + growth < 0x20_0000 &&
      MayGrow(buffer.Last(), growth, buffer.data.Length) &&
      (Refused(k, tblval) ==>
        MayWrite(ValuesWord(blocks, k), PackedWords(|tblval|, Width(tblval, b.nbit)), buffer.data.Length))
    }

    /** What is left when the words that come in are refused: the header has the new width, the
        offsets of the blocks after it have changed, and no word has moved.  Without an error the
        new values are over the words that were next. */
    ghost predicate HalfReplaced(k: nat, tblval: seq<word>, err: int)
      requires k < |blocks| && tblval != []
      reads this, buffer, buffer.data
    {
      var width := Width(tblval, blocks[k].nbit);
      1 <= width <= 32 && buffer.Valid() && buf8 == |blocks| && buf9 == NBENTB * |blocks| &&
      var w, from, size := WidenedWords(blocks, k, width), ValuesWord(blocks, k), PackedWords(|tblval|, width);
      err == (if DimError(from, size, buffer.Nwords()) then ERR_BAD_DIM else 0) &&
      if err == 0 then Overwritten(w, from - DATA_INDEX, size, C.PackedBits(tblval, width)) else buffer.Used() == w
    }

    /** The words of the report, but for a run that has the given bits and may end after it. */
    ghost predicate Overwritten(w: seq<word>, from: nat, size: nat, bits: seq<bool>)
      requires buffer.Valid()
      reads buffer, buffer.data
    {
      |buffer.Used()| == |w| &&
        (forall j | 0 <= j < |w| && (j < from || from + size <= j) :: buffer.Used()[j] == w[j]) &&
      DATA_INDEX + from + size <= buffer.data.Length &&
      Stored(buffer.data[DATA_INDEX + from..DATA_INDEX + from + size], 0, bits)
    }

    method PackAgain(k: nat, h: BlockHeader, newNbit: nat, tblval: seq<word>) returns (err: int)
      requires Valid() && k < buf8 && |blocks[k].first3| == 3 && h == HeaderOf(blocks[k], Bit0(blocks, k))
      requires tblval != []
      requires blocks[k].nbit <= newNbit == Width(tblval, blocks[k].nbit) && Encodable(tblval, newNbit)
      requires Replaceable(k, tblval)
      modifies this, buffer, buffer.data
      ensures !old(Refused(k, tblval)) ==> Valid() && err == 0 && k < |blocks|
      ensures !old(Refused(k, tblval)) ==> blocks == WithValues(old(blocks), k, tblval, blocks[k].body)
      ensures old(Refused(k, tblval)) ==>
        blocks == old(blocks) && HalfReplaced(k, tblval, err) && (err == 0 ==> k + 1 < |blocks|)
      ensures IsReportWith(old(blocks), k, tblval) <==> !old(Refused(k, tblval))
    {
      hide AllFit, Bodies, BlockFits, Contents, Headers, Flatten, HeaderOf, Bit0, Encodable, Words64, ListWords, Grown;
      hide Stored, ShiftFrom, SetWidth, ValuesBit;
      hide Width, WideHeaders, IsReportWith, HalfReplaced, PackedWords;
      EncodableWidth(tblval, newNbit);
      ValuesPlace(blocks, k, h);
      ValuesSize(blocks, k, h);
      HeadersSize(blocks);
      var bitpos := ValuesBit(h, buf8);
      ghost var refused := Refused(k, tblval);
      ghost var x := GrowBlock(k, h, bitpos, newNbit, tblval);
      WideSize(blocks, k, newNbit, Growth(blocks[k], newNbit) / 2);
      if refused {
        assert buffer.Last() == old(buffer.Last());
      } else {
        MovedPlace(blocks, k, newNbit, buffer.Last());
      }
      err := PackValues(k, bitpos, newNbit, tblval, x, refused);
    }

    /** The values are packed, where the words that came in are or would have been. */
    method PackValues(k: nat, bitpos: nat, width: nat, tblval: seq<word>, ghost x: seq<word>, ghost refused: bool)
      returns (err: int)
      requires k < |blocks| && tblval != [] && AllFit(blocks) && buffer.Valid() && buf8 == |blocks|
      requires buf9 == NBENTB * |blocks|
      requires |tblval| == |blocks[k].values| && Encodable(tblval, width) && 1 <= width <= 32
      requires width == Width(tblval, blocks[k].nbit)
      requires bitpos % 64 == 0 && bitpos / 32 == ValuesWord(blocks, k) - DATA_INDEX
      requires MayWrite(ValuesWord(blocks, k), PackedWords(|tblval|, width), buffer.data.Length)
      requires |Bodies(blocks)| + |x| < 0x20_0000 && ListWords(blocks[k]) <= |blocks[k].body|
      requires 2 * Bit0(blocks, k) + |blocks[k].body| <= |Bodies(blocks)|
      requires |buffer.Used()| == 4 * |blocks| + |Bodies(blocks)| + |x|
      requires refused ==> x == [] && buffer.Used() == WidenedWords(blocks, k, width) && Refused(k, tblval)
      requires !refused ==>
        |x| == Growth(blocks[k], width) && ValuesWord(blocks, k) + PackedWords(|tblval|, width) <= buffer.Last()
      requires !refused ==> buffer.Used() == GrownWords(blocks, k, width, x)
      modifies this, buffer.data
      ensures !refused ==> Valid() && err == 0 && k < |blocks|
      ensures !refused ==> blocks == WithValues(old(blocks), k, tblval, blocks[k].body)
      ensures refused ==> blocks == old(blocks) && HalfReplaced(k, tblval, err) && (err == 0 ==> k + 1 < |blocks|)
      ensures IsReportWith(old(blocks), k, tblval) <==> !refused
    {
      hide AllFit, Bodies, BlockFits, Contents, Flatten, Bit0, Encodable, ListWords, Grown, Stored, ShiftFrom, Width;
      hide WideHeaders, WidenedWords;
      hide Growth, PackedWords, IsReportWith, HalfReplaced, Rewritten;
      ghost var z, w := buffer.data[..], buffer.Used();
      err := buffer.Replace(bitpos, tblval, width);
      if refused {
        NotMoved(k, tblval, err, z, w);
      } else {
        ghost var wide := Moved(k, tblval, width, z, w, x);
        blocks := WithValues(blocks, k, tblval, wide.body);
        KeepsReport(old(blocks), k, tblval, wide.body);
      }
    }

    /** The words of the report when the words have come in. */
    lemma Moved(k: nat, tblval: seq<word>, width: nat, z: seq<word>, w: seq<word>, x: seq<word>) returns (wide: Block)
      requires k < |blocks| && tblval != [] && AllFit(blocks) && buffer.Valid() && |z| == buffer.data.Length
      requires w == z[DATA_INDEX..buffer.Last()]
      requires |tblval| == |blocks[k].values| && Encodable(tblval, width) && 1 <= width <= 32
      requires width == Width(tblval, blocks[k].nbit)
      requires |x| == Growth(blocks[k], width) && |Bodies(blocks)| + |x| < 0x20_0000
      requires ListWords(blocks[k]) <= |blocks[k].body|
      requires 2 * Bit0(blocks, k) + |blocks[k].body| <= |Bodies(blocks)|
      requires w == GrownWords(blocks, k, width, x)
      requires |w| == 4 * |blocks| + |Bodies(blocks)| + |x|
      requires var from := ValuesWord(blocks, k);
        Rewritten(z, buffer.data[..], from, from + PackedWords(|tblval|, width), C.PackedBits(tblval, width))
      ensures AllFit(WithValues(blocks, k, tblval, wide.body))
      ensures buffer.Used() == Contents(WithValues(blocks, k, tblval, wide.body))
    {
      hide AllFit, Bodies, BlockFits, Contents, Headers, Flatten, Bit0, Encodable, Words64, ListWords, Grown, Stored;
      hide ShiftFrom, SetWidth, Width, WideHeaders;
      hide Rewritten, WordsOf, InPairs, C.PackedBits;
      var list, from := ListWords(blocks[k]), ValuesWord(blocks, k);
      var to := from + PackedWords(|tblval|, width);
      MovedPlace(blocks, k, width, buffer.Last());
      UsedAfter(z, buffer.data[..], from, to, buffer.Last(), C.PackedBits(tblval, width));
      var u := buffer.Used();
      wide := blocks[k].(nbit := width, values := tblval, body := blocks[k].body[..list] +
        u[from - DATA_INDEX..to - DATA_INDEX]);
      Repacked(blocks, k, wide, list, x, w, u, from - DATA_INDEX, to - DATA_INDEX);
      assert blocks[k := wide] == WithValues(blocks, k, tblval, wide.body);
    }

    /** The words of the report when the words that come in are refused. */
    lemma NotMoved(k: nat, tblval: seq<word>, err: int, z: seq<word>, w: seq<word>)
      requires k < |blocks| && tblval != [] && AllFit(blocks) && buffer.Valid() && buf8 == |blocks|
      requires buf9 == NBENTB * |blocks|
      requires |tblval| == |blocks[k].values| && Encodable(tblval, Width(tblval, blocks[k].nbit)) && Refused(k, tblval)
      requires w == WidenedWords(blocks, k, Width(tblval, blocks[k].nbit)) && |z| == buffer.data.Length
      requires w == z[DATA_INDEX..buffer.Last()]
      requires |w| == 4 * |blocks| + |Bodies(blocks)|
      requires var from, size := ValuesWord(blocks, k), PackedWords(|tblval|, Width(tblval, blocks[k].nbit));
        err == (if DimError(from, size, buffer.Nwords()) then ERR_BAD_DIM else 0) &&
        (if err != 0 then buffer.data[..] == z
         else Rewritten(z, buffer.data[..], from, from + size, C.PackedBits(tblval, Width(tblval, blocks[k].nbit))))
      ensures HalfReplaced(k, tblval, err) && (err == 0 ==> k + 1 < |blocks|)
      ensures !IsReportWith(blocks, k, tblval)
    {
      hide AllFit, Bodies, BlockFits, Contents, Bit0, Encodable, Words64, ListWords, Stored, Width, WidenedWords;
      EncodableWidth(tblval, Width(tblval, blocks[k].nbit));
      HeadersSize(blocks);
      forall body ensures !IsReport(WithValues(blocks, k, tblval, body)) {
        if IsReport(WithValues(blocks, k, tblval, body)) { LongerReport(blocks, k, tblval, body); }
      }
      LastBlockGrows(blocks, k, Width(tblval, blocks[k].nbit), buffer.Last());
    }

    method GrowBlock(k: nat, h: BlockHeader, bitpos: nat, newNbit: nat, tblval: seq<word>) returns (ghost x: seq<word>)
      requires k < |blocks| && 1 <= newNbit <= 32 && blocks[k].nbit <= newNbit && |tblval| == |blocks[k].values|
      requires MayGrow(buffer.Last(), Growth(blocks[k], newNbit), buffer.data.Length)
      requires |blocks[k].first3| == 3 && h == HeaderOf(blocks[k], Bit0(blocks, k)) && bitpos == ValuesBit(h, |blocks|)
      requires Valid()
      modifies buffer, buffer.data
      ensures buffer.Valid() && 2 * Bit0(blocks, k) + ListWords(blocks[k]) <= |Bodies(blocks)|
      ensures |x| ==
        if DimError(old(buffer.Last()), Growth(blocks[k], newNbit), buffer.Nwords()) then 0
        else Growth(blocks[k], newNbit)
      ensures |x| == Growth(blocks[k], newNbit) ==> buffer.Used() == GrownWords(blocks, k, newNbit, x)
      ensures x == [] ==> buffer.Used() == WidenedWords(blocks, k, newNbit)
    {
      hide AllFit, Bodies, Bit0, BlockFits, HeaderOf, HeaderWordsAt, Words64, ListWords, Flatten, SetWidth, Shifted;
      hide Grown, ValuesBit;
      ValuesPlace(blocks, k, h);
      ValuesSize(blocks, k, h);
      NoneGrown(Bodies(blocks), 2 * Bit0(blocks, k) + ListWords(blocks[k]));
      x := Widen(buffer, k, buf8, bitpos, h.nbit + 1, newNbit, tblval, Headers(blocks), Bodies(blocks),
        Growth(blocks[k], newNbit));
    }

    /** `c_mrbdel`: the block is gone, the others are as they were. */
    method Del(number: int) returns (err: int)
      requires Valid()
      requires 1 <= number <= buf8 ==> RoomToCut(buffer.Last(), buffer.data.Length, blocks[number - 1])
      modifies this, buffer, buffer.data
      ensures Valid()
      ensures !(1 <= number <= old(buf8)) ==> err == BURP_ERR_BNUM && blocks == old(blocks)
      ensures 1 <= number <= old(buf8) ==>
        err == 0 && number <= |old(blocks)| && blocks == old(blocks)[..number - 1] + old(blocks)[number..]
    {
      hide AllFit, Bodies, BlockFits, Contents, Headers, Flatten;
      if number < 1 || number > buf8 { return BURP_ERR_BNUM; }
      var prebit := CutOutBlock(number - 1);
      buf8 := buf8 - 1;
      buf9 := buf9 - NBENTB;
      CloseGap(buffer, number - 1, buf8, prebit, blocks);
      WithoutFits(blocks, number - 1);
      blocks := Without(blocks, number - 1);
      err := 0;
    }

    /** Takes the list, the values and the header of a block out. */
    method CutOutBlock(k: nat) returns (prebit: nat)
      requires Valid() && k < buf8 && RoomToCut(buffer.Last(), buffer.data.Length, blocks[k])
      modifies buffer, buffer.data
      ensures buffer.Valid() && prebit == Bit0(blocks, k) && DATA_INDEX + 4 * k + 4 <= buffer.data.Length
      ensures buffer.Used() == Flatten(Headers(blocks)[..k] + Headers(blocks)[k + 1..]) + Bodies(Without(blocks, k))
    {
      hide AllFit, Bodies, Bit0, BlockFits, HeaderOf, Contents, Words64, InList, DimsOf, ListWords, Headers, Flatten;
      hide CutOut;
      ghost var b := blocks[k];
      var h := HeaderOfBlock(k);
      BlockOf(blocks, k);
      BodyParts(b, h, Bit0(blocks, k));
      Places(blocks, k);
      DeletedBlock(blocks, k, ListWords(b));
      prebit := h.bit0;
      CutBlock(buffer, NBENTB * k, h.bit0 * 64 + buf9, InList(h), DimsOf(h).nele * DimsOf(h).nval * DimsOf(h).nt,
        h.nbit + 1, ListWords(b), |b.body|);
    }
  }

  /** The blocks that follow the one that is gone start earlier: `difbit` comes from the offset
      of the first of them. */
  method CloseGap(buffer: Buffer, k: nat, count: nat, prebit: nat, ghost blocks: seq<Block>)
    requires buffer.Valid() && AllFit(blocks) && k <= count == |blocks| - 1 && prebit == Bit0(blocks, k)
    requires DATA_INDEX + 4 * k + 1 < buffer.data.Length
    requires buffer.Used() == Flatten(Headers(blocks)[..k] + Headers(blocks)[k + 1..]) + Bodies(Without(blocks, k))
    modifies buffer.data
    ensures buffer.Valid() && buffer.Used() == Contents(Without(blocks, k))
  {
    hide AllFit, Bodies, Bit0, BlockFits, Headers, Flatten, Shifted, WordsOf, InPairs;
    ghost var hs: seq<seq<word>> := Headers(blocks)[..k] + Headers(blocks)[k + 1..];
    ghost var bodies := Bodies(Without(blocks, k));
    var difbit := buffer.data[DATA_INDEX + 4 * k + 1] % 0x10_0000 - prebit;
    if k < count {
      SlotWord(hs, bodies, k, 1, 0);
      NextOffset(blocks, k);
      assert buffer.Used()[4 * k + 1] == buffer.data[DATA_INDEX + 4 * k + 1];
    } else {
      NothingShifted(hs, -difbit, -(|blocks[k].body| / 2));
    }
    ShiftOffsets(buffer, k, count, -difbit, hs, bodies);
    HeadersWithout(blocks, k);
  }

  /** The elements that are in the header. */
  method HeaderElements(h: BlockHeader, ghost b: Block, ghost bit0: nat) returns (lstele: seq<word>)
    requires BlockFits(b) && |b.first3| == 3 && h == HeaderOf(b, bit0)
    ensures b.nele >= InHeader(b.nele, b.nval, b.nt) && |b.elems| == b.nele
    ensures lstele == b.elems[..InHeader(b.nele, b.nval, b.nt)]
    ensures |b.elems[InHeader(b.nele, b.nval, b.nt)..]| == InList(h)
    ensures forall k | 0 <= k < b.nele :: b.elems[k] < 0x1_0000
  {
    hide BodyHolds, Encodable;
    lstele := [];
    if h.flag == 0 {
      if h.nele > 0 { lstele := [h.elem1]; }
      if h.nele > 1 { lstele := lstele + [h.elem2]; }
      if h.nele > 2 { lstele := lstele + [h.elem3]; }
    }
    assert forall k | 0 <= k < 3 && k < b.nele :: b.first3[k] == b.elems[k];
  }

  method NewHeader(family: nat, btyp: nat, nele: nat, nval: nat, nt: nat, inbit: nat, idatyp: nat, bit0: nat,
                   lstele: seq<word>)
    returns (h: BlockHeader)
    requires family < 0x1000 && inbit <= 32 && idatyp == 2 && bit0 < 0x10_0000 && 1 <= nele < 0x1_0000
    requires nval < 0x1_0000 && nt < 0x1_0000
    requires nele <= |lstele| && (Big(nele, nval, nt) || 3 <= |lstele|)
    ensures HeaderFits(h) && h.nbit == (inbit as int - 1) % 32 && h.bit0 == bit0 && DimsOf(h) == Dims(nele, nval, nt)
    ensures InList(h) == Remaining(Done(nele, nval, nt), nele)
    ensures inbit >= 1 ==>
      forall tblval, body :: h == HeaderOf(NewBlock(family, btyp, nele, nval, nt, inbit, lstele, tblval, body), bit0)
  {
    var nbit: int := inbit;
    if Big(nele, nval, nt) {
      h := BlockHeader(family, btyp % 0x8000, (nbit - 1) % 32, 0, idatyp, bit0, 1, GROSNELE % 0x80, 0, nele, nval, nt);
    } else {
      h := BlockHeader(family, btyp % 0x8000, (nbit - 1) % 32, nt, idatyp, bit0, 0, nele, nval, lstele[0] % 0x1_0000,
        lstele[1] % 0x1_0000,
        lstele[2] % 0x1_0000);
    }
  }
}
