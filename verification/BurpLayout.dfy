/** What a report buffer holds: after the record header come the headers of the blocks, then
    their bodies one after the other.  A body is the list of elements that does not fit in
    the header, then the packed values, each rounded up to 64 bits. */
module BurpLayout {
  import opened Words
  import opened BitStream
  import opened BurpFormat
  import opened RecordBuffer
  import C = CompactInteger

  /** A block with its words in the buffer; `first3` are the elements as its header has them,
      which are left over from the caller's list when there are fewer than three. */
  datatype Block = Block(bfamdesc: nat, btyp: nat, nele: nat, nval: nat, nt: nat, nbit: nat, elems: seq<word>,
                         first3: seq<word>, values: seq<word>, body: seq<word>)

  predicate Big(nele: nat, nval: nat, nt: nat)
  {
    nele >= GROSNELE || nval >= GROSDIM || nt >= GROSDIM
  }

  /** Elements that are in the header. */
  function InHeader(nele: nat, nval: nat, nt: nat): nat
  {
    if Big(nele, nval, nt) then 0 else if nele < 3 then nele else 3
  }

  function ListWords(b: Block): nat
  {
    Words64(16 * (b.nele - InHeader(b.nele, b.nval, b.nt)))
  }

  ghost function ListBits(b: Block): seq<bool>
    requires |b.elems| == b.nele
  {
    TokensBits(b.elems[InHeader(b.nele, b.nval, b.nt)..], 16)
  }

  /** The body holds the elements and the values. */
  ghost predicate BodyHolds(b: Block)
    requires |b.elems| == b.nele && b.nbit <= 32
  {
    |b.body| == ListWords(b) + Words64(|b.values| * b.nbit) &&
    Stored(b.body, 0, ListBits(b)) && Stored(b.body, ListWords(b), C.PackedBits(b.values, b.nbit))
  }

  ghost predicate Dimensions(b: Block)
  {
    1 <= b.nele < 0x1_0000 && 1 <= b.nval < 0x1_0000 && 1 <= b.nt < 0x1_0000 && b.bfamdesc < 0x1000 &&
      b.btyp < 0x8000 &&
    |b.elems| == b.nele && |b.first3| == 3 && (forall k | 0 <= k < 3 && k < b.nele :: b.first3[k] == b.elems[k]) &&
    (forall k | 0 <= k < b.nele :: b.elems[k] < 0x1_0000) && (forall k | 0 <= k < 3 :: b.first3[k] < 0x1_0000) &&
    |b.values| == b.nele * b.nval * b.nt
  }

  ghost predicate BlockFits(b: Block)
  {
    Dimensions(b) && Encodable(b.values, b.nbit) && BodyHolds(b)
  }

  /** The header of a block whose body starts at that many 64-bit units. */
  function HeaderOf(b: Block, bit0: nat): BlockHeader
    requires |b.first3| == 3
  {
    if Big(b.nele, b.nval, b.nt)
    then BlockHeader(b.bfamdesc, b.btyp, Minus1(b.nbit), 0, 2, bit0, 1, GROSNELE % 0x80, 0, b.nele, b.nval, b.nt)
    else BlockHeader(b.bfamdesc, b.btyp, Minus1(b.nbit), b.nt, 2, bit0, 0, b.nele, b.nval, b.first3[0], b.first3[1],
      b.first3[2])
  }

  /** Elements in the list of a block: all of them with large dimensions, and otherwise those after the
      third. */
  function ListLength(nele: nat, nval: nat, nt: nat): nat
  {
    if nele >= 128 || nval >= 256 || nt >= 256 then nele else if nele > 3 then nele - 3 else 0
  }

  /** What a header says, by the dimensions of its block. */
  predicate HeaderSays(h: BlockHeader, nele: nat, nval: nat, nt: nat, elems: seq<word>)
    requires |elems| == nele
  {
    if nele >= 128 || nval >= 256 || nt >= 256
    then h.flag == 1 && h.elem1 == nele && h.elem2 == nval && h.elem3 == nt
    else
      h.flag == 0 && h.nele == nele && h.nval == nval && h.nt == nt &&
      (nele >= 1 ==> h.elem1 == elems[0]) && (nele >= 2 ==> h.elem2 == elems[1]) && (nele >= 3 ==> h.elem3 == elems[2])
  }

  lemma HeaderIsAsSaid(b: Block, bit0: nat)
    requires Dimensions(b) && 1 <= b.nbit
    ensures var h := HeaderOf(b, bit0);
      HeaderSays(h, b.nele, b.nval, b.nt, b.elems) && h.bfamdesc == b.bfamdesc && h.btyp == b.btyp &&
      h.nbit == b.nbit - 1 && h.datyp == 2 && h.bit0 == bit0
  {
  }

  lemma ListIsAsLong(b: Block)
    ensures ListWords(b) * 32 == (16 * ListLength(b.nele, b.nval, b.nt) + 63) / 64 * 64
  {
  }

  function Minus1(x: nat): nat
  {
    if x == 0 then 0 else x - 1
  }

  lemma HeaderOfFits(b: Block, bit0: nat)
    requires BlockFits(b) && bit0 < 0x10_0000
    ensures HeaderFits(HeaderOf(b, bit0)) && OfWords(ToWords(HeaderOf(b, bit0))) == HeaderOf(b, bit0)
  {
    hide BodyHolds, Encodable, OfWords, ToWords;
    assert HeaderFits(HeaderOf(b, bit0)) by { EncodableWidth(b.values, b.nbit); }
    HeaderReadBack(HeaderOf(b, bit0));
  }

  lemma CanTell(b: Block)
    requires BlockFits(b)
    ensures Encodable(b.values, b.nbit) && 1 <= b.nbit <= 32
  {
    EncodableWidth(b.values, b.nbit);
  }

  // ----- Headers and bodies one after the other -----

  ghost function BodiesOf(blocks: seq<Block>): (ws: seq<seq<word>>)
    ensures |ws| == |blocks| && forall k | 0 <= k < |blocks| :: ws[k] == blocks[k].body
  {
    seq(|blocks|, k requires 0 <= k < |blocks| => blocks[k].body)
  }

  ghost function Bodies(blocks: seq<Block>): seq<word>
  {
    Flatten(BodiesOf(blocks))
  }

  /** Where the body of block k starts, in 64-bit units. */
  ghost function Bit0(blocks: seq<Block>, k: nat): nat
    requires k <= |blocks|
  {
    |Bodies(blocks[..k])| / 2
  }

  lemma BodiesConcat(a: seq<Block>, b: seq<Block>)
    ensures Bodies(a + b) == Bodies(a) + Bodies(b)
  {
    hide Flatten;
    assert BodiesOf(a + b) == BodiesOf(a) + BodiesOf(b);
    FlattenConcat(BodiesOf(a), BodiesOf(b));
  }

  lemma BodiesOne(b: Block)
    ensures Bodies([b]) == b.body
  {
    hide Flatten;
    assert BodiesOf([b]) == [b.body];
    FlattenOne(b.body);
  }

  lemma SplitAt<T>(s: seq<T>, k: nat)
    requires k < |s|
    ensures s == s[..k] + [s[k]] + s[k + 1..]
  {
  }

  /** The body of a block among the others. */
  lemma BodiesSplit(blocks: seq<Block>, k: nat)
    requires k < |blocks|
    ensures Bodies(blocks) == Bodies(blocks[..k]) + blocks[k].body + Bodies(blocks[k + 1..])
  {
    hide Bodies;
    var one := [blocks[k]];
    SplitAt(blocks, k);
    BodiesConcat(blocks[..k] + one, blocks[k + 1..]);
    BodiesConcat(blocks[..k], one);
    BodiesOne(blocks[k]);
  }

  ghost predicate AllFit(blocks: seq<Block>)
  {
    (forall k | 0 <= k < |blocks| :: BlockFits(blocks[k])) && |Bodies(blocks)| < 0x20_0000
  }

  /** Bodies take whole 64-bit units, and start within reach of a header. */
  lemma {:induction false} BodiesEven(blocks: seq<Block>)
    requires forall k | 0 <= k < |blocks| :: BlockFits(blocks[k])
    ensures |Bodies(blocks)| % 2 == 0
  {
    hide BlockFits;
    if blocks != [] {
      var n := |blocks| - 1;
      BodiesEven(blocks[..n]);
      BodyEven(blocks[n]);
      assert BodiesOf(blocks)[..n] == BodiesOf(blocks[..n]);
    }
  }

  lemma BodyEven(b: Block)
    requires BlockFits(b)
    ensures |b.body| % 2 == 0
  {
    hide BlockFits, Words64, InHeader;
    BodySize(b);
    EvenWords(16 * (b.nele - InHeader(b.nele, b.nval, b.nt)), |b.values| * b.nbit);
  }

  lemma BodySize(b: Block)
    requires BlockFits(b)
    ensures b.nele >= InHeader(b.nele, b.nval, b.nt) && |b.body| == ListWords(b) + Words64(|b.values| * b.nbit)
  {
    hide Words64, Stored, ListBits;
  }

  lemma EvenWords(x: nat, y: nat)
    ensures (Words64(x) + Words64(y)) % 2 == 0
  {
  }

  lemma Bit0Bound(blocks: seq<Block>, k: nat)
    requires AllFit(blocks) && k <= |blocks|
    ensures |Bodies(blocks[..k])| == 2 * Bit0(blocks, k) && Bit0(blocks, k) < 0x10_0000
    ensures |Bodies(blocks[..k])| <= |Bodies(blocks)|
  {
    hide BlockFits;
    assert blocks == blocks[..k] + blocks[k..];
    BodiesConcat(blocks[..k], blocks[k..]);
    BodiesEven(blocks[..k]);
  }

  ghost function HeaderWordsAt(blocks: seq<Block>, k: nat): (ws: seq<word>)
    requires k < |blocks|
    ensures |ws| == DIMENT
  {
    var b, bit0 := blocks[k], Bit0(blocks, k);
    if |b.first3| == 3 && HeaderFits(HeaderOf(b, bit0)) then ToWords(HeaderOf(b, bit0)) else [0, 0, 0, 0]
  }

  /** The headers of the blocks. */
  ghost function Headers(blocks: seq<Block>): (hs: seq<seq<word>>)
    ensures |hs| == |blocks| && forall k | 0 <= k < |blocks| :: hs[k] == HeaderWordsAt(blocks, k)
  {
    seq(|blocks|, k requires 0 <= k < |blocks| => HeaderWordsAt(blocks, k))
  }

  lemma HeaderAt(blocks: seq<Block>, k: nat)
    requires AllFit(blocks) && k < |blocks|
    ensures |blocks[k].first3| == 3
    ensures var h := HeaderOf(blocks[k], Bit0(blocks, k));
      HeaderFits(h) && HeaderWordsAt(blocks, k) == ToWords(h) && OfWords(ToWords(h)) == h
  {
    hide BodyHolds, Encodable, ToWords, OfWords, Bodies;
    Bit0Bound(blocks, k);
    HeaderOfFits(blocks[k], Bit0(blocks, k));
  }

  /** All the words after the record header. */
  ghost function Contents(blocks: seq<Block>): seq<word>
  {
    Flatten(Headers(blocks)) + Bodies(blocks)
  }
}
