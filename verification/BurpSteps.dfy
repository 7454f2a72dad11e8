/** What adding, deleting and replacing a block does to the words of a report. */
module BurpSteps {
  import opened Words
  import opened BitStream
  import opened BurpFormat
  import opened BurpLayout
  import opened RecordBuffer
  import C = CompactInteger

  // ----- Where things are -----

  lemma HeadersSize(blocks: seq<Block>)
    ensures |Flatten(Headers(blocks))| == 4 * |blocks| && |Contents(blocks)| == 4 * |blocks| + |Bodies(blocks)|
  {
    hide Bodies, HeaderWordsAt, Flatten;
    FlattenLength(Headers(blocks), DIMENT);
  }

  /** The header of block k is the k-th group of four words. */
  lemma HeaderIn(blocks: seq<Block>, k: nat)
    requires k < |blocks|
    ensures 4 * k + 4 <= |Contents(blocks)| && Contents(blocks)[4 * k..4 * k + 4] == HeaderWordsAt(blocks, k)
  {
    hide Bodies, HeaderWordsAt, Flatten;
    HeadersSize(blocks);
    FlattenPart(Headers(blocks), k, DIMENT, 4 * k);
    SliceOfConcat(Flatten(Headers(blocks)), Bodies(blocks), 4 * k, 4);
  }

  /** The body of block k is where its header says. */
  lemma BodyIn(blocks: seq<Block>, k: nat)
    requires k < |blocks| && AllFit(blocks)
    ensures var at := 4 * |blocks| + 2 * Bit0(blocks, k);
      at + |blocks[k].body| <= |Contents(blocks)| && Contents(blocks)[at..at + |blocks[k].body|] == blocks[k].body
  {
    hide Bodies, Headers, Flatten, BlockFits;
    HeadersSize(blocks);
    Bit0Bound(blocks, k);
    BodiesSplit(blocks, k);
    Between(Flatten(Headers(blocks)) + Bodies(blocks[..k]), blocks[k].body, Bodies(blocks[k + 1..]));
    var h, a, b, c := Flatten(Headers(blocks)), Bodies(blocks[..k]), blocks[k].body, Bodies(blocks[k + 1..]);
    assert h + (a + b + c) == h + a + b + c;
  }

  lemma Between(a: seq<word>, b: seq<word>, c: seq<word>)
    ensures (a + b + c)[|a|..|a| + |b|] == b
  {
  }

  /** Sizes of the bodies added up, in 64-bit units. */
  ghost function SizesUpTo(blocks: seq<Block>, k: nat): nat
    requires k <= |blocks|
  {
    if k == 0 then 0 else SizesUpTo(blocks, k - 1) + Size(blocks[k - 1])
  }

  /** The size of a body, from the dimensions of the block alone. */
  ghost function Size(b: Block): nat
  {
    (ListWords(b) + Words64(b.nele * b.nval * b.nt * b.nbit)) / 2
  }

  /** The list and the values, each rounded to 64 bits. */
  lemma SizeInBits(b: Block)
    ensures 64 * Size(b)
         == (16 * ListLength(b.nele, b.nval, b.nt) + 63) / 64 * 64 + (b.nele * b.nval * b.nt * b.nbit + 63) / 64 * 64
  {
    hide ListWords, ListLength, Words64;
    ListIsAsLong(b);
    HalfOfPairs(ListWords(b), b.nele * b.nval * b.nt * b.nbit);
  }

  lemma HalfOfPairs(list: nat, bits: nat)
    requires list % 2 == 0
    ensures 64 * ((list + Words64(bits)) / 2) == 32 * list + (bits + 63) / 64 * 64
  {
  }

  /** The offset of a block is the sum of the sizes of those before it. */
  lemma {:induction false} Bit0IsSum(blocks: seq<Block>, k: nat)
    requires k <= |blocks| && AllFit(blocks)
    ensures Bit0(blocks, k) == SizesUpTo(blocks, k) && |Bodies(blocks[..k])| == 2 * SizesUpTo(blocks, k)
  {
    hide BlockFits, Flatten;
    if k == 0 {
      assert Bodies(blocks[..0]) == [] by { NoBodies(); }
    } else {
      Bit0IsSum(blocks, k - 1);
      assert blocks[..k] == blocks[..k - 1] + [blocks[k - 1]];
      BodiesConcat(blocks[..k - 1], [blocks[k - 1]]);
      BodiesOne(blocks[k - 1]);
      SizeIs(blocks[k - 1]);
    }
  }

  lemma NoBodies()
    ensures Bodies([]) == []
  {
  }

  lemma SizeIs(b: Block)
    requires BlockFits(b)
    ensures |b.body| == 2 * Size(b)
  {
    hide BodyHolds, Encodable, Words64;
    BodySize(b);
    BodyEven(b);
  }

  /** Bits of a whole report. */
  lemma ReportSize(blocks: seq<Block>)
    requires AllFit(blocks)
    ensures 32 * |Contents(blocks)| == 128 * |blocks| + 64 * SizesUpTo(blocks, |blocks|)
  {
    hide BlockFits, Bodies;
    HeadersSize(blocks);
    Bit0IsSum(blocks, |blocks|);
    assert blocks[..|blocks|] == blocks;
  }

  // ----- Adding -----

  lemma HeadersOfMore(blocks: seq<Block>, b: Block)
    ensures Headers(blocks + [b]) == Headers(blocks) + [HeaderWordsAt(blocks + [b], |blocks|)]
    ensures Bit0(blocks + [b], |blocks|) == |Bodies(blocks)| / 2
  {
    hide Bodies, ToWords, HeaderFits;
    forall k | 0 <= k < |blocks| ensures HeaderWordsAt(blocks + [b], k) == HeaderWordsAt(blocks, k) {
      assert (blocks + [b])[..k] == blocks[..k];
    }
    assert (blocks + [b])[..|blocks|] == blocks;
  }

  /** The list comes last, the header after the other headers, then the values last. */
  lemma AddedBlock(blocks: seq<Block>, b: Block, list: seq<word>, header: seq<word>, values: seq<word>)
    requires b.body == list + values && header == HeaderWordsAt(blocks + [b], |blocks|)
    ensures var before, at := Contents(blocks) + list, 4 * |blocks|;
      at <= |before| && before[..at] + header + before[at..] + values == Contents(blocks + [b])
  {
    hide Bodies, HeaderWordsAt, Flatten;
    HeadersSize(blocks);
    HeadersOfMore(blocks, b);
    FlattenConcat(Headers(blocks), [header]);
    FlattenOne(header);
    BodiesConcat(blocks, [b]);
    BodiesOne(b);
    var h, c := Flatten(Headers(blocks)), Bodies(blocks);
    var before := h + c + list;
    assert before[..4 * |blocks|] == h && before[4 * |blocks|..] == c + list;
    assert h + header + (c + list) + values == (h + header) + (c + (list + values));
  }

  // ----- Offsets -----

  /** The low 20 bits of a word, a field by themselves. */
  function AddToOffset(w: word, d: int): word
  {
    w - w % 0x10_0000 + (w % 0x10_0000 + d) % 0x10_0000
  }

  function Shifted(ws: seq<word>, d: int): (r: seq<word>)
    requires |ws| == DIMENT
    ensures |r| == DIMENT
  {
    [ws[0], AddToOffset(ws[1], d), ws[2], ws[3]]
  }

  lemma ShiftedHeader(h: BlockHeader, d: int)
    requires HeaderFits(h) && 0 <= h.bit0 + d < 0x10_0000
    ensures HeaderFits(h.(bit0 := h.bit0 + d)) && Shifted(ToWords(h), d) == ToWords(h.(bit0 := h.bit0 + d))
  {
    var rest := h.datyp + 0x10 * h.nt;
    ModUnique(0x10_0000, rest, h.bit0);
    assert ToWords(h)[1] == 0x10_0000 * rest + h.bit0;
  }

  /** The headers from number `from` on, their offsets changed by d. */
  function ShiftFrom(hs: seq<seq<word>>, from: nat, d: int): (r: seq<seq<word>>)
    requires forall k | 0 <= k < |hs| :: |hs[k]| == DIMENT
    ensures |r| == |hs|
    ensures forall k | 0 <= k < |hs| :: |r[k]| == DIMENT && r[k] == if k < from then hs[k] else Shifted(hs[k], d)
  {
    seq(|hs|, k requires 0 <= k < |hs| => if k < from then hs[k] else Shifted(hs[k], d))
  }

  /** Changing one group of words. */
  lemma FlattenUpdate(hs: seq<seq<word>>, j: nat, e: seq<word>)
    requires j < |hs| && |e| == DIMENT && forall k | 0 <= k < |hs| :: |hs[k]| == DIMENT
    ensures |Flatten(hs)| == 4 * |hs| && 4 * j + 4 <= 4 * |hs|
    ensures Flatten(hs[j := e]) == Flatten(hs)[..4 * j] + e + Flatten(hs)[4 * j + 4..]
    ensures Flatten(hs)[4 * j..4 * j + 4] == hs[j]
  {
    hide Flatten;
    FlattenLength(hs, DIMENT);
    FlattenLength(hs[..j], DIMENT);
    FlattenThree(hs[..j], hs[j], hs[j + 1..]);
    FlattenThree(hs[..j], e, hs[j + 1..]);
    assert hs == hs[..j] + [hs[j]] + hs[j + 1..];
    assert hs[j := e] == hs[..j] + [e] + hs[j + 1..];
  }

  lemma FlattenThree(a: seq<seq<word>>, e: seq<word>, c: seq<seq<word>>)
    ensures Flatten(a + [e] + c) == Flatten(a) + e + Flatten(c)
  {
    hide Flatten;
    FlattenConcat(a + [e], c);
    FlattenConcat(a, [e]);
    FlattenOne(e);
  }

  function WithWord(ws: seq<word>, j: nat, w: word): (r: seq<word>)
    requires j < |ws|
    ensures |r| == |ws|
  {
    ws[j := w]
  }

  /** Changing one word of a group. */
  lemma SlotWord(hs: seq<seq<word>>, tail: seq<word>, i: nat, j: nat, w: word)
    requires i < |hs| && j < 4 && forall k | 0 <= k < |hs| :: |hs[k]| == DIMENT
    ensures 4 * i + j < |Flatten(hs) + tail| && (Flatten(hs) + tail)[4 * i + j] == hs[i][j]
    ensures (Flatten(hs) + tail)[4 * i + j := w] == Flatten(hs[i := WithWord(hs[i], j, w)]) + tail
  {
    hide Flatten;
    var e := WithWord(hs[i], j, w);
    FlattenUpdate(hs, i, e);
    OneSlot(Flatten(hs), 4 * i, hs[i], e, Flatten(hs[i := e]), j, w);
    InFront(Flatten(hs), tail, 4 * i + j, w);
  }

  lemma OneSlot(f: seq<word>, at: nat, old4: seq<word>, e: seq<word>, g: seq<word>, j: nat, w: word)
    requires at + 4 <= |f| && f[at..at + 4] == old4 && j < 4 && e == WithWord(old4, j, w)
    requires g == f[..at] + e + f[at + 4..]
    ensures g == f[at + j := w] && f[at + j] == old4[j]
  {
  }

  lemma InFront(f: seq<word>, tail: seq<word>, i: nat, w: word)
    requires i < |f|
    ensures (f + tail)[i] == f[i] && (f + tail)[i := w] == f[i := w] + tail
  {
  }

  // ----- Deleting -----

  ghost function Without(blocks: seq<Block>, k: nat): seq<Block>
    requires k < |blocks|
  {
    blocks[..k] + blocks[k + 1..]
  }

  lemma WithoutFits(blocks: seq<Block>, k: nat)
    requires AllFit(blocks) && k < |blocks|
    ensures AllFit(Without(blocks, k)) && Bodies(Without(blocks, k)) == Bodies(blocks[..k]) + Bodies(blocks[k + 1..])
  {
    hide BlockFits, Bodies;
    BodiesSplit(blocks, k);
    BodiesConcat(blocks[..k], blocks[k + 1..]);
  }

  /** Blocks that follow start earlier by the size of the one that is gone. */
  lemma Bit0Without(blocks: seq<Block>, k: nat, i: nat)
    requires AllFit(blocks) && k < |blocks| && i < |blocks| - 1
    ensures Bit0(Without(blocks, k), i) == if i < k then Bit0(blocks, i) else Bit0(blocks, i + 1) - |blocks[k].body| / 2
  {
    hide BlockFits, Bodies;
    var rest := Without(blocks, k);
    if i < k {
      assert rest[..i] == blocks[..i];
    } else {
      var upTo := blocks[..i + 1];
      assert upTo[..k] == blocks[..k] && upTo[k + 1..] == blocks[k + 1..i + 1] && upTo[k] == blocks[k];
      assert rest[..i] == blocks[..k] + blocks[k + 1..i + 1];
      BodiesSplit(upTo, k);
      BodiesConcat(blocks[..k], blocks[k + 1..i + 1]);
      BodyEven(blocks[k]);
    }
  }

  lemma HeadersWithout(blocks: seq<Block>, k: nat)
    requires AllFit(blocks) && k < |blocks|
    ensures ShiftFrom(Headers(blocks)[..k] + Headers(blocks)[k + 1..], k, -(|blocks[k].body| / 2)) ==
      Headers(Without(blocks, k))
  {
    hide BlockFits, Bodies, ToWords, Shifted, HeaderOf, HeaderFits, HeaderWordsAt, AllFit;
    WithoutFits(blocks, k);
    var rest, d := Without(blocks, k), -(|blocks[k].body| / 2);
    var hs: seq<seq<word>> := Headers(blocks);
    forall i | 0 <= i < |rest|
      ensures Headers(rest)[i] == ShiftFrom(hs[..k] + hs[k + 1..], k, d)[i]
    {
      assert (hs[..k] + hs[k + 1..])[i] == if i < k then hs[i] else hs[i + 1];
      if i < k { HeaderBefore(blocks, rest, i); } else { HeaderAfter(blocks, k, i, d); }
    }
  }

  /** A header stays as it is when nothing before it changes. */
  lemma HeaderBefore(blocks: seq<Block>, after: seq<Block>, i: nat)
    requires i < |blocks| && i < |after| && blocks[..i] == after[..i] && blocks[i] == after[i]
    ensures HeaderWordsAt(blocks, i) == HeaderWordsAt(after, i)
  {
    hide Bodies, ToWords, HeaderFits;
  }

  lemma HeaderAfter(blocks: seq<Block>, k: nat, i: nat, d: int)
    requires AllFit(blocks) && k < |blocks| && k <= i < |blocks| - 1 && d == -(|blocks[k].body| / 2)
    ensures HeaderWordsAt(Without(blocks, k), i) == Shifted(HeaderWordsAt(blocks, i + 1), d)
  {
    hide AllFit, BlockFits, Bodies, ToWords, Shifted, HeaderFits, OfWords, HeaderWordsAt, Bit0;
    WithoutFits(blocks, k);
    Bit0Without(blocks, k, i);
    MovedHeader(blocks, i + 1, Without(blocks, k), i, d);
  }

  /** The same block somewhere else has the same header but for its offset. */
  lemma MovedHeader(blocks: seq<Block>, j: nat, after: seq<Block>, i: nat, d: int)
    requires AllFit(blocks) && j < |blocks| && AllFit(after) && i < |after| && after[i] == blocks[j]
    requires Bit0(after, i) == Bit0(blocks, j) + d
    ensures HeaderWordsAt(after, i) == Shifted(HeaderWordsAt(blocks, j), d)
  {
    hide AllFit, BlockFits, Bodies, ToWords, Shifted, HeaderFits, OfWords, HeaderWordsAt, Bit0;
    HeaderAt(after, i);
    HeaderAt(blocks, j);
    Bit0Bound(after, i);
    ShiftedHeader(HeaderOf(blocks[j], Bit0(blocks, j)), d);
  }

  /** The body goes, in two parts, then the header. */
  lemma DeletedBlock(blocks: seq<Block>, k: nat, list: nat)
    requires AllFit(blocks) && k < |blocks| && list <= |blocks[k].body|
    ensures var u, at, rest := Contents(blocks), 4 * |blocks| + 2 * Bit0(blocks, k), |blocks[k].body| - list;
      at + |blocks[k].body| <= |u| && 4 * k + 4 <= at && CutOut(CutOut(CutOut(u, at, list), at, rest), 4 * k, 4)
        == Flatten(Headers(blocks)[..k] + Headers(blocks)[k + 1..]) + Bodies(Without(blocks, k))
  {
    hide BlockFits, Bodies, Headers, Flatten;
    BodyIn(blocks, k);
    HeadersSize(blocks);
    BodiesSplit(blocks, k);
    WithoutFits(blocks, k);
    Bit0Bound(blocks, k);
    var hs := Headers(blocks);
    FlattenThree(hs[..k], hs[k], hs[k + 1..]);
    assert hs == hs[..k] + [hs[k]] + hs[k + 1..];
    FlattenConcat(hs[..k], hs[k + 1..]);
    FlattenLength(hs[..k], DIMENT);
    TwoParts(Flatten(hs[..k]), hs[k], Flatten(hs[k + 1..]), Bodies(blocks[..k]), blocks[k].body,
      Bodies(blocks[k + 1..]), list);
  }

  lemma TwoParts(h1: seq<word>, h: seq<word>, h2: seq<word>, b1: seq<word>, b: seq<word>, b2: seq<word>, list: nat)
    requires list <= |b| && |h| == 4
    ensures var u, at, rest := h1 + h + h2 + (b1 + b + b2), |h1| + 4 + |h2| + |b1|, |b| - list;
      CutOut(CutOut(CutOut(u, at, list), at, rest), |h1|, 4) == (h1 + h2) + (b1 + b2)
  {
    var u, at, rest := h1 + h + h2 + (b1 + b + b2), |h1| + 4 + |h2| + |b1|, |b| - list;
    var u1 := CutOut(u, at, list);
    var u2 := CutOut(u1, at, rest);
    assert u[..at] == h1 + h + h2 + b1;
    assert u[at + list..] == b[list..] + b2;
    assert u1[at + rest..] == b2;
    assert u2 == h1 + h + h2 + b1 + b2;
  }

  // ----- Replacing -----

  lemma Bit0Replaced(blocks: seq<Block>, k: nat, b: Block, i: nat)
    requires AllFit(blocks) && k < |blocks| && i < |blocks| && BlockFits(b)
    ensures Bit0(blocks[k := b], i) ==
      if i <= k then Bit0(blocks, i) else Bit0(blocks, i) + |b.body| / 2 - |blocks[k].body| / 2
  {
    hide BlockFits, Bodies;
    var after := blocks[k := b];
    if i <= k {
      assert after[..i] == blocks[..i];
    } else {
      assert after[..i][..k] == blocks[..i][..k] && after[..i][k + 1..] == blocks[..i][k + 1..];
      BodiesSplit(blocks[..i], k);
      BodiesSplit(after[..i], k);
      BodyEven(blocks[k]);
      BodyEven(b);
    }
  }

  lemma BodiesReplaced(blocks: seq<Block>, k: nat, b: Block)
    requires k < |blocks|
    ensures Bodies(blocks[k := b]) == Bodies(blocks[..k]) + b.body + Bodies(blocks[k + 1..])
  {
    hide Bodies;
    BodiesSplit(blocks[k := b], k);
    assert blocks[k := b][..k] == blocks[..k] && blocks[k := b][k + 1..] == blocks[k + 1..];
  }

  lemma HeadersReplaced(blocks: seq<Block>, k: nat, b: Block, after: seq<Block>, hs: seq<seq<word>>, d: int)
    requires k < |blocks| && after == blocks[k := b] && AllFit(blocks) && AllFit(after)
    requires d == |b.body| / 2 - |blocks[k].body| / 2
    requires hs == Headers(blocks)[k := HeaderWordsAt(after, k)]
    ensures (forall i | 0 <= i < |hs| :: |hs[i]| == DIMENT) && ShiftFrom(hs, k + 1, d) == Headers(after)
  {
    hide BlockFits, Bodies, ToWords, Shifted, HeaderOf, HeaderFits, HeaderWordsAt, Bit0;
    assert BlockFits(after[k]);
    forall i | 0 <= i < |after|
      ensures Headers(after)[i] == ShiftFrom(hs, k + 1, d)[i]
    {
      if i < k {
        assert after[..i] == blocks[..i];
        HeaderBefore(blocks, after, i);
      } else if i > k {
        Bit0Replaced(blocks, k, b, i);
        MovedHeader(blocks, i, after, i, d);
      }
    }
  }

  /** The low 5 bits of a word, a field by themselves. */
  function SetWidth(w: word, n: nat): word
    requires n < 32
  {
    w - w % 0x20 + n
  }

  lemma NewWidth(h: BlockHeader, n: nat)
    requires HeaderFits(h) && n < 32
    ensures WithWord(ToWords(h), 0, SetWidth(ToWords(h)[0], n)) == ToWords(h.(nbit := n))
    ensures ToWords(h)[0] % 0x20 == h.nbit
  {
    ModUnique(0x20, h.btyp + 0x8000 * h.bfamdesc, h.nbit);
    assert ToWords(h)[0] == 0x20 * (h.btyp + 0x8000 * h.bfamdesc) + h.nbit;
  }

  /** Only the width in the header of a widened block changes. */
  lemma WidenedHeader(blocks: seq<Block>, k: nat, b: Block, after: seq<Block>)
    requires k < |blocks| && AllFit(blocks) && after == blocks[k := b] && AllFit(after)
    requires b == blocks[k].(nbit := b.nbit, values := b.values, body := b.body) && 1 <= b.nbit <= 32
    ensures HeaderWordsAt(after, k) ==
      WithWord(HeaderWordsAt(blocks, k), 0, SetWidth(HeaderWordsAt(blocks, k)[0], b.nbit - 1))
  {
    hide AllFit, Bodies, ToWords, OfWords, SetWidth, HeaderWordsAt, HeaderFits, Bit0;
    HeaderAt(blocks, k);
    HeaderAt(after, k);
    SameStart(blocks, after, k);
    NewWidth(HeaderOf(blocks[k], Bit0(blocks, k)), b.nbit - 1);
  }

  lemma SameStart(blocks: seq<Block>, after: seq<Block>, k: nat)
    requires k < |blocks| == |after| && forall i | 0 <= i < k :: after[i] == blocks[i]
    ensures Bit0(after, k) == Bit0(blocks, k)
  {
    hide Bodies;
    assert after[..k] == blocks[..k];
  }

  /** A header read back tells the block. */
  lemma HeaderTells(blocks: seq<Block>, k: nat, ws: seq<word>)
    requires AllFit(blocks) && k < |blocks| && |Contents(blocks)| >= 4 * k + 4
    requires ws == Contents(blocks)[4 * k..4 * k + 4]
    ensures |blocks[k].first3| == 3 && OfWords(ws) == HeaderOf(blocks[k], Bit0(blocks, k))
  {
    hide AllFit, Bodies, Bit0, OfWords, HeaderWordsAt, ToWords, HeaderOf, HeaderFits, Contents;
    HeaderIn(blocks, k);
    HeaderAt(blocks, k);
  }

  /** Words that come in. */
  function Grown(u: seq<word>, at: nat, x: seq<word>): (r: seq<word>)
    requires at <= |u|
    ensures |r| == |u| + |x|
  {
    u[..at] + x + u[at..]
  }

  lemma GrownLater(h: seq<word>, u: seq<word>, at: nat, x: seq<word>)
    requires at <= |u|
    ensures Grown(h + u, |h| + at, x) == h + Grown(u, at, x)
  {
    assert (h + u)[..|h| + at] == h + u[..at];
    assert (h + u)[|h| + at..] == u[at..];
  }

  /** The words that a wider block leaves: its list, and the values packed again. */
  lemma ReplacedWords(h: seq<word>, b1: seq<word>, body: seq<word>, b2: seq<word>, list: nat, x: seq<word>,
                      u: seq<word>, from: nat, to: nat)
    requires list <= |body| && from == |h| + |b1| + list && to == |h| + |b1| + |body| + |x| && |u| == to + |b2|
    requires var w := h + Grown(b1 + body + b2, |b1| + list, x); u[..from] == w[..from] && u[to..] == w[to..]
    ensures u == h + (b1 + (body[..list] + u[from..to]) + b2)
  {
    var g := Grown(b1 + body + b2, |b1| + list, x);
    assert g == b1 + body[..list] + x + body[list..] + b2;
    assert (h + g)[..from] == h + b1 + body[..list];
    assert (h + g)[to..] == b2;
    assert u == u[..from] + u[from..to] + u[to..];
  }

  lemma ReplacedFits(blocks: seq<Block>, k: nat, b: Block)
    requires AllFit(blocks) && k < |blocks| && BlockFits(b)
    requires |Bodies(blocks)| + |b.body| - |blocks[k].body| < 0x20_0000
    ensures AllFit(blocks[k := b])
  {
    hide BlockFits, Bodies;
    BodiesReplaced(blocks, k, b);
    BodiesSplit(blocks, k);
  }

  /** The headers of the report with a block widened, */
  lemma ReplacedHeaders(blocks: seq<Block>, k: nat, b: Block, d: nat, hs: seq<seq<word>>)
    requires AllFit(blocks) && k < |blocks| && AllFit(blocks[k := b]) && BlockFits(b)
    requires 2 * d == |b.body| - |blocks[k].body|
    requires b == blocks[k].(nbit := b.nbit, values := b.values, body := b.body) && 1 <= b.nbit <= 32
    requires hs ==
      Headers(blocks)[k := WithWord(HeaderWordsAt(blocks, k), 0, SetWidth(HeaderWordsAt(blocks, k)[0], b.nbit - 1))]
    ensures (forall i | 0 <= i < |hs| :: |hs[i]| == DIMENT) && ShiftFrom(hs, k + 1, d) == Headers(blocks[k := b])
  {
    hide BlockFits, Bodies, HeaderWordsAt, ToWords, SetWidth, AllFit;
    WidenedHeader(blocks, k, b, blocks[k := b]);
    BodyEven(b);
    HeadersReplaced(blocks, k, b, blocks[k := b], hs, d);
  }

  /** and its words. */
  lemma ReplacedReport(blocks: seq<Block>, k: nat, b: Block, x: seq<word>, u: seq<word>, list: nat, from: nat, to: nat)
    requires AllFit(blocks) && k < |blocks| && |x| == |b.body| - |blocks[k].body| && list <= |blocks[k].body|
    requires from == 4 * |blocks| + 2 * Bit0(blocks, k) + list && to == 4 * |blocks| + 2 * Bit0(blocks, k) + |b.body|
    requires from <= to <= |u| == 4 * |blocks| + |Bodies(blocks)| + |x|
    requires 2 * Bit0(blocks, k) + list <= |Bodies(blocks)|
    requires b.body == blocks[k].body[..list] + u[from..to]
    requires var w := Flatten(Headers(blocks[k := b])) + Grown(Bodies(blocks), 2 * Bit0(blocks, k) + list, x);
      |w| == |u| && u[..from] == w[..from] && u[to..] == w[to..]
    ensures u == Contents(blocks[k := b])
  {
    hide Bodies, Headers, Flatten, Grown, Bit0, AllFit;
    var after := blocks[k := b];
    var h, b1, body, b2 := Flatten(Headers(after)), Bodies(blocks[..k]), blocks[k].body, Bodies(blocks[k + 1..]);
    assert |h| == 4 * |blocks| by { HeadersSize(after); }
    assert |b1| == 2 * Bit0(blocks, k) by { Bit0Bound(blocks, k); }
    assert Bodies(blocks) == b1 + body + b2 by { BodiesSplit(blocks, k); }
    ReplacedWords(h, b1, body, b2, list, x, u, from, to);
    assert Bodies(after) == b1 + b.body + b2 by { BodiesReplaced(blocks, k, b); }
  }
}
