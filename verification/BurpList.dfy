/** The list of elements of a block, as `c_mrbadd` lays it out: 16 bits each, two to a word. */
module BurpList {
  import opened Words
  import opened BitStream
  import opened RecordBuffer

  /** The elements from number `from` on, cut to 16 bits. */
  function Elements(lstele: seq<word>, from: nat, nele: nat): (f: seq<word>)
    requires nele <= |lstele|
    ensures |f| == Remaining(from, nele) && forall k | 0 <= k < |f| :: f[k] == lstele[from + k] % 0x1_0000
  {
    seq(Remaining(from, nele), k requires 0 <= k < Remaining(from, nele) => lstele[from + k] % 0x1_0000)
  }

  function Remaining(from: nat, nele: nat): nat
  {
    if from < nele then nele - from else 0
  }

  lemma OneMore(lstele: seq<word>, i: nat, nele: nat)
    requires i < nele <= |lstele|
    ensures TokensBits(Elements(lstele, i, nele), 16) == Bits(lstele[i] % 0x1_0000, 16) +
      TokensBits(Elements(lstele, i + 1, nele), 16)
  {
    hide Bits;
    assert Elements(lstele, i, nele)[1..] == Elements(lstele, i + 1, nele);
  }

  /** Both halves are in: the word is full. */
  lemma FullWord(flushed: seq<word>, w: word)
    ensures StreamOf(flushed, w, 0) == StreamOf(flushed + [w], 0, 32)
  {
    hide Bits;
    WordsBitsSnoc(flushed, w);
    NothingWaits(flushed + [w], 0);
    assert Bits(w, 32)[0..] == Bits(w, 32);
  }

  /** The first half alone moves to the top. */
  lemma HalfWord(flushed: seq<word>, w: word)
    ensures StreamOf(flushed, w, 16) <= WordsBits(flushed + [Shl(w, 16)])
  {
    hide Bits, Shl, WordsBits, StreamOf;
    ModUniqueInt(Pow2(16), 0, 0, 0);
    SqueezeFills(flushed, w, 16, 0);
    OrCommutes(Shl(w, 16), 0);
  }

  lemma HalfIn(flushed: seq<word>, w: word, element: word, left: nat)
    requires left in {16, 32} && (left == 32 ==> w == 0)
    ensures var joined := Or(Shl(w, 32 - left), element % 0x1_0000);
      joined < WORD_BASE && StreamOf(flushed, joined, left - 16) == StreamOf(flushed, w, left) +
        Bits(element % 0x1_0000, 16)
  {
    hide Bits, StreamOf;
    Pow2Values();
    ZeroShifted(16);
    ZeroShifted(0);
    StuffFits(flushed, w, element % 0x1_0000, 16, left);
  }

  lemma {:induction false} ZeroShifted(n: nat)
    ensures Shl(0, n) == 0
  {
    if n > 0 { ZeroShifted(n - 1); }
  }

  lemma NothingYet(w: word)
    ensures StreamOf([], w, 32) == []
  {
  }

  lemma NothingLeft(lstele: seq<word>, i: nat, nele: nat, stream: seq<bool>, all: seq<bool>)
    requires nele <= i && nele <= |lstele| && stream + TokensBits(Elements(lstele, i, nele), 16) == all
    ensures stream == all
  {
    assert TokensBits(Elements(lstele, i, nele), 16) == [];
  }

  lemma ListStored(z: seq<word>, start: nat, pos: nat, all: seq<bool>, half: bool)
    requires start <= pos < |z| && |all| == 32 * (pos - start) + (if half then 16 else 0)
    requires all <= WordsBits(z[start..if half then pos + 1 else pos])
    ensures Stored(z, start, all)
  {
    assert WordsFor(|all|) == pos - start + (if half then 1 else 0);
  }

  /** Puts one more element in the current word, and starts the next one when it is full. */
  method PutElement(data: array<word>, start: nat, pos: nat, left: nat, element: word) returns (pos': nat, left': nat)
    requires start <= pos < data.Length && left in {16, 32} && (left == 32 ==> data[pos] == 0)
    requires (left == 16 ==> pos + 1 < data.Length)
    modifies data
    ensures if left == 32 then pos' == pos && left' == 16 else pos' == pos + 1 && left' == 32 && data[pos'] == 0
    ensures StreamOf(data[start..pos'], data[pos'], left') == old(StreamOf(data[start..pos], data[pos], left)) +
      Bits(element % 0x1_0000, 16)
    ensures forall k | 0 <= k < start :: data[k] == old(data[k])
  {
    hide Bits, StreamOf, WordsBits, Or, Shl;
    HalfIn(data[start..pos], data[pos], element, left);
    ghost var flushed := data[start..pos];
    data[pos] := Or(Shl(data[pos], 32 - left), element % 0x1_0000);
    assert data[start..pos] == flushed;
    pos', left' := pos, left - 16;
    if left' == 0 {
      FullWord(flushed, data[pos]);
      assert data[start..pos + 1] == flushed + [data[pos]];
      ghost var full := data[start..pos + 1];
      pos', left' := pos + 1, 32;
      data[pos'] := 0;
      assert data[start..pos'] == full;
    }
  }

  /** Lays out the elements from number `done` on; returns how many bits, the last word full. */
  method PackList(data: array<word>, start: nat, lstele: seq<word>, done: nat, nele: nat) returns (bitsAdded: nat)
    requires nele <= |lstele| && start + Remaining(done, nele) / 2 < data.Length
    modifies data
    ensures bitsAdded == (Remaining(done, nele) + 1) / 2 * 32
    ensures Stored(data[..], start, TokensBits(Elements(lstele, done, nele), 16))
    ensures forall k | 0 <= k < start :: data[k] == old(data[k])
  {
    hide Bits, TokensBits, StreamOf, WordsBits, Or, Shl, Stored;
    ghost var all := TokensBits(Elements(lstele, done, nele), 16);
    var pos, left, i := start, 32, done;
    bitsAdded := 0;
    data[pos] := 0;
    NothingYet(data[pos]);
    assert data[start..pos] == [];
    while i < nele
      invariant done <= i && (i <= nele || i == done) && left in {16, 32}
      invariant bitsAdded == 16 * (i - done) == 32 * (pos - start) + 32 - left && pos < data.Length
      invariant left == 32 ==> data[pos] == 0
      invariant StreamOf(data[start..pos], data[pos], left) + TokensBits(Elements(lstele, i, nele), 16) == all
      invariant forall k | 0 <= k < start :: data[k] == old(data[k])
    {
      OneMore(lstele, i, nele);
      Append(StreamOf(data[start..pos], data[pos], left), Bits(lstele[i] % 0x1_0000, 16),
        TokensBits(Elements(lstele, i + 1, nele), 16), all);
      pos, left := PutElement(data, start, pos, left, lstele[i]);
      bitsAdded := bitsAdded + 16;
      i := i + 1;
    }
    NothingLeft(lstele, i, nele, StreamOf(data[start..pos], data[pos], left), all);
    if left != 32 { bitsAdded := bitsAdded + 16; }
    FillUp(data, start, pos, left, all);
  }

  /** Half a word left: the other half moves to the top. */
  method FillUp(data: array<word>, start: nat, pos: nat, left: nat, ghost all: seq<bool>)
    requires start <= pos < data.Length && left in {16, 32} && |all| == 32 * (pos - start) + 32 - left
    requires StreamOf(data[start..pos], data[pos], left) == all
    modifies data
    ensures Stored(data[..], start, all)
    ensures forall k | 0 <= k < start :: data[k] == old(data[k])
  {
    hide Bits, StreamOf, WordsBits, Shl, Stored;
    ghost var flushed := data[start..pos];
    if left != 32 {
      HalfWord(flushed, data[pos]);
      data[pos] := Shl(data[pos], 16);
      assert data[..][start..pos + 1] == flushed + [data[pos]];
    } else {
      NothingWaits(flushed, data[pos]);
      assert data[..][start..pos] == flushed;
    }
    ListStored(data[..], start, pos, all, left == 16);
  }

  lemma ListUnits(n: nat)
    ensures ((n + 1) / 2 * 32 + 63) / 64 * 64 == 32 * Words64(16 * n) && n / 2 <= Words64(16 * n)
    ensures WordsFor(16 * n) <= Words64(16 * n)
  {
    var m, r := n / 4, n % 4;
    Words64Enough(16 * n);
    if r == 0 {
      ModUnique(64, m, 63);
      ModUnique(2, 2 * m, 1);
    } else {
      ModUnique(64, m + 1, 16 * r - 1);
      ModUnique(64, m + 1, if r <= 2 then 31 else 63);
    }
  }

  /** The list goes after the last word, and takes whole 64-bit units. */
  method AppendList(buffer: Buffer, lstele: seq<word>, done: nat, nele: nat) returns (ghost list: seq<word>)
    requires buffer.Valid() && nele <= |lstele|
    requires buffer.Last() + Words64(16 * Remaining(done, nele)) < buffer.data.Length
    modifies buffer, buffer.data
    ensures buffer.Valid() && buffer.data[..DATA_INDEX] == old(buffer.data[..DATA_INDEX])
    ensures |list| == Words64(16 * Remaining(done, nele)) && buffer.nbits == old(buffer.nbits) + 32 * |list|
    ensures buffer.Used() == old(buffer.Used()) + list && Stored(list, 0, TokensBits(Elements(lstele, done, nele), 16))
  {
    hide Stored, TokensBits, Words64, WordsOf, InPairs;
    ghost var before, n := buffer.data[..], Remaining(done, nele);
    var last := WordsOf(buffer.nbits);
    ListUnits(n);
    var bitsAdded := PackList(buffer.data, last, lstele, done, nele);
    TokensBitsLength(Elements(lstele, done, nele), 16);
    StoredAlone(buffer.data[..], last, last + Words64(16 * n), TokensBits(Elements(lstele, done, nele), 16));
    WordsAfter(buffer.nbits, Words64(16 * n));
    buffer.nbits := buffer.nbits + (bitsAdded + 63) / 64 * 64;
    list := buffer.data[..][last..last + Words64(16 * n)];
    Added(before, buffer.data[..], last, last + Words64(16 * n));
  }
}
