/** A record in memory, and the operations that put data in it, take them out and replace
    them (`c_xdfins`, `c_xdfadd`, `c_xdfcut`, `c_xdfrep`, `c_xdfxtr`), for whole words (data
    type 0) and unsigned integers (data type 2). */
module RecordBuffer {
  import opened Words
  import opened BitStream
  import C = CompactInteger

  const ERR_BAD_ADDR: int := -18
  const ERR_BAD_DIM: int := -19

  /** Words of the description of a buffer, that its dimension counts with those of the data. */
  const HEAD_WORDS: nat := 9

  /** Words of the keys, before the data. */
  const DATA_INDEX: nat := 10

  /** Words of that many bits rounded up to 64. */
  function Words64(bits: nat): (n: nat)
    ensures n % 2 == 0
  {
    (bits + 63) / 64 * 2
  }

  /** Words that as many values take on that many bits each. */
  function PackedWords(count: nat, width: nat): (n: nat)
  {
    Words64(count * width)
  }

  lemma Words64Enough(bits: nat)
    ensures WordsFor(bits) <= Words64(bits) && Words64(bits) % 2 == 0
  {
    var q, h := (bits + 63) / 64, (bits + 31) / 32;
    DivMod(bits + 63, 64);
    DivMod(bits + 31, 32);
    assert bits <= 64 * q;
    assert 32 * h <= 32 * (2 * q) + 31;
  }

  /** What is stored in a run of words is stored in the run by itself, */
  lemma StoredAlone(z: seq<word>, start: nat, end: nat, bits: seq<bool>)
    requires Stored(z, start, bits) && start + WordsFor(|bits|) <= end <= |z|
    ensures Stored(z[start..end], 0, bits)
  {
    hide WordsBits;
    assert z[start..end][0..0 + WordsFor(|bits|)] == z[start..start + WordsFor(|bits|)];
  }

  /** and the other way round. */
  lemma StoredWithin(z: seq<word>, start: nat, at: nat, end: nat, bits: seq<bool>)
    requires start + at <= end <= |z| && Stored(z[start..end], at, bits)
    ensures Stored(z, start + at, bits)
  {
    hide WordsBits;
    SliceOfSlice(z, start, at, at + WordsFor(|bits|), end);
  }

  lemma SliceOfSlice(z: seq<word>, start: nat, from: nat, to: nat, end: nat)
    requires from <= to && start + to <= end <= |z|
    ensures z[start..end][from..to] == z[start + from..start + to]
  {
    var a, b := z[start..end][from..to], z[start + from..start + to];
    assert |a| == |b|;
    assert forall k | 0 <= k < to - from :: a[k] == b[k];
  }

  /** The number of words of that many bits, */
  function WordsOf(nbits: nat): nat
  {
    nbits / 32
  }

  /** which come in pairs. */
  predicate InPairs(nbits: nat)
  {
    nbits % 64 == 0
  }

  lemma WordsAfter(nbits: nat, n: nat)
    requires InPairs(nbits) && n % 2 == 0
    ensures InPairs(nbits + 32 * n) && WordsOf(nbits + 32 * n) == WordsOf(nbits) + n
  {
    var pairs, more := nbits / 64, nbits / 64 + n / 2;
    DivMod(nbits, 64);
    DivMod(n, 2);
    ModUnique(32, 2 * pairs, 0);
    ModUnique(64, more, 0);
    ModUnique(32, 2 * more, 0);
  }

  lemma WordsBefore(nbits: nat, n: nat)
    requires InPairs(nbits) && n % 2 == 0 && n <= WordsOf(nbits)
    ensures 32 * n <= nbits && InPairs(nbits - 32 * n) && WordsOf(nbits - 32 * n) == WordsOf(nbits) - n
  {
    var pairs, fewer := nbits / 64, nbits / 64 - n / 2;
    DivMod(nbits, 64);
    DivMod(n, 2);
    ModUnique(32, 2 * pairs, 0);
    ModUnique(64, fewer, 0);
    ModUnique(32, 2 * fewer, 0);
  }

  /** Without n of the words. */
  function CutOut(u: seq<word>, at: nat, n: nat): (r: seq<word>)
    requires at + n <= |u|
    ensures |r| == |u| - n
  {
    u[..at] + u[at + n..]
  }

  /** The check on the dimension of a buffer, before n words are written from a word on. */
  predicate DimError(from: nat, n: int, nwords: nat)
  {
    from + n - 1 > nwords
  }

  /** A check that passes keeps the words inside the data if and only if they end ten words before
      the check begins to fail. */
  lemma DimCheckIff(from: nat, n: nat, length: nat)
    ensures !DimError(from, n, length + HEAD_WORDS) ==>
      (from + n <= length <==> !DimError(from, n + HEAD_WORDS + 1, length + HEAD_WORDS))
    ensures !DimError(from, n, length + HEAD_WORDS) && from + n > length <==>
      length < from + n <= length + HEAD_WORDS + 1
  {
  }

  /** A full buffer: the check lets two more words through. */
  lemma FullBuffer(length: nat)
    ensures !DimError(length, 2, length + HEAD_WORDS) && length + 2 > length
  {
  }

  /** The words are inside the data, or the check refuses them.  The words that pass the check and
      are not inside the data are past the end of the array. */
  predicate MayWrite(from: nat, n: nat, length: nat)
  {
    from + n <= length || DimError(from, n, length + HEAD_WORDS)
  }

  /** Only the words of a run change, to the given bits. */
  ghost predicate Rewritten(z: seq<word>, z': seq<word>, from: nat, to: nat, bits: seq<bool>)
  {
    from <= to <= |z| == |z'| && (forall k | 0 <= k < |z| && (k < from || to <= k) :: z'[k] == z[k]) &&
      Stored(z'[from..to], 0, bits)
  }

  class Buffer {
    const data: array<word>
    var nbits: nat

    ghost predicate Valid()
      reads this
    {
      InPairs(nbits) && DATA_INDEX <= Last() <= data.Length
    }

    /** The dimension that the caller gave. */
    function Nwords(): nat
    {
      data.Length + HEAD_WORDS
    }

    function Last(): nat
      reads this
    {
      WordsOf(nbits)
    }

    /** The words after the keys. */
    ghost function Used(): (s: seq<word>)
      requires Valid()
      reads this, data
      ensures |s| == Last() - DATA_INDEX
    {
      data[DATA_INDEX..Last()]
    }

    constructor (nwords: nat)
      requires DATA_INDEX <= nwords
      ensures Valid() && fresh(data) && data.Length == nwords && Used() == []
    {
      data := new word[nwords](_ => 0);
      nbits := 32 * DATA_INDEX;
    }

    /** Moves words index..last to the right, the last one first. */
    method ShiftRight(index: nat, last: nat, nbwords: nat)
      requires 1 <= nbwords && index <= last && last + nbwords < data.Length
      modifies data
      ensures forall k | index <= k <= last :: data[k + nbwords] == old(data[k])
      ensures forall k | 0 <= k < index :: data[k] == old(data[k])
    {
      var i: int := last;
      while i >= index
        invariant index - 1 <= i <= last
        invariant forall k | i < k <= last :: data[k + nbwords] == old(data[k])
        invariant forall k | 0 <= k <= i :: data[k] == old(data[k])
      {
        data[i + nbwords] := data[i];
        i := i - 1;
      }
    }

    /** Moves words from the right to index..last, the first one first. */
    method ShiftLeft(index: nat, last: nat, nbwords: nat)
      requires index <= last && last + nbwords < data.Length
      modifies data
      ensures forall k | index <= k <= last :: data[k] == old(data[k + nbwords])
      ensures forall k | 0 <= k < data.Length && (k < index || last < k) :: data[k] == old(data[k])
    {
      for i := index to last + 1
        invariant forall k | index <= k < i :: data[k] == old(data[k + nbwords])
        invariant forall k | 0 <= k < data.Length && (k < index || i <= k) :: data[k] == old(data[k])
      {
        data[i] := data[i + nbwords];
      }
    }

    method CopyIn(index: nat, donnees: seq<word>)
      requires index + |donnees| <= data.Length
      modifies data
      ensures data[index..index + |donnees|] == donnees
      ensures forall k | 0 <= k < data.Length && (k < index || index + |donnees| <= k) :: data[k] == old(data[k])
    {
      for i := 0 to |donnees|
        invariant forall k | 0 <= k < data.Length ::
          data[k] == if index <= k < index + i then donnees[k - index] else old(data[k])
      {
        data[index + i] := donnees[i];
      }
    }

    /** `c_xdfins` of whole words: they come in at the given bit, and what follows moves up. */
    method Insert(bitpos: nat, donnees: seq<word>) returns (err: int)
      requires Valid() && bitpos / 32 <= Last() - DATA_INDEX && |donnees| % 2 == 0 && donnees != []
      requires Last() + |donnees| < data.Length ||
        (Last() + |donnees| == data.Length && bitpos / 32 == Last() - DATA_INDEX)
        || DimError(Last(), |donnees|, Nwords())
      modifies this, data
      ensures Valid() && data[..DATA_INDEX] == old(data[..DATA_INDEX])
      ensures err ==
        if bitpos % 64 != 0 then ERR_BAD_ADDR else if DimError(old(Last()), |donnees|, Nwords()) then ERR_BAD_DIM else 0
      ensures err != 0 ==> Used() == old(Used())
      ensures err == 0 ==> Used() == old(Used()[..bitpos / 32]) + donnees + old(Used()[bitpos / 32..])
      ensures err == 0 ==> nbits == old(nbits) + 32 * |donnees|
    {
      if bitpos % 64 != 0 { return ERR_BAD_ADDR; }
      if DimError(nbits / 32, |donnees|, Nwords()) { return ERR_BAD_DIM; }
      InsertWords(bitpos / 32, donnees);
      return 0;
    }

    method InsertWords(at: nat, donnees: seq<word>)
      requires Valid() && at <= Last() - DATA_INDEX && |donnees| % 2 == 0 && donnees != []
      requires Last() + |donnees| < data.Length || (Last() + |donnees| == data.Length && at == Last() - DATA_INDEX)
      modifies this, data
      ensures Valid() && data[..DATA_INDEX] == old(data[..DATA_INDEX])
      ensures Used() == old(Used()[..at]) + donnees + old(Used()[at..])
      ensures nbits == old(nbits) + 32 * |donnees|
    {
      hide WordsOf, InPairs;
      MoveUp(DATA_INDEX + at, WordsOf(nbits), donnees);
      WordsAfter(nbits, |donnees|);
      nbits := nbits + 32 * |donnees|;
    }

    method MoveUp(index: nat, last: nat, donnees: seq<word>)
      requires DATA_INDEX <= index <= last && donnees != []
      requires last + |donnees| < data.Length || (last + |donnees| == data.Length && index == last)
      modifies data
      ensures data[..DATA_INDEX] == old(data[..DATA_INDEX])
      ensures data[DATA_INDEX..last + |donnees|]
           == old(data[DATA_INDEX..last][..index - DATA_INDEX]) + donnees +
             old(data[DATA_INDEX..last][index - DATA_INDEX..])
    {
      ghost var before := data[..];
      if last != index { ShiftRight(index, last, |donnees|); }
      CopyIn(index, donnees);
      Inserted(before, data[..], index, last, donnees);
    }

    /** `c_xdfcut`: what follows moves down. */
    method Cut(bitpos: nat, nelm: nat, width: nat) returns (err: int)
      requires Valid() && bitpos / 32 + Words64(nelm * width) <= Last() - DATA_INDEX
      requires Last() + Words64(nelm * width) < data.Length
      modifies this, data
      ensures Valid() && data[..DATA_INDEX] == old(data[..DATA_INDEX])
      ensures bitpos % 64 != 0 ==> err == ERR_BAD_ADDR && Used() == old(Used())
      ensures bitpos % 64 == 0 ==> err == 0 && nbits == old(nbits) - 32 * Words64(nelm * width)
      ensures bitpos % 64 == 0 ==> Used() == CutOut(old(Used()), bitpos / 32, Words64(nelm * width))
    {
      if bitpos % 64 != 0 { return ERR_BAD_ADDR; }
      CutWords(bitpos / 32, Words64(nelm * width));
      return 0;
    }

    method CutWords(at: nat, nbwords: nat)
      requires Valid() && at + nbwords <= Last() - DATA_INDEX && Last() + nbwords < data.Length && nbwords % 2 == 0
      modifies this, data
      ensures Valid() && data[..DATA_INDEX] == old(data[..DATA_INDEX])
      ensures nbits == old(nbits) - 32 * nbwords
      ensures Used() == CutOut(old(Used()), at, nbwords)
    {
      hide WordsOf, InPairs, CutOut;
      var last := WordsOf(nbits);
      WordsBefore(nbits, nbwords);
      MoveDown(DATA_INDEX + at, last, nbwords);
      nbits := nbits - 32 * nbwords;
    }

    method MoveDown(index: nat, last: nat, nbwords: nat)
      requires DATA_INDEX <= index && index + nbwords <= last && last + nbwords < data.Length
      modifies data
      ensures data[..DATA_INDEX] == old(data[..DATA_INDEX])
      ensures data[DATA_INDEX..last - nbwords] == CutOut(old(data[DATA_INDEX..last]), index - DATA_INDEX, nbwords)
    {
      ghost var before := data[..];
      if last != index { ShiftLeft(index, last, nbwords); }
      WasCut(before, data[..], index, last, nbwords);
    }

    /** `c_xdfadd` of unsigned integers: they are packed after the last word. */
    method Add(donnees: seq<word>, width: nat) returns (err: int, ghost added: seq<word>)
      requires Valid() && width <= 32
      requires Last() + Words64(|donnees| * width) <= data.Length ||
        DimError(Last(), Words64(|donnees| * width), Nwords())
      modifies this, data
      ensures Valid() && data[..DATA_INDEX] == old(data[..DATA_INDEX])
      ensures err == if DimError(old(Last()), Words64(|donnees| * width), Nwords()) then ERR_BAD_DIM else 0
      ensures err != 0 ==> Used() == old(Used()) && nbits == old(nbits)
      ensures err == 0 ==> |added| == Words64(|donnees| * width) && nbits == old(nbits) + 32 * |added|
      ensures err == 0 ==> Used() == old(Used()) + added && Stored(added, 0, C.PackedBits(donnees, width))
    {
      hide Stored, C.PackedBits, Words64;
      added := [];
      if DimError(nbits / 32, Words64(|donnees| * width), Nwords()) { return ERR_BAD_DIM, added; }
      added := AddWords(donnees, width, |donnees| * width);
      err := 0;
    }

    method AddWords(donnees: seq<word>, width: nat, bits: nat) returns (ghost added: seq<word>)
      requires Valid() && width <= 32 && bits == |donnees| * width && Last() + Words64(bits) <= data.Length
      modifies this, data
      ensures Valid() && data[..DATA_INDEX] == old(data[..DATA_INDEX])
      ensures |added| == Words64(bits) && nbits == old(nbits) + 32 * |added|
      ensures Used() == old(Used()) + added && Stored(added, 0, C.PackedBits(donnees, width))
    {
      hide Stored, C.PackedBits, WordsOf, InPairs, Words64;
      ghost var before := data[..];
      var index := WordsOf(nbits);
      PackAt(index, donnees, width, bits);
      WordsAfter(nbits, Words64(bits));
      nbits := nbits + 32 * Words64(bits);
      added := data[index..index + Words64(bits)];
      Added(before, data[..], index, index + Words64(bits));
    }

    method PackAt(index: nat, donnees: seq<word>, width: nat, bits: nat)
      requires width <= 32 && bits == |donnees| * width && index + Words64(bits) <= data.Length
      modifies data
      ensures forall k | 0 <= k < data.Length && (k < index || index + Words64(bits) <= k) :: data[k] == old(data[k])
      ensures Stored(data[..][index..index + Words64(bits)], 0, C.PackedBits(donnees, width))
    {
      hide Stored, C.PackedBits;
      Words64Enough(bits);
      C.Pack(data, index, donnees, width);
      C.PackedLength(donnees, width);
      StoredAlone(data[..], index, index + Words64(bits), C.PackedBits(donnees, width));
    }

    /** `c_xdfrep` of unsigned integers: the words are cleared, then packed again, whether or not
        they are words of the record. */
    method Replace(bitpos: nat, donnees: seq<word>, width: nat) returns (err: int)
      requires Valid() && width <= 32
      requires MayWrite(DATA_INDEX + bitpos / 32, PackedWords(|donnees|, width), data.Length)
      modifies data
      ensures Valid()
      ensures err == if bitpos % 64 != 0 then ERR_BAD_ADDR
        else if DimError(DATA_INDEX + bitpos / 32, PackedWords(|donnees|, width), Nwords()) then ERR_BAD_DIM else 0
      ensures err != 0 ==> data[..] == old(data[..])
      ensures var from := DATA_INDEX + bitpos / 32;
        err == 0 ==> Rewritten(old(data[..]), data[..], from, from + PackedWords(|donnees|, width),
          C.PackedBits(donnees, width))
    {
      hide Stored, C.PackedBits, WordsOf, InPairs;
      if bitpos % 64 != 0 { return ERR_BAD_ADDR; }
      var nbwords := PackedWords(|donnees|, width);
      var index := DATA_INDEX + bitpos / 32;
      if DimError(index, nbwords, Nwords()) { return ERR_BAD_DIM; }
      CopyIn(index, seq(nbwords, _ => 0));
      PackAt(index, donnees, width, |donnees| * width);
      return 0;
    }

    /** `c_xdfxtr` of unsigned integers. */
    method Extract(bitpos: nat, nelm: nat, width: nat, ghost values: seq<word>) returns (err: int, found: seq<word>)
      requires Valid() && 1 <= width <= 32 && |values| == nelm && Last() < data.Length
      requires Stored(Used(), bitpos / 32, C.PackedBits(values, width))
      ensures bitpos % 64 != 0 ==> err == ERR_BAD_ADDR
      ensures bitpos % 64 == 0 ==> err == 0 && found == C.Masked(values, width)
    {
      hide C.PackedBits;
      found := [];
      if bitpos % 64 != 0 { return ERR_BAD_ADDR, found; }
      err := 0;
      StoredWithin(data[..], DATA_INDEX, bitpos / 32, Last(), C.PackedBits(values, width));
      found := C.Unpack(data, DATA_INDEX + bitpos / 32, nelm, width, values);
    }

    /** `c_xdfxtr` of whole words. */
    method ExtractWords(bitpos: nat, nelm: nat) returns (err: int, found: seq<word>)
      requires Valid() && nelm % 2 == 0 && bitpos / 32 + nelm <= Last() - DATA_INDEX
      ensures bitpos % 64 != 0 ==> err == ERR_BAD_ADDR
      ensures bitpos % 64 == 0 ==> err == 0 && found == Used()[bitpos / 32..bitpos / 32 + nelm]
    {
      found := [];
      if bitpos % 64 != 0 { return ERR_BAD_ADDR, found; }
      var index := DATA_INDEX + bitpos / 32;
      for i := 0 to nelm
        invariant found == data[index..index + i]
      {
        found := found + [data[index + i]];
      }
      err := 0;
      SliceOfSlice(data[..], DATA_INDEX, bitpos / 32, bitpos / 32 + nelm, Last());
      assert data[..][index..index + nelm] == data[index..index + nelm];
    }
  }

  lemma Inserted(z: seq<word>, z': seq<word>, index: nat, last: nat, donnees: seq<word>)
    requires DATA_INDEX <= index <= last <= |z| == |z'| && last + |donnees| <= |z|
    requires forall k | 0 <= k < index :: z'[k] == z[k]
    requires forall k | index <= k < last :: z'[k + |donnees|] == z[k]
    requires z'[index..index + |donnees|] == donnees
    ensures z'[..DATA_INDEX] == z[..DATA_INDEX]
    ensures z'[DATA_INDEX..last + |donnees|] == z[DATA_INDEX..last][..index - DATA_INDEX] + donnees +
      z[DATA_INDEX..last][index - DATA_INDEX..]
  {
    var n, at := |donnees|, index - DATA_INDEX;
    var a, b := z'[DATA_INDEX..last + n], z[DATA_INDEX..last];
    assert a[..at] == b[..at];
    SliceOfSlice(z', DATA_INDEX, at, at + n, last + n);
    assert a[at + n..] == b[at..];
    assert a == a[..at] + a[at..at + n] + a[at + n..];
  }

  lemma WasCut(z: seq<word>, z': seq<word>, index: nat, last: nat, n: nat)
    requires DATA_INDEX <= index && index + n <= last <= |z| == |z'|
    requires forall k | 0 <= k < index :: z'[k] == z[k]
    requires forall k | index <= k < last - n :: z'[k] == z[k + n]
    ensures z'[..DATA_INDEX] == z[..DATA_INDEX]
    ensures z'[DATA_INDEX..last - n] == CutOut(z[DATA_INDEX..last], index - DATA_INDEX, n)
  {
    var at := index - DATA_INDEX;
    var a, b := z'[DATA_INDEX..last - n], z[DATA_INDEX..last];
    assert a[..at] == b[..at];
    assert a[at..] == b[at + n..];
    assert a == a[..at] + a[at..];
  }

  lemma Added(z: seq<word>, z': seq<word>, index: nat, last: nat)
    requires DATA_INDEX <= index <= last <= |z| == |z'| && forall k | 0 <= k < index :: z'[k] == z[k]
    ensures z'[..DATA_INDEX] == z[..DATA_INDEX]
    ensures z'[DATA_INDEX..last] == z[DATA_INDEX..index] + z'[index..last]
  {
    assert z'[DATA_INDEX..index] == z[DATA_INDEX..index];
  }

  lemma Replaced(z: seq<word>, z': seq<word>, from: nat, to: nat, last: nat)
    requires DATA_INDEX <= from <= to <= last <= |z| == |z'|
    requires forall k | 0 <= k < |z| && (k < from || to <= k) :: z'[k] == z[k]
    ensures z'[..DATA_INDEX] == z[..DATA_INDEX]
    ensures z'[DATA_INDEX..last][..from - DATA_INDEX] == z[DATA_INDEX..last][..from - DATA_INDEX]
    ensures z'[DATA_INDEX..last][to - DATA_INDEX..] == z[DATA_INDEX..last][to - DATA_INDEX..]
    ensures z'[DATA_INDEX..last][from - DATA_INDEX..to - DATA_INDEX] == z'[from..to]
  {
    SliceOfSlice(z', DATA_INDEX, from - DATA_INDEX, to - DATA_INDEX, last);
  }
}
