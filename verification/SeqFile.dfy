/** Sequential XDF files: handles made of addresses, appending records on cluster
    boundaries, and skipping records both ways. */
module SeqFile {
  import opened Words
  import opened WordDisk
  import opened XdfFormat

  // ----- Handles -----

  // Sizes of 512, 128 and 32 megabytes in 64-bit units.
  const MB512: nat := 0x400_0000
  const MB128: nat := 0x100_0000
  const MB32: nat := 0x40_0000

  /** What an address is a multiple of, in 64-bit units: 4 to the power of its class. */
  function Granule(units: nat): nat
  {
    if units >= MB512 then 64 else if units >= MB128 then 16 else if units >= MB32 then 4 else 1
  }

  predicate Aligned(units: nat)
  {
    units % Granule(units) == 0
  }

  /** `make_seq_handle`: two bits for the class, 22 for the address, 7 for the file. */
  function MakeSeqHandle(address: nat, fileIndex: nat): nat
    requires address >= 1
  {
    var units := (address - 1) / 2;
    var cluster := if units >= MB512 then 3 else if units >= MB128 then 2 else if units >= MB32 then 1 else 0;
    fileIndex + units / Granule(units) % 0x40_0000 * 0x80 + cluster * 0x2000_0000
  }

  /** `address_from_handle` */
  function AddressFromHandle(handle: nat): nat
  {
    var cluster := handle / 0x2000_0000 % 4;
    var addr := handle / 0x80 % 0x40_0000;
    2 * (addr * (if cluster == 3 then 64 else if cluster == 2 then 16 else if cluster == 1 then 4 else 1)) + 1
  }

  /** A handle gives the address back exactly when the address is on its grid. */
  lemma SeqHandleRoundTrip(units: nat, fileIndex: nat)
    requires units < 0x1000_0000 && fileIndex < 0x80
    ensures MakeSeqHandle(2 * units + 1, fileIndex) < 0x8000_0000
    ensures MakeSeqHandle(2 * units + 1, fileIndex) % 0x80 == fileIndex
    ensures AddressFromHandle(MakeSeqHandle(2 * units + 1, fileIndex)) == 2 * units + 1 <==> Aligned(units)
  {
    var cluster := if units >= MB512 then 3 else if units >= MB128 then 2 else if units >= MB32 then 1 else 0;
    var addr := units / Granule(units);
    assert addr < 0x40_0000;
    var h := fileIndex + addr * 0x80 + cluster * 0x2000_0000;
    ModUnique(0x80, addr + cluster * 0x40_0000, fileIndex);
    ModUnique(0x40_0000, cluster, addr);
    ModUnique(0x2000_0000, cluster, fileIndex + addr * 0x80);
  }

  /** Bit by bit, after the sign: 2 for the class of the address, 22 for the address in units of its class, 7
      for the file. */
  lemma HandleBits(units: nat, fileIndex: nat)
    requires units < 0x1000_0000 && fileIndex < 0x80
    ensures Bits(MakeSeqHandle(2 * units + 1, fileIndex), 31) ==
      (if units < 0x40_0000 then Bits(0, 2) + Bits(units, 22)
       else if units < 0x100_0000 then Bits(1, 2) + Bits(units / 4, 22)
       else if units < 0x400_0000 then Bits(2, 2) + Bits(units / 16, 22)
       else Bits(3, 2) + Bits(units / 64, 22)) + Bits(fileIndex, 7)
  {
    hide Bits, Pow2, MakeSeqHandle;
    FieldPowers();
    var cluster :=
      if units < 0x40_0000 then 0 else if units < 0x100_0000 then 1 else if units < 0x400_0000 then 2 else 3;
    var g := if cluster == 0 then 1 else if cluster == 1 then 4 else if cluster == 2 then 16 else 64;
    var addr := units / g;
    SeqHandleIs(units, fileIndex, cluster, g, addr);
    ThreeJoined(cluster, addr, fileIndex, 31, 22, 7, 0x40_0000, 0x80);
  }

  lemma SeqHandleIs(units: nat, fileIndex: nat, cluster: nat, g: nat, addr: nat)
    requires units < 0x1000_0000 && fileIndex < 0x80
    requires cluster ==
      if units < 0x40_0000 then 0 else if units < 0x100_0000 then 1 else if units < 0x400_0000 then 2 else 3
    requires g == if cluster == 0 then 1 else if cluster == 1 then 4 else if cluster == 2 then 16 else 64
    requires addr == units / g
    ensures addr < 0x40_0000
    ensures MakeSeqHandle(2 * units + 1, fileIndex) == fileIndex + 0x80 * (addr + 0x40_0000 * cluster)
  {
  }

  // ----- Clusters -----

  /** Size of a cluster in words, from the end of the record before rounding. */
  function ClusterSize(end: nat): nat
  {
    if end / 0x4_0000 >= 512 then 128 else if end / 0x4_0000 >= 128 then 32 else if end / 0x4_0000 >= 32 then 8 else 2
  }

  function NextCluster(end: nat): nat
  {
    (end + ClusterSize(end) - 1) / ClusterSize(end) * ClusterSize(end)
  }

  /** Rounding takes less than 128 words and leads to an address on its grid, even when it
      leads into the next class. */
  lemma NextClusterAligned(end: nat)
    ensures end <= NextCluster(end) < end + 128 && NextCluster(end) % 2 == 0
    ensures Aligned(NextCluster(end) / 2)
  {
    var q := (end + ClusterSize(end) - 1) / ClusterSize(end);
    if end / 0x4_0000 >= 512 {
      MultipleOf(64, q);
    } else if end / 0x4_0000 >= 128 {
      MultipleOf(16, q);
    } else if end / 0x4_0000 >= 32 {
      MultipleOf(4, q);
    }
  }

  /** The words that a position after that many words must be a multiple of: 2 below 32 megabytes, 8
      below 128, 32 below 512, and 128 from there on. */
  function GridWords(end: nat): nat
  {
    2 * Granule(end / 2)
  }

  /** A position is the first one from `end` on that is on the grid. */
  ghost predicate FirstOnGrid(end: nat, at: nat)
  {
    end <= at && at % GridWords(end) == 0 && forall m: nat | end <= m < at :: m % GridWords(end) != 0
  }

  /** Rounding goes no further than needed. */
  lemma NextClusterFirst(end: nat)
    ensures FirstOnGrid(end, NextCluster(end))
    ensures NextCluster(end) == end <==> end % GridWords(end) == 0
  {
    var g := GridWords(end);
    assert ClusterSize(end) == g && g >= 2;
    hide Granule, ClusterSize, GridWords;
    var q := (end + g - 1) / g;
    DivMod(end + g - 1, g);
    assert NextCluster(end) == q * g == g * q;
    ModUniqueInt(g, q, 0, q * g);
    forall m: nat | end <= m < q * g ensures m % g != 0 {
      if m % g == 0 {
        DivMod(m, g);
        LessFactor(g, m / g, q);
      }
    }
  }

  lemma LessFactor(g: nat, a: nat, b: nat)
    requires g * a < g * b
    ensures g * (a + 1) <= g * b
  {
    DistributeLeft(g, b, a);
    if b <= a { NoMore(g, b, a); }
    NoMore(g, a + 1, b);
  }

  lemma NoMore(g: nat, a: nat, b: nat)
    requires a <= b
    ensures g * a <= g * b
  {
  }

  /** Below 32 megabytes only an odd number of words is rounded. */
  lemma GridIs(end: nat)
    ensures GridWords(end) ==
      if end < 0x80_0000 then 2 else if end < 0x200_0000 then 8 else if end < 0x800_0000 then 32 else 128
  {
  }

  lemma MultipleOf(m: nat, q: nat)
    requires m in {4, 16, 64}
    ensures q * m % m == 0 && q * (2 * m) / 2 == q * m
  {
    ModUniqueInt(m, q, 0, q * m);
  }

  // ----- What a sequential file is made of -----

  /** Words of a record with its padding, not counting the postfix of four words. */
  datatype SeqRec = SeqRec(idtyp: nat, words: seq<word>)

  /** Address of record k, and of the end of file for the number of records: records follow
      each other, each with its postfix. */
  ghost function Pos(recs: seq<SeqRec>, first: nat, k: nat): nat
    requires k <= |recs|
  {
    if k == 0 then first else Pos(recs, first, k - 1) + |recs[k - 1].words| + 4
  }

  function Unit(address: nat): nat
    requires address >= 1
  {
    (address - 1) / 2 + 1
  }

  /** The postfix links back to the record. */
  ghost function Postfix(idtyp: nat, lng: nat, address: nat): (ws: seq<word>)
    requires idtyp < 0x100 && lng < 0x100_0000 && 1 <= address < 0x8000_0000
    ensures |ws| == 4
  {
    [FirstWord(0, 2), 0xFFFF_FFFF, FirstWord(idtyp, lng), Unit(address)]
  }

  ghost function EofMark(address: nat): (ws: seq<word>)
    requires 1 <= address < 0x8000_0000
    ensures |ws| == 2
  {
    [FirstWord(127, 1), Unit(address)]
  }

  /** Record k is in place, on its grid, with a type that a record may be given. */
  ghost predicate RecordThere(disk: seq<word>, recs: seq<SeqRec>, first: nat, k: nat)
    requires k < |recs|
  {
    var r, at := recs[k], Pos(recs, first, k);
    1 <= r.idtyp <= 126 && 2 <= |r.words| < 0x200_0000 && |r.words| % 2 == 0 &&
    1 <= at < 0x2000_0000 && at % 2 == 1 && Aligned((at - 1) / 2) &&
    r.words[0] == FirstWord(r.idtyp, |r.words| / 2) && r.words[1] == Unit(at) &&
    Segment(disk, at - 1, r.words) && Segment(disk, at - 1 + |r.words|, Postfix(r.idtyp, |r.words| / 2, at))
  }

  /** The file ends with a mark, unless nothing was written yet. */
  ghost predicate EndThere(disk: seq<word>, end: nat, empty: bool)
  {
    1 <= end < 0x2000_0000 && end % 2 == 1 && Aligned((end - 1) / 2) &&
    ((|disk| == end + 1 && Segment(disk, end - 1, EofMark(end))) || (empty && |disk| == end - 1))
  }

  ghost predicate Layout(disk: seq<word>, recs: seq<SeqRec>, first: nat)
  {
    1 <= first && EndThere(disk, Pos(recs, first, |recs|), recs == []) && forall k: nat | k < |recs| ::
      RecordThere(disk, recs, first, k)
  }

  lemma {:induction false} PosPrefix(recs: seq<SeqRec>, r: SeqRec, first: nat, k: nat)
    requires k <= |recs|
    ensures Pos(recs + [r], first, k) == Pos(recs, first, k)
  {
    if k > 0 { PosPrefix(recs, r, first, k - 1); }
  }

  lemma {:induction false} PosOrder(recs: seq<SeqRec>, first: nat, k: nat, m: nat)
    requires k <= m <= |recs|
    ensures Pos(recs, first, k) + (if k < m then |recs[k].words| + 4 else 0) <= Pos(recs, first, m)
    decreases m
  {
    if k < m { PosOrder(recs, first, k, m - 1); }
  }

  // ----- Appending -----

  /** What the end of the file looks like after a record, its postfix and the mark. */
  lemma AppendStores(disk: seq<word>, recs: seq<SeqRec>, first: nat, r: SeqRec, at: nat)
    requires Layout(disk, recs, first) && at == Pos(recs, first, |recs|)
    requires 1 <= r.idtyp <= 126 && 2 <= |r.words| < 0x200_0000 && |r.words| % 2 == 0
    requires r.words[0] == FirstWord(r.idtyp, |r.words| / 2) && r.words[1] == Unit(at)
    requires at + |r.words| + 4 < 0x2000_0000 && Aligned((at + |r.words| + 4 - 1) / 2)
    ensures 1 <= at < 0x2000_0000 && at - 1 <= |disk| <= at + 1
    ensures var end := at + |r.words| + 4;
      Layout(disk[..at - 1] + r.words + Postfix(r.idtyp, |r.words| / 2, at) + EofMark(end), recs + [r], first)
  {
    hide Aligned, Segment, FirstWord, RecordThere, Postfix, EofMark;
    var recs', n := recs + [r], |recs|;
    var post, end := Postfix(r.idtyp, |r.words| / 2, at), at + |r.words| + 4;
    var kept := disk[..at - 1];
    var disk' := kept + r.words + post + EofMark(end);
    PosPrefix(recs, r, first, n);
    assert Pos(recs', first, n + 1) == end;
    TailSegments(kept, r.words, post, EofMark(end));
    forall k: nat | k < |recs'| ensures RecordThere(disk', recs', first, k) {
      if k < n {
        assert RecordThere(disk, recs, first, k);
        EarlierKept(disk, recs, first, r, at, disk', k);
      } else {
        LastThere(disk', recs, first, r, at);
      }
    }
  }

  lemma LastThere(disk: seq<word>, recs: seq<SeqRec>, first: nat, r: SeqRec, at: nat)
    requires at == Pos(recs, first, |recs|) && 1 <= at < 0x2000_0000 && at % 2 == 1 && Aligned((at - 1) / 2)
    requires 1 <= r.idtyp <= 126 && 2 <= |r.words| < 0x200_0000 && |r.words| % 2 == 0
    requires r.words[0] == FirstWord(r.idtyp, |r.words| / 2) && r.words[1] == Unit(at)
    requires Segment(disk, at - 1, r.words) && Segment(disk, at - 1 + |r.words|, Postfix(r.idtyp, |r.words| / 2, at))
    ensures RecordThere(disk, recs + [r], first, |recs|)
  {
    hide Aligned, Segment, Postfix;
    PosPrefix(recs, r, first, |recs|);
  }

  lemma EarlierKept(disk: seq<word>, recs: seq<SeqRec>, first: nat, r: SeqRec, at: nat, disk': seq<word>, k: nat)
    requires k < |recs| && RecordThere(disk, recs, first, k) && 1 <= at == Pos(recs, first, |recs|) <= |disk| + 1
    requires disk[..at - 1] <= disk'
    ensures RecordThere(disk', recs + [r], first, k)
  {
    hide Aligned, Segment, FirstWord, Postfix;
    PosPrefix(recs, r, first, k);
    PosOrder(recs, first, k, |recs|);
    var a, w := Pos(recs, first, k), recs[k].words;
    KeptBefore(disk, at - 1, disk', a - 1, w);
    KeptBefore(disk, at - 1, disk', a - 1 + |w|, Postfix(recs[k].idtyp, |w| / 2, a));
  }

  lemma TailSegments(kept: seq<word>, a: seq<word>, b: seq<word>, c: seq<word>)
    ensures Segment(kept + a + b + c, |kept|, a) && Segment(kept + a + b + c, |kept| + |a|, b)
    ensures Segment(kept + a + b + c, |kept| + |a| + |b|, c)
  {
  }

  lemma KeptBefore(disk: seq<word>, n: nat, disk': seq<word>, at: nat, s: seq<word>)
    requires n <= |disk| && disk[..n] <= disk' && Segment(disk, at, s) && at + |s| <= n
    ensures Segment(disk', at, s)
  {
    assert disk[..n][at..at + |s|] == disk[at..at + |s|];
    assert disk'[..n] == disk[..n];
    assert disk'[..n][at..at + |s|] == disk'[at..at + |s|];
  }

  // ----- Skipping -----

  /** Whether skipping forward passes record k: there is one, and its type is not among those
      that mark an end of file. */
  predicate Passed(recs: seq<SeqRec>, k: nat)
  {
    k < |recs| && recs[k].idtyp < 112
  }

  /** Where n records forward lead from record k. */
  function Ahead(recs: seq<SeqRec>, k: nat, n: nat): nat
  {
    if n == 0 then k else if Passed(recs, Ahead(recs, k, n - 1)) then Ahead(recs, k, n - 1) +
      1 else Ahead(recs, k, n - 1)
  }

  /** Where `Skip` leads from record k. */
  function After(recs: seq<SeqRec>, k: nat, n: int): nat
  {
    if n >= 0 then Ahead(recs, k, n) else if k + n < 0 then 0 else k + n
  }

  lemma {:induction false} AheadBounds(recs: seq<SeqRec>, k: nat, n: nat)
    requires k <= |recs|
    ensures k <= Ahead(recs, k, n) <= |recs| && Ahead(recs, k, n) <= k + n
  {
    if n > 0 { AheadBounds(recs, k, n - 1); }
  }

  /** A record that is not passed stops all further steps. */
  lemma {:induction false} Stuck(recs: seq<SeqRec>, k: nat, i: nat, n: nat)
    requires i <= n && !Passed(recs, Ahead(recs, k, i))
    ensures Ahead(recs, k, n) == Ahead(recs, k, i)
    decreases n
  {
    if i < n { Stuck(recs, k, i, n - 1); }
  }

  /** All the steps are made exactly when the records are there and each can be passed. */
  lemma {:induction false} AllPassed(recs: seq<SeqRec>, k: nat, n: nat)
    requires k <= |recs|
    ensures Ahead(recs, k, n) == k + n <==> k + n <= |recs| && forall i | k <= i < k + n :: recs[i].idtyp < 112
  {
    AheadBounds(recs, k, n);
    if n > 0 {
      AheadBounds(recs, k, n - 1);
      AllPassed(recs, k, n - 1);
    }
  }

  class SequentialFile {
    var disk: seq<word>
    var curAddr: nat
    var seqBof: nat
    var nrec: nat
    var nxtn: nat
    ghost const first: nat
    ghost var recs: seq<SeqRec>

    ghost predicate Valid()
      reads this
    {
      Layout(disk, recs, first) && nrec == nxtn == |recs|
    }

    /** The file after its header was written: the beginning of the records is not set. */
    constructor Create(header: seq<word>)
      requires 16 <= |header| < 0x1000 && |header| % 2 == 0
      ensures Valid() && recs == [] && curAddr == first == |header| + 1
    {
      disk, curAddr, seqBof, nrec, nxtn := header, |header| + 1, 1, 0, 0;
      first, recs := |header| + 1, [];
      new;
      assert Pos(recs, first, 0) == first;
    }

    /** `c_xdfopn` on an existing file: the position is the first record. */
    method Open(wdlngHeader: nat)
      requires Valid() && wdlngHeader + 1 == first
      modifies this`curAddr, this`seqBof
      ensures Valid() && curAddr == seqBof == first
    {
      curAddr := 1 + wdlngHeader;
      seqBof := 1 + wdlngHeader;
    }

    /** `c_xdfput` at the end of the file.  The record is padded from what follows it in the
        buffer, so that the next one starts on the grid of its address. */
    method Append(data: array<word>, nbits: nat) returns (err: int)
      requires Valid() && curAddr == Pos(recs, first, |recs|) && 2 <= nbits / 32 && nbits / 32 + 128 <= data.Length
      requires data.Length >= 2 && 1 <= IdtypOf(data[0]) <= 126 && nbits / 32 + 128 < 0x200_0000
      requires curAddr + nbits / 32 + 132 < 0x2000_0000
      modifies this`disk, this`curAddr, this`nrec, this`nxtn, this`recs, data
      ensures Valid()
      ensures err == if nbits % 64 != 0 then ERR_BAD_ADDR else 0
      ensures err != 0 ==> recs == old(recs) && curAddr == old(curAddr)
      ensures err == 0 ==>
        |recs| == |old(recs)| + 1 && recs[..|old(recs)|] == old(recs) && curAddr == Pos(recs, first, |recs|)
      ensures err == 0 ==> var r := recs[|old(recs)|];
        nbits / 32 <= |r.words| < nbits / 32 + 128 && r.idtyp == IdtypOf(old(data[0])) &&
          r.words[2..] == old(data[..])[2..|r.words|]
      ensures err == 0 ==> FirstOnGrid(old(curAddr) - 1 + nbits / 32 + 4, curAddr - 1)
      ensures err == 0 && old(curAddr) - 1 + nbits / 32 + 4 < 0x80_0000 ==> |recs[|old(recs)|].words| == nbits / 32
    {
      hide Layout, Aligned, Postfix, EofMark, NextCluster, FirstWord, FirstOnGrid;
      if nbits % 64 != 0 { return ERR_BAD_ADDR; }
      EndFacts(disk, recs, first);
      var nwords := nbits / 32;
      var writeAddr := curAddr;
      var next := NextCluster(curAddr - 1 + nwords + 4);
      Padded(curAddr, nwords);
      PaddedLittle(curAddr, nwords);
      nwords := next - curAddr - 4 + 1;
      SetHeader(data, nwords, writeAddr);
      ghost var r := SeqRec(IdtypOf(old(data[0])), data[..nwords]);
      FirstWordRead(r.idtyp, nwords / 2);
      AppendStores(disk, recs, first, r, writeAddr);
      WriteRecord(data[..nwords], IdtypOf(data[0]), LngOf(data[0]), writeAddr);
      nrec, nxtn := nrec + 1, nxtn + 1;
      recs := recs + [r];
      PosPrefix(old(recs), r, first, |old(recs)|);
      err := 0;
    }

    method SetHeader(data: array<word>, nwords: nat, writeAddr: nat)
      requires data.Length >= 2 && nwords / 2 < 0x100_0000 && 1 <= writeAddr < 0x2000_0000 && IdtypOf(data[0]) <= 126
      modifies data
      ensures data[..] == old(data[..])[1 := (writeAddr - 1) / 2 + 1][0 := FirstWord(old(IdtypOf(data[0])), nwords / 2)]
    {
      data[1] := (writeAddr - 1) / 2 + 1;
      data[0] := FirstWord(IdtypOf(data[0]), nwords / 2);
    }

    /** Writes a record, its postfix and the end of file. */
    method WriteRecord(words: seq<word>, idtyp: nat, lng: nat, writeAddr: nat)
      requires 1 <= writeAddr == curAddr && writeAddr - 1 <= |disk| <= writeAddr + 1 && 2 <= |words|
      requires curAddr + |words| + 4 < 0x2000_0000
      requires idtyp < 0x100 && lng < 0x100_0000
      modifies this`disk, this`curAddr
      ensures curAddr == old(curAddr) + |words| + 4
      ensures disk == old(disk)[..writeAddr - 1] + words + Postfix(idtyp, lng, writeAddr) + EofMark(curAddr)
    {
      hide Wawrit;
      ghost var before := disk;
      disk := Wawrit(disk, writeAddr - 1, words);
      Overwritten(before, writeAddr - 1, words);
      curAddr := curAddr + |words|;
      var postfix := [FirstWord(0, 2), 0xFFFF_FFFF, FirstWord(idtyp, lng), (writeAddr - 1) / 2 + 1];
      Overwritten(disk, curAddr - 1, postfix);
      disk := Wawrit(disk, curAddr - 1, postfix);
      curAddr := curAddr + 4;
      var eof := [FirstWord(127, 1), (curAddr - 1) / 2 + 1];
      Overwritten(disk, curAddr - 1, eof);
      disk := Wawrit(disk, curAddr - 1, eof);
    }

    /** `c_fstskp`: forward from record to record, backward by the links of the postfixes. */
    method Skip(nrec: int, ghost k: nat) returns (err: int)
      requires Valid() && seqBof == first && k <= |recs| && curAddr == Pos(recs, first, k)
      modifies this`curAddr
      ensures Valid() && err == 0 && After(recs, k, nrec) <= |recs| && curAddr == Pos(recs, first, After(recs, k, nrec))
    {
      AheadBounds(recs, k, if nrec > 0 then nrec else 0);
      if nrec > 0 {
        var i := 0;
        while i < nrec
          invariant 0 <= i <= nrec && Ahead(recs, k, i) <= |recs| && curAddr == Pos(recs, first, Ahead(recs, k, i))
        {
          AheadBounds(recs, k, i + 1);
          var more := SkipForward(Ahead(recs, k, i));
          if !more {
            Stuck(recs, k, i, nrec);
            break;
          }
          i := i + 1;
        }
      } else {
        for i := 0 to -nrec
          invariant curAddr == Pos(recs, first, if i < k then k - i else 0)
        {
          SkipBackward(if i < k then k - i else 0);
        }
      }
      err := 0;
    }

    /** One record forward, when there is one that does not look like an end of file. */
    method SkipForward(ghost k: nat) returns (more: bool)
      requires Valid() && k <= |recs| && curAddr == Pos(recs, first, k)
      modifies this`curAddr
      ensures more == Passed(recs, k) && curAddr == Pos(recs, first, if more then k + 1 else k)
    {
      hide Aligned;
      ReadForward(disk, recs, first, k);
      if curAddr + 1 > |disk| { return false; }
      var idtyp, lng := IdtypOf(disk[curAddr - 1]), LngOf(disk[curAddr - 1]);
      if 112 <= idtyp <= 127 { return false; }
      curAddr := curAddr + 2 * lng;
      if IdtypOf(disk[curAddr - 1]) == 0 && LngOf(disk[curAddr - 1]) == 2 && disk[curAddr] == 0xFFFF_FFFF {
        curAddr := curAddr + 4;
      } else {
        assert false;
      }
      more := true;
    }

    /** One record backward, unless the position is the first one. */
    method SkipBackward(ghost k: nat)
      requires Valid() && seqBof == first && k <= |recs| && curAddr == Pos(recs, first, k)
      modifies this`curAddr
      ensures curAddr == Pos(recs, first, if k > 0 then k - 1 else 0)
    {
      hide Aligned;
      ReadBackward(disk, recs, first, k);
      if curAddr - 4 > seqBof {
        var postfix := disk[curAddr - 5..curAddr - 1];
        if IdtypOf(postfix[0]) == 0 && LngOf(postfix[0]) == 2 && postfix[1] == 0xFFFF_FFFF {
          curAddr := 2 * (postfix[3] - 1) + 1;
        } else {
          assert false;
        }
        if disk[curAddr] != (curAddr - 1) / 2 + 1 { assert false; }
      }
    }

    /** Skipping forward and back comes back if and only if the records were there and none looks
        like an end of file, or the position was the first one. */
    method ThereAndBack(n: nat, ghost k: nat) returns (err: int)
      requires Valid() && seqBof == first && k <= |recs| && curAddr == Pos(recs, first, k)
      modifies this`curAddr
      ensures Valid() && err == 0
      ensures curAddr == old(curAddr) <==>
        k == 0 || (k + n <= |recs| && forall i | k <= i < k + n :: recs[i].idtyp < 112)
    {
      AheadBounds(recs, k, n);
      AllPassed(recs, k, n);
      err := Skip(n, k);
      err := Skip(0 - n, Ahead(recs, k, n));
      ghost var back := After(recs, Ahead(recs, k, n), 0 - n);
      PosOrder(recs, first, if back < k then back else k, if back < k then k else back);
    }

    /** Every record starts at an address that its handle gives back. */
    lemma HandlesReach(k: nat, fileIndex: nat)
      requires Valid() && k < |recs| && fileIndex < 0x80
      ensures AddressFromHandle(MakeSeqHandle(Pos(recs, first, k), fileIndex)) == Pos(recs, first, k)
    {
      hide Aligned, MakeSeqHandle, AddressFromHandle, Segment, Postfix;
      assert RecordThere(disk, recs, first, k);
      SeqHandleRoundTrip((Pos(recs, first, k) - 1) / 2, fileIndex);
    }
  }

  /** No further than the grid, and not at all in a small file. */
  lemma PaddedLittle(curAddr: nat, nwords: nat)
    requires curAddr % 2 == 1 && nwords % 2 == 0
    ensures FirstOnGrid(curAddr - 1 + nwords + 4, NextCluster(curAddr - 1 + nwords + 4))
    ensures curAddr - 1 + nwords + 4 < 0x80_0000 ==> NextCluster(curAddr - 1 + nwords + 4) == curAddr - 1 + nwords + 4
  {
    hide NextCluster, FirstOnGrid, GridWords;
    NextClusterFirst(curAddr - 1 + nwords + 4);
    GridIs(curAddr - 1 + nwords + 4);
  }

  /** A record is padded by less than 128 words. */
  lemma Padded(curAddr: nat, nwords: nat)
    requires curAddr % 2 == 1
    ensures var n := NextCluster(curAddr - 1 + nwords + 4) - curAddr - 3;
      nwords <= n < nwords + 128 && n % 2 == 0 && Aligned((curAddr + n + 4 - 1) / 2)
  {
    hide Aligned, NextCluster;
    NextClusterAligned(curAddr - 1 + nwords + 4);
  }

  /** Writing past what is there. */
  lemma Overwritten(disk: seq<word>, at: nat, ws: seq<word>)
    requires at <= |disk| <= at + |ws|
    ensures Wawrit(disk, at, ws) == disk[..at] + ws
    ensures |disk| == at ==> disk[..at] == disk
  {
  }

  lemma EndFacts(disk: seq<word>, recs: seq<SeqRec>, first: nat)
    requires Layout(disk, recs, first)
    ensures var end := Pos(recs, first, |recs|);
      1 <= end < 0x2000_0000 && end % 2 == 1 && end - 1 <= |disk| <= end + 1
  {
    hide Aligned, RecordThere;
  }

  /** What `Skip` reads at record k, and behind it. */
  lemma ReadForward(disk: seq<word>, recs: seq<SeqRec>, first: nat, k: nat)
    requires Layout(disk, recs, first) && k <= |recs|
    ensures var at := Pos(recs, first, k);
      if k == |recs| then at >= 1 && (at + 1 > |disk| || IdtypOf(disk[at - 1]) == 127)
      else
        var after := at + |recs[k].words|;
        1 <= at && after < |disk| && IdtypOf(disk[at - 1]) == recs[k].idtyp <= 126 &&
          2 * LngOf(disk[at - 1]) == |recs[k].words| >= 2 &&
        IdtypOf(disk[after - 1]) == 0 && LngOf(disk[after - 1]) == 2 && disk[after] == 0xFFFF_FFFF &&
        after + 4 == Pos(recs, first, k + 1)
  {
    hide Aligned;
    var at := Pos(recs, first, k);
    if k == |recs| {
      if |disk| == at + 1 {
        Within(disk, at - 1, EofMark(at), 0);
        FirstWordRead(127, 1);
      }
    } else {
      assert RecordThere(disk, recs, first, k);
      ReadRecord(disk, recs[k], at);
    }
  }

  lemma ReadRecord(disk: seq<word>, r: SeqRec, at: nat)
    requires 1 <= r.idtyp <= 126 && 2 <= |r.words| < 0x200_0000 && |r.words| % 2 == 0 && 1 <= at < 0x2000_0000
    requires r.words[0] == FirstWord(r.idtyp, |r.words| / 2) && r.words[1] == Unit(at)
    requires Segment(disk, at - 1, r.words) && Segment(disk, at - 1 + |r.words|, Postfix(r.idtyp, |r.words| / 2, at))
    ensures var after := at + |r.words|;
      after + 3 <= |disk| && IdtypOf(disk[at - 1]) == r.idtyp && 2 * LngOf(disk[at - 1]) == |r.words| &&
        disk[at] == Unit(at) &&
      IdtypOf(disk[after - 1]) == 0 && LngOf(disk[after - 1]) == 2 && disk[after] == 0xFFFF_FFFF &&
        disk[after + 2] == Unit(at)
  {
    hide Segment;
    var lng, after := |r.words| / 2, at + |r.words|;
    var post := Postfix(r.idtyp, lng, at);
    SegmentLength(disk, at - 1, r.words);
    SegmentLength(disk, after - 1, post);
    Within(disk, at - 1, r.words, 0);
    Within(disk, at - 1, r.words, 1);
    Within(disk, after - 1, post, 0);
    Within(disk, after - 1, post, 1);
    Within(disk, after - 1, post, 3);
    FirstWordRead(r.idtyp, lng);
    FirstWordRead(0, 2);
  }

  /** What `Skip` reads before record k. */
  lemma ReadBackward(disk: seq<word>, recs: seq<SeqRec>, first: nat, k: nat)
    requires Layout(disk, recs, first) && k <= |recs|
    ensures var at := Pos(recs, first, k);
      if k == 0 then at == first
      else
        var before := Pos(recs, first, k - 1);
        first + 4 < at && before >= 1 && at - 1 <= |disk| && before < |disk| && IdtypOf(disk[at - 5]) == 0 &&
          LngOf(disk[at - 5]) == 2 &&
        disk[at - 4] == 0xFFFF_FFFF && disk[at - 2] == Unit(before) && disk[before] == Unit(before) && before % 2 == 1
  {
    hide Aligned;
    if k > 0 {
      assert RecordThere(disk, recs, first, k - 1);
      ReadRecord(disk, recs[k - 1], Pos(recs, first, k - 1));
      PosOrder(recs, first, 0, k - 1);
    }
  }

  /** A record of type 112 is written, and is where its handle says, but a reader that starts at
      the beginning never gets past it. */
  method NeverPassed(header: seq<word>, data: array<word>, nbits: nat) returns (f: SequentialFile, err: int)
    requires 16 <= |header| < 0x1000 && |header| % 2 == 0 && nbits % 64 == 0 && 2 <= nbits / 32
    requires nbits / 32 + 128 <= data.Length
    requires data.Length >= 2 && IdtypOf(data[0]) == 112 && nbits / 32 + 128 < 0x100_0000
    modifies data
    ensures fresh(f) && f.Valid() && err == 0 && |f.recs| == 1 && f.recs[0].idtyp == 112
    ensures f.curAddr == f.first == Pos(f.recs, f.first, 0)
    ensures f.nrec == 1
  {
    hide Layout;
    f := new SequentialFile.Create(header);
    err := f.Append(data, nbits);
    f.Open(|header|);
    err := f.Skip(1, 0);
    assert !Passed(f.recs, 0);
    Stuck(f.recs, 0, 0, 1);
  }
}
