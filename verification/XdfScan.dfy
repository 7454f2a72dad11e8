/** Scans of a closed XDF file from end to end: the diagnosis of a file (`c_qdfdiag`) and its
    compaction (`c_xdfuse`). */
module XdfScan {
  import opened Words
  import opened WordDisk
  import opened XdfFormat
  import opened XdfLayout
  import opened XdfSteps
  import opened XdfSound
  import opened XdfClosing
  import opened XdfFile

  /** Position of extent i, in words counted from 1. */
  ghost function WordPos(h: FileHeader, ex: seq<Extent>, i: nat): int
    requires i <= |ex|
  {
    2 * StartAt(ex, i, h.lprm, h.lng + 1) - 1
  }

  /** What a scan reads at extent i, and where it goes next. */
  lemma ScanStep(h: FileHeader, disk: seq<word>, pages: seq<Page>, ex: seq<Extent>, i: nat)
    requires ClosedFile(h, disk, pages, ex) && i < |ex|
    ensures var pos, u := WordPos(h, ex, i), Units(ex[i], h.lprm);
      1 <= pos && pos + 1 <= |disk| && ex[i].addr == disk[pos] && 2 * (ex[i].addr - 1) + 1 == pos &&
      LngOf(disk[pos - 1]) == u >= 2 && WordPos(h, ex, i + 1) == pos + 2 * u <= |disk| + 1 &&
      IdtypOf(disk[pos - 1]) == (if i % STRIDE == 0 then 0 else DiskIdtyp(RecordOf(ex, i)))
    ensures i % STRIDE == 0 <==> ex[i].DirPage?
    ensures i % STRIDE != 0 ==>
      IsRecord(ex[i], h.lprm) && Segment(disk, WordPos(h, ex, i) - 1, RecordWords(ex[i], h.lprm))
  {
    hide ClosedFile, FileSound, Segment, StartAt, Units, IsRecord, DiskIdtyp;
    ScanPlace(h, disk, pages, ex, i);
    if i % STRIDE == 0 { ScanPage(h, disk, pages, ex, i); } else { ScanRecord(h, disk, pages, ex, i); }
  }

  lemma ScanPlace(h: FileHeader, disk: seq<word>, pages: seq<Page>, ex: seq<Extent>, i: nat)
    requires ClosedFile(h, disk, pages, ex) && i < |ex|
    ensures 1 <= ex[i].addr && 2 * (ex[i].addr - 1) + 1 == WordPos(h, ex, i)
    ensures WordPos(h, ex, i + 1) == WordPos(h, ex, i) + 2 * Units(ex[i], h.lprm) <= |disk| + 1
    ensures i % STRIDE == 0 <==> ex[i].DirPage?
  {
    hide Segment, StartAt, PageOnDisk, RecordOnDisk, PageMatches, Units;
    assert InPlace(ex, i, h.lprm, h.lng + 1);
    Inside(ex, i, h.lprm, h.lng + 1, h.fsiz + 1);
    NextStart(ex, i, h.lprm, h.lng + 1);
  }

  lemma ScanPage(h: FileHeader, disk: seq<word>, pages: seq<Page>, ex: seq<Extent>, i: nat)
    requires ClosedFile(h, disk, pages, ex) && i < |ex| && i % STRIDE == 0 && 1 <= ex[i].addr && ex[i].DirPage?
    ensures var at := 2 * (ex[i].addr - 1);
      at + 1 < |disk| && IdtypOf(disk[at]) == 0 && LngOf(disk[at]) == Units(ex[i], h.lprm) >= 2 &&
        disk[at + 1] == ex[i].addr
  {
    hide Segment, StartAt, CleanPage, AllErased, EntryMatches, Unused, RecordOnDisk;
    var p := i / STRIDE;
    assert PageMatches(pages, p, ex, h.lprm) && PageOnDisk(disk, pages, p, ex, h.lprm, false);
    var first := [FirstWord(0, PageUnits(h.lprm)), pages[p].addr];
    assert first + [] == first;
    FirstTwo(disk, 2 * (ex[i].addr - 1), 0, PageUnits(h.lprm), pages[p].addr, []);
  }

  lemma ScanRecord(h: FileHeader, disk: seq<word>, pages: seq<Page>, ex: seq<Extent>, i: nat)
    requires ClosedFile(h, disk, pages, ex) && i < |ex| && i % STRIDE != 0 && 1 <= ex[i].addr && ex[i].Record?
    ensures var at := 2 * (ex[i].addr - 1);
      at + 1 < |disk| && IdtypOf(disk[at]) == DiskIdtyp(ex[i]) && LngOf(disk[at]) == Units(ex[i], h.lprm) >= 2 &&
        disk[at + 1] == ex[i].addr &&
      IsRecord(ex[i], h.lprm) && ex[i].addr < WORD_BASE && Segment(disk, at, RecordWords(ex[i], h.lprm))
  {
    hide Segment, StartAt, PageOnDisk, PageMatches;
    assert RecordOnDisk(disk, ex, i, h.lprm);
    FirstTwo(disk, 2 * (ex[i].addr - 1), DiskIdtyp(ex[i]), Units(ex[i], h.lprm), ex[i].addr, ex[i].body);
  }

  function RecordOf(ex: seq<Extent>, i: nat): (e: Extent)
    ensures e.Record?
  {
    if i < |ex| && ex[i].Record? then ex[i] else Record(0, 0, [], false, false)
  }

  lemma NextStart(ex: seq<Extent>, i: nat, lprm: nat, start: nat)
    requires i < |ex|
    ensures StartAt(ex, i + 1, lprm, start) == StartAt(ex, i, lprm, start) + Units(ex[i], lprm)
  {
  }

  lemma FirstTwo(disk: seq<word>, at: nat, idtyp: nat, lng: nat, addr: word, body: seq<word>)
    requires idtyp < 0x100 && lng < 0x100_0000 && Segment(disk, at, [FirstWord(idtyp, lng), addr] + body)
    ensures at + 1 < |disk| && IdtypOf(disk[at]) == idtyp && LngOf(disk[at]) == lng && disk[at + 1] == addr
  {
    FirstWordRead(idtyp, lng);
    var ws := [FirstWord(idtyp, lng), addr] + body;
    Within(disk, at, ws, 0);
    Within(disk, at, ws, 1);
  }

  /** Where a scan starts and ends. */
  lemma ScanEnds(h: FileHeader, disk: seq<word>, pages: seq<Page>, ex: seq<Extent>)
    requires ClosedFile(h, disk, pages, ex)
    ensures |ex| >= 1 && WordPos(h, ex, 0) == 2 * h.lng + 1 && WordPos(h, ex, |ex|) == |disk| + 1
    ensures |ex| <= STRIDE * MAX_DIR_PAGES
    ensures |disk| == 2 * h.fsiz
  {
    hide InPlace, PageOnDisk, RecordOnDisk, PageMatches, Segment;
  }

  /** Counts of the first extents. */
  ghost predicate Seen(c: Counts, tot: nat, act: nat, eff: nat, ndirect: nat, big: nat)
  {
    tot == c.records && act + c.gone == c.records && eff == c.gone && ndirect == c.pages && big == c.biggest
  }

  lemma SeenMore(h: FileHeader, disk: seq<word>, pages: seq<Page>, ex: seq<Extent>, i: nat)
    requires ClosedFile(h, disk, pages, ex) && i < |ex|
    ensures CountsOf(ex[..i + 1], h.lprm) == AddCount(CountsOf(ex[..i], h.lprm), ex[i], h.lprm)
    ensures i % STRIDE != 0 ==>
      (DiskIdtyp(RecordOf(ex, i)) == 255 <==> Gone(RecordOf(ex, i))) && DiskIdtyp(RecordOf(ex, i)) >= 1
    ensures i % STRIDE != 0 ==> (DiskIdtyp(RecordOf(ex, i)) < 127 <==> !Gone(RecordOf(ex, i)))
  {
    hide FileSound, AddCount;
    assert ex[..i + 1][..i] == ex[..i];
    ScanPlace(h, disk, pages, ex, i);
    if ex[i].Record? { MarksOnDisk(h, disk, pages, ex, i); }
  }

  /** `c_qdfdiag`: counts what the file holds, and compares with its header.  They are the
      same just when no record of type 126 is left undeleted. */
  method Diagnose(disk: seq<word>, ghost h: FileHeader, ghost pages: seq<Page>, ghost ex: seq<Extent>)
    returns (ret: int, tot: nat, act: nat, eff: nat, ndirect: nat, leplusgros: nat)
    requires ClosedFile(h, disk, pages, ex)
    ensures Seen(CountsOf(ex, h.lprm), tot, act, eff, ndirect, leplusgros)
    ensures ret == if Plain(ex) then 0 else ERR_DAMAGED
  {
    hide ClosedFile, FileSound, StartAt, CountsOf, ParseHeader, Units;
    HeaderRead(h, disk, pages, ex);
    ScanEnds(h, disk, pages, ex);
    var lng := LngOf(disk[0]);
    var fh := ParseHeader(disk[..2 * lng]);
    var nw := |disk|;
    var readpos: int := 1 + 2 * lng;
    var eofile := false;
    ret, tot, act, eff, ndirect, leplusgros := 0, 0, 0, 0, 0, 0;
    ghost var i := 0;
    NoCounts(ex, h.lprm);
    while !eofile
      invariant i <= |ex| && readpos == WordPos(h, ex, i) && (eofile <==> i == |ex|)
      invariant Seen(CountsOf(ex[..i], h.lprm), tot, act, eff, ndirect, leplusgros)
      decreases |ex| - i
    {
      ScanStep(h, disk, pages, ex, i);
      SeenMore(h, disk, pages, ex, i);
      var first, addr: int := disk[readpos - 1], 2 * (disk[readpos] as int - 1) + 1;
      if addr != readpos { assert false; }
      if LngOf(first) < 2 { assert false; }
      if IdtypOf(first) == 0 {
        ndirect := ndirect + 1;
      } else {
        if IdtypOf(first) == 255 { eff := eff + 1; } else { act := act + 1; }
        tot := tot + 1;
        leplusgros := if LngOf(first) > leplusgros then LngOf(first) else leplusgros;
      }
      readpos := readpos + 2 * LngOf(first);
      EndReached(h, disk, pages, ex, i + 1);
      if readpos > nw { eofile := true; }
      i := i + 1;
    }
    assert ex[..|ex|] == ex;
    var theSame := fh.nxtn == tot && fh.nrec == act && fh.nxtn - fh.nrec == eff && fh.nbig == leplusgros &&
      fh.nbd == ndirect;
    SameCounts(h, disk, pages, ex);
    if !theSame { ret := ERR_DAMAGED; }
  }

  /** A record of type 126 is put in a new file and the file is closed: the diagnosis says that
      the file is damaged. */
  method Damaged126(sign: word, keys: seq<word>, data: array<word>, nbits: nat) returns (ret: int)
    requires |keys| == 0 && nbits % 64 == 0 && IsBuffer(data[..], nbits / 32, 2) && IdtypOf(data[0]) == 126
    modifies data
    ensures ret == ERR_DAMAGED
  {
    hide ClosedFile, CountsOf, RandomFile.Sound, RandomFile.CursorSound;
    var f := new RandomFile.Create(1, sign, 0, 2, 0, 0, keys);
    NoHandle(f);
    f.SoundRoom();
    PlainHeader(f);
    var err := f.Put(0, data, nbits);
    ghost var ex := f.extents;
    assert |ex| == 2 && ex[1].Record? && ex[1].idtyp == 126 && !ex[1].deleted;
    f.Close(false);
    assert f.extents[1] == WithMark(ex[1]);
    assert !Plain(f.extents);
    var tot, act, eff, ndirect, leplusgros;
    ret, tot, act, eff, ndirect, leplusgros := Diagnose(f.disk, f.closedHeader, f.closedPages, f.extents);
  }

  /** A new file of two words of keys is small. */
  lemma PlainHeader(f: RandomFile)
    requires f.Valid() && f.header.lprm == 2 && f.header.fsiz == 8 + PageUnits(2) && f.extents == [DirPage(9)]
    requires f.header.nrwr == 0 && f.erasures == 0
    ensures f.header.neff == 0 && f.header.fsiz + 1 + PageUnits(2) < 0x10_0000 && |f.extents| % STRIDE == 1
  {
    hide RandomFile.Sound;
  }

  lemma NoCounts(ex: seq<Extent>, lprm: nat)
    ensures CountsOf(ex[..0], lprm) == Counts(0, 0, 0, 0, 0)
  {
  }

  lemma EndReached(h: FileHeader, disk: seq<word>, pages: seq<Page>, ex: seq<Extent>, i: nat)
    requires ClosedFile(h, disk, pages, ex) && i <= |ex|
    ensures WordPos(h, ex, i) > |disk| <==> i == |ex|
  {
    hide ClosedFile, StartAt, FileSound;
    ScanEnds(h, disk, pages, ex);
    if i < |ex| { ScanStep(h, disk, pages, ex, i); }
  }

  lemma SameCounts(h: FileHeader, disk: seq<word>, pages: seq<Page>, ex: seq<Extent>)
    requires ClosedFile(h, disk, pages, ex)
    ensures Counted(h, ex) && (CountsOf(ex, h.lprm).gone == CountsOf(ex, h.lprm).deleted <==> Plain(ex))
  {
    hide Tiled, Directory, OnDisk, Segment;
    CountsBounds(ex, h.lprm);
  }

  // ----- Compaction -----

  /** The records that are left, in file order, each with its type. */
  ghost function LiveRecords(ex: seq<Extent>): seq<(nat, seq<word>)>
  {
    if ex == [] then []
    else
      var rest, e := LiveRecords(ex[..|ex| - 1]), ex[|ex| - 1];
      if e.Record? && !Gone(e) then rest + [(e.idtyp, e.body)] else rest
  }

  /** Every n-th of a list, from the k-th on. */
  ghost function Deal(recs: seq<(nat, seq<word>)>, k: nat, n: nat): seq<(nat, seq<word>)>
    requires n >= 1
  {
    if recs == [] then []
    else
      var rest, last := Deal(recs[..|recs| - 1], k, n), |recs| - 1;
      if last % n == k then rest + [recs[last]] else rest
  }

  lemma LiveGrows(ex: seq<Extent>, e: Extent)
    ensures LiveRecords(ex + [e]) ==
      if e.Record? && !Gone(e) then LiveRecords(ex) + [(e.idtyp, e.body)] else LiveRecords(ex)
  {
    assert (ex + [e])[..|ex|] == ex;
  }

  lemma DealGrows(recs: seq<(nat, seq<word>)>, r: (nat, seq<word>), k: nat, n: nat)
    requires n >= 1
    ensures Deal(recs + [r], k, n) == if |recs| % n == k then Deal(recs, k, n) + [r] else Deal(recs, k, n)
  {
    assert (recs + [r])[..|recs|] == recs;
  }

  /** Dealing gives each element to one hand, and keeps the order. */
  lemma {:induction false} DealLength(recs: seq<(nat, seq<word>)>, k: nat, n: nat)
    requires k < n
    ensures |Deal(recs, k, n)| == (|recs| + n - 1 - k) / n
  {
    if recs == [] {
      ModUniqueInt(n, 0, n - 1 - k, n - 1 - k);
    } else {
      DealLength(recs[..|recs| - 1], k, n);
      NextTurn(|recs| - 1, k, n);
    }
  }

  /** The count of turns of hand k goes up when it is its turn. */
  lemma NextTurn(m: nat, k: nat, n: nat)
    requires k < n
    ensures (m + n - k) / n == (m + n - 1 - k) / n + if m % n == k then 1 else 0
    ensures m % n == k ==> (m + n - 1 - k) / n == m / n
  {
    var q, r := m / n, m % n;
    DivMod(m, n);
    if r < k {
      ModUniqueInt(n, q, r + n - k, m + n - k);
      ModUniqueInt(n, q, r + n - 1 - k, m + n - 1 - k);
    } else if r == k {
      NextMultiple(n, q);
      ModUniqueInt(n, q + 1, 0, m + n - k);
      ModUniqueInt(n, q, n - 1, m + n - 1 - k);
    } else {
      NextMultiple(n, q);
      ModUniqueInt(n, q + 1, r - k, m + n - k);
      ModUniqueInt(n, q + 1, r - k - 1, m + n - 1 - k);
    }
  }

  lemma NextMultiple(n: nat, q: nat)
    ensures n * (q + 1) == n * q + n
  {
  }

  lemma {:induction false} DealPlace(recs: seq<(nat, seq<word>)>, t: nat, n: nat)
    requires n >= 1 && t < |recs|
    ensures t % n < n && t / n < |Deal(recs, t % n, n)| && Deal(recs, t % n, n)[t / n] == recs[t]
  {
    var rest, m := recs[..|recs| - 1], |recs| - 1;
    if t < m {
      DealPlace(rest, t, n);
    } else {
      DealLength(rest, t % n, n);
      NextTurn(m, t % n, n);
    }
  }

  lemma LiveAfterAppend(ex: seq<Extent>, idtyp: nat, body: seq<word>, lprm: nat, end: nat)
    requires idtyp != 126
    ensures LiveRecords(Appended(ex, idtyp, body, lprm, end)) == LiveRecords(ex) + [(idtyp, body)]
    ensures |Appended(ex, idtyp, body, lprm, end)| == |ex| + if |ex| % STRIDE == 0 then 2 else 1
  {
    if |ex| % STRIDE == 0 {
      LiveGrows(ex, DirPage(end));
      LiveGrows(ex + [DirPage(end)], Record(end + PageUnits(lprm), idtyp, body, false, false));
    } else {
      LiveGrows(ex, Record(end, idtyp, body, false, false));
    }
  }

  /** The most units of a directory page. */
  const PAGE_LIMIT: nat := 4100

  /** Records that a file of that many extents has entries for, deleted ones included. */
  function Entries(extents: nat): nat
  {
    extents - (extents + STRIDE - 1) / STRIDE
  }

  /** Records that fit after them, until no page can be added. */
  function Vacant(extents: nat): nat
  {
    var most := MAX_DIR_PAGES * ENTRIES_PER_PAGE;
    if Entries(extents) < most then most - Entries(extents) else 0
  }

  function Taken<T>(s: seq<T>, room: nat): seq<T>
  {
    if |s| <= room then s else s[..room]
  }

  lemma TakenMore<T>(s: seq<T>, x: T, room: nat)
    ensures Taken(s + [x], room) == if |s| < room then Taken(s, room) + [x] else Taken(s, room)
    ensures |Taken(s, room)| == if |s| < room then |s| else room
  {
  }

  /** One entry more, after a page more when it is due. */
  lemma EntriesGrow(extents: nat)
    requires 1 <= extents <= STRIDE * MAX_DIR_PAGES
    ensures Entries(extents + if extents % STRIDE == 0 then 2 else 1) == Entries(extents) + 1
    ensures Vacant(extents) == 0 <==> extents == STRIDE * MAX_DIR_PAGES
  {
  }

  /** What a destination was before. */
  datatype Base = Base(live: seq<(nat, seq<word>)>, extents: nat, fsiz: nat)

  /** A destination to which that many units were copied, of the records dealt to it. */
  ghost predicate Destination(d: RandomFile, lprm: nat, base: Base, dealt: seq<(nat, seq<word>)>, copied: nat)
    reads d
  {
    d.Valid() && d.Writable() && d.header.lprm == lprm <= 16 && d.header.neff + 1 < WORD_BASE &&
      1 <= |d.extents| <= STRIDE * MAX_DIR_PAGES &&
    LiveRecords(d.extents) == base.live + Taken(dealt, Vacant(base.extents)) &&
    base.extents <= STRIDE * MAX_DIR_PAGES &&
      Entries(|d.extents|) == Entries(base.extents) + |Taken(dealt, Vacant(base.extents))| &&
    Roomy(d.header.fsiz, |d.extents|, base.fsiz, copied)
  }

  /** A file with that many extents, that many units of them before and in the records copied. */
  predicate Roomy(fsiz: nat, extents: nat, before: nat, copied: nat)
  {
    fsiz <= before + PAGE_LIMIT * ((extents + STRIDE - 1) / STRIDE) + copied
  }

  lemma RoomyGrows(fsiz: nat, extents: nat, before: nat, copied: nat, lng: nat, lprm: nat)
    requires Roomy(fsiz, extents, before, copied) && lprm <= 16 && extents <= STRIDE * MAX_DIR_PAGES
    ensures Roomy(AfterAppend(fsiz, extents, 2 * lng, lprm), extents + (if extents % STRIDE == 0 then 2 else 1), before,
      copied + lng)
    ensures fsiz + PageUnits(lprm) <= 0x4F_0000 + before + copied && Roomy(fsiz, extents, before, copied + lng)
  {
  }

  /** The destination is full exactly when as many records were dealt to it as it could take. */
  lemma FullIff(base: nat, extents: nat, dealt: nat)
    requires 1 <= extents <= STRIDE * MAX_DIR_PAGES && base <= STRIDE * MAX_DIR_PAGES
    requires Entries(extents) == Entries(base) + if dealt < Vacant(base) then dealt else Vacant(base)
    ensures dealt < Vacant(base) <==> extents != STRIDE * MAX_DIR_PAGES
  {
  }

  lemma DestinationLater(d: RandomFile, lprm: nat, base: Base, dealt: seq<(nat, seq<word>)>, copied: nat, copied': nat)
    requires Destination(d, lprm, base, dealt, copied) && copied <= copied'
    ensures Destination(d, lprm, base, dealt, copied')
  {
    hide LiveRecords, Taken, Entries, Vacant;
  }

  /** Reads one record of the source and appends it to a destination; when that is full, the
      error is not looked at. */
  method CopyRecord(disk: seq<word>, readpos: nat, lng: nat, d: RandomFile, ghost e: Extent, ghost base: Base,
                    ghost dealt: seq<(nat, seq<word>)>,
                    ghost copied: nat, ghost lprm: nat)
    requires 1 <= readpos && readpos - 1 + 2 * lng <= |disk| && IsRecord(e, lprm) && e.addr < WORD_BASE && !Gone(e)
    requires lng == Units(e, lprm)
    requires Segment(disk, readpos - 1, RecordWords(e, lprm)) && 2 <= lprm
    requires Destination(d, lprm, base, dealt, copied) && base.fsiz + copied + lng + 0x50_0000 < 0x4000_0000
    modifies d
    ensures Destination(d, lprm, base, dealt + [(e.idtyp, e.body)], copied + lng)
  {
    hide FileSound, LiveRecords, Roomy, RecordWords, PageUnits, Appended, AfterAppend, Entries, Vacant, Taken;
    hide RandomFile.Valid, RandomFile.Sound;
    RoomyGrows(d.header.fsiz, |d.extents|, base.fsiz, copied, lng, lprm);
    TakenMore(dealt, (e.idtyp, e.body), Vacant(base.extents));
    FullIff(base.extents, |d.extents|, |dealt|);
    EntriesGrow(|d.extents|);
    var nbwords := 2 * lng;
    var buf := ReadRecord(disk, readpos, nbwords);
    assert buf[..] == RecordWords(e, lprm);
    RecordIsBuffer(e, lprm);
    assert buf[2..nbwords] == e.body;
    LiveAfterAppend(d.extents, e.idtyp, e.body, lprm, d.header.fsiz + 1);
    NoHandle(d);
    var err := d.Put(0, buf, nbwords * 4 * 8);
    ExtentsBound(d);
  }

  lemma ExtentsBound(d: RandomFile)
    requires d.Valid()
    ensures 1 <= |d.extents| <= STRIDE * MAX_DIR_PAGES
  {
  }

  method ReadRecord(disk: seq<word>, readpos: nat, nbwords: nat) returns (buf: array<word>)
    requires 1 <= readpos && readpos - 1 + nbwords <= |disk|
    ensures fresh(buf) && buf.Length == nbwords && buf[..] == disk[readpos - 1..readpos - 1 + nbwords]
  {
    buf := new word[nbwords];
    for k := 0 to nbwords
      invariant forall j | 0 <= j < k :: buf[j] == disk[readpos - 1 + j]
    {
      buf[k] := disk[readpos - 1 + k];
    }
  }

  lemma RecordIsBuffer(e: Extent, lprm: nat)
    requires IsRecord(e, lprm) && e.addr < WORD_BASE && !Gone(e) && lprm >= 2
    ensures IsBuffer(RecordWords(e, lprm), 2 * Units(e, lprm), lprm) && IdtypOf(RecordWords(e, lprm)[0]) == e.idtyp
    ensures RecordWords(e, lprm)[2..2 * Units(e, lprm)] == e.body
  {
    FirstWordRead(e.idtyp, Units(e, lprm));
  }

  lemma NoHandle(d: RandomFile)
    requires d.Valid()
    ensures InPage(0, d.pages)
  {
  }

  /** Units of the source that were visited. */
  ghost function Visited(h: FileHeader, ex: seq<Extent>, i: nat): nat
    requires i <= |ex|
  {
    StartAt(ex, i, h.lprm, h.lng + 1)
  }

  /** The destinations after i extents of the source. */
  ghost predicate Dealt(dests: seq<RandomFile>, bases: seq<Base>, h: FileHeader, ex: seq<Extent>, i: nat, copied: nat)
    requires i <= |ex| && dests != [] && |bases| == |dests|
    reads dests
  {
    forall k: nat | k < |dests| :: Dealt1(dests, bases, k, h, ex, i, copied)
  }

  ghost predicate Dealt1(dests: seq<RandomFile>, bases: seq<Base>, k: nat, h: FileHeader, ex: seq<Extent>, i: nat,
                         copied: nat)
    requires i <= |ex| && k < |dests| == |bases|
    reads dests
  {
    Destination(dests[k], h.lprm, bases[k], Deal(LiveRecords(ex[..i]), k, |dests|), copied)
  }

  ghost predicate Distinct(dests: seq<RandomFile>)
  {
    forall a: nat, b: nat | a < b < |dests| :: dests[a] != dests[b]
  }

  /** Copies record i of the source to the next destination. */
  method DealRecord(disk: seq<word>, readpos: nat, lng: nat, dests: seq<RandomFile>, nbrec: nat, ghost bases: seq<Base>,
                    ghost h: FileHeader, ghost pages: seq<Page>, ghost ex: seq<Extent>, ghost i: nat, ghost copied: nat)
    requires ClosedFile(h, disk, pages, ex) && dests != [] && |bases| == |dests| && Distinct(dests) && i < |ex|
    requires ex[i].Record? && !Gone(ex[i])
    requires readpos == WordPos(h, ex, i) && lng == Units(ex[i], h.lprm)
    requires forall k: nat | k < |dests| :: bases[k].fsiz + copied + lng + 0x50_0000 < 0x4000_0000
    requires Dealt(dests, bases, h, ex, i, copied) && nbrec == |LiveRecords(ex[..i])|
    modifies dests
    ensures Dealt(dests, bases, h, ex, i + 1, copied + lng) && nbrec + 1 == |LiveRecords(ex[..i + 1])|
  {
    hide ClosedFile, Destination, LiveRecords, Deal, RecordWords;
    ScanPlace(h, disk, pages, ex, i);
    ScanRecord(h, disk, pages, ex, i);
    ScanEnds(h, disk, pages, ex);
    ghost var e, recs := ex[i], LiveRecords(ex[..i]);
    assert ex[..i + 1] == ex[..i] + [e];
    LiveGrows(ex[..i], e);
    var t := if |dests| > 1 then nbrec % |dests| else 0;
    assert t == nbrec % |dests| && t < |dests|;
    assert Dealt1(dests, bases, t, h, ex, i, copied);
    KeyLength(h, disk, pages, ex);
    CopyRecord(disk, readpos, lng, dests[t], e, bases[t], Deal(recs, t, |dests|), copied, h.lprm);
    ghost var next, more := i + 1, copied + lng;
    forall k: nat | k < |dests| ensures Dealt1(dests, bases, k, h, ex, next, more) {
      assert old(Dealt1(dests, bases, k, h, ex, i, copied));
      DealGrows(recs, (e.idtyp, e.body), k, |dests|);
      if k != t {
        assert dests[k] != dests[t];
        DestinationLater(dests[k], h.lprm, bases[k], Deal(recs, k, |dests|), copied, copied + lng);
      }
    }
  }

  lemma KeyLength(h: FileHeader, disk: seq<word>, pages: seq<Page>, ex: seq<Extent>)
    requires ClosedFile(h, disk, pages, ex)
    ensures 2 <= h.lprm <= 16
  {
    hide StartAt, InPlace, Directory, OnDisk;
  }

  /** Passes over an extent that is not copied. */
  lemma SkipExtent(dests: seq<RandomFile>, bases: seq<Base>, h: FileHeader, ex: seq<Extent>, i: nat, copied: nat,
                   lng: nat)
    requires dests != [] && |bases| == |dests| && i < |ex| && Dealt(dests, bases, h, ex, i, copied)
    requires !(ex[i].Record? && !Gone(ex[i]))
    ensures Dealt(dests, bases, h, ex, i + 1, copied + lng) && LiveRecords(ex[..i + 1]) == LiveRecords(ex[..i])
  {
    hide Destination, Deal, LiveRecords;
    assert ex[..i + 1] == ex[..i] + [ex[i]];
    LiveGrows(ex[..i], ex[i]);
    var next, more := i + 1, copied + lng;
    forall k: nat | k < |dests| ensures Dealt1(dests, bases, k, h, ex, next, more) {
      assert Dealt1(dests, bases, k, h, ex, i, copied);
      DestinationLater(dests[k], h.lprm, bases[k], Deal(LiveRecords(ex[..i]), k, |dests|), copied, copied + lng);
    }
  }

  /** A file that can be written to, with keys as long, that leaves room for the units of the
      source below the limit of addresses. */
  ghost predicate CanTake(d: RandomFile, lprm: nat, fsiz: nat)
    reads d
  {
    d.Valid() && d.Writable() && d.header.lprm == lprm && d.header.neff + 1 < WORD_BASE &&
    d.header.fsiz + fsiz + 1 + 0x50_0000 < 0x4000_0000
  }

  ghost function BaseOf(d: RandomFile): Base
    reads d
  {
    Base(LiveRecords(d.extents), |d.extents|, d.header.fsiz)
  }

  ghost function BasesOf(dests: seq<RandomFile>): (bases: seq<Base>)
    reads dests
    ensures |bases| == |dests| && forall k: nat | k < |dests| :: bases[k] == BaseOf(dests[k])
  {
    seq(|dests|, k requires 0 <= k < |dests| reads dests => BaseOf(dests[k]))
  }

  lemma NothingDealt(dests: seq<RandomFile>, h: FileHeader, ex: seq<Extent>, fsiz: nat)
    requires dests != [] && h.lprm <= 16 && forall k: nat | k < |dests| :: CanTake(dests[k], h.lprm, fsiz)
    ensures Dealt(dests, BasesOf(dests), h, ex, 0, Visited(h, ex, 0)) && LiveRecords(ex[..0]) == []
  {
    hide FileSound;
    forall k: nat | k < |dests| ensures Dealt1(dests, BasesOf(dests), k, h, ex, 0, Visited(h, ex, 0)) {
      assert CanTake(dests[k], h.lprm, fsiz);
      ExtentsBound(dests[k]);
    }
  }

  lemma ZeroAddress(h: FileHeader, disk: seq<word>, pages: seq<Page>, ex: seq<Extent>)
    requires ClosedFile(h, disk, pages, ex)
    ensures |disk| >= 2 && IdtypOf(disk[0]) == 0 && LngOf(disk[0]) == h.lng && disk[1] == 0
  {
    hide Tiled, Directory, OnDisk;
    FirstTwo(disk, 0, 0, h.lng, 0, []);
  }

  /** What the compaction knows at extent i. */
  lemma CompactStep(h: FileHeader, disk: seq<word>, pages: seq<Page>, ex: seq<Extent>, i: nat)
    requires ClosedFile(h, disk, pages, ex) && i < |ex|
    ensures var pos, u := WordPos(h, ex, i), Units(ex[i], h.lprm);
      1 <= pos && pos + 1 <= |disk| && 2 * (ex[i].addr - 1) + 1 == pos && disk[pos] == ex[i].addr >= 1 &&
      LngOf(disk[pos - 1]) == u && pos + 2 * u == WordPos(h, ex, i + 1) <= |disk| + 1 &&
      (0 < IdtypOf(disk[pos - 1]) < 127 <==> ex[i].Record? && !Gone(ex[i])) &&
      Visited(h, ex, i + 1) == Visited(h, ex, i) + u <= h.fsiz + 1 &&
      (WordPos(h, ex, i + 1) >= |disk| <==> i + 1 == |ex|)
  {
    hide ClosedFile, FileSound, StartAt, Units, DiskIdtyp;
    ScanStep(h, disk, pages, ex, i);
    SeenMore(h, disk, pages, ex, i);
    ScanEnds(h, disk, pages, ex);
    NextStart(ex, i, h.lprm, h.lng + 1);
    if i + 1 < |ex| { ScanStep(h, disk, pages, ex, i + 1); }
  }

  /** What destination k of n gets of the records that are left, when it had that many extents. */
  ghost function Received(ex: seq<Extent>, k: nat, n: nat, extents: nat): seq<(nat, seq<word>)>
    requires n >= 1
  {
    Taken(Deal(LiveRecords(ex), k, n), Vacant(extents))
  }

  /** `c_xdfuse` from a closed file: appends the records that are left, in file order, to the
      destinations in turn.  A destination keeps what it had, and takes the first of the records
      that are dealt to it, until its directory is full; those after them are lost, for the error
      is not looked at and they are counted all the same. */
  method Compact(disk: seq<word>, dests: seq<RandomFile>, ghost h: FileHeader, ghost pages: seq<Page>,
                 ghost ex: seq<Extent>)
    returns (nbrec: nat)
    requires ClosedFile(h, disk, pages, ex)
    requires dests != [] && Distinct(dests) && forall k: nat | k < |dests| :: CanTake(dests[k], h.lprm, h.fsiz)
    modifies dests
    ensures nbrec == |LiveRecords(ex)|
    ensures forall k: nat | k < |dests| :: dests[k].Valid()
    ensures forall k: nat | k < |dests| ::
      LiveRecords(dests[k].extents) == old(LiveRecords(dests[k].extents)) +
        Received(ex, k, |dests|, old(|dests[k].extents|))
  {
    hide ClosedFile, FileSound, StartAt, Deal, Units, Dealt, LiveRecords, RandomFile.Valid;
    KeyLength(h, disk, pages, ex);
    ScanEnds(h, disk, pages, ex);
    ZeroAddress(h, disk, pages, ex);
    NothingDealt(dests, h, ex, h.fsiz);
    EndReached(h, disk, pages, ex, 0);
    ghost var bases := BasesOf(dests);
    var fileSize := |disk|;
    var readpos: nat := 1;
    var nomore := fileSize == 0;
    nbrec := 0;
    ghost var i, atHeader := 0, true;
    while !nomore
      invariant i <= |ex| && (nomore <==> i == |ex|) && (atHeader ==> i == 0)
      invariant readpos == if atHeader then 1 else WordPos(h, ex, i)
      invariant Dealt(dests, bases, h, ex, i, Visited(h, ex, i)) && nbrec == |LiveRecords(ex[..i])|
      decreases |ex| - i, atHeader
    {
      CompactStep(h, disk, pages, ex, i);
      var addr: int := if disk[readpos] == 0 then 1 else disk[readpos];
      var idtyp, lng := IdtypOf(disk[readpos - 1]), LngOf(disk[readpos - 1]);
      if 2 * (addr - 1) + 1 != readpos { assert false; }
      if 0 < idtyp < 127 {
        var nbwords := 2 * lng;
        var lastWord := readpos + nbwords - 1;
        if lastWord <= fileSize {
          DealRecord(disk, readpos, lng, dests, nbrec, bases, h, pages, ex, i, Visited(h, ex, i));
          nbrec := nbrec + 1;
        }
      } else if !atHeader {
        SkipExtent(dests, bases, h, ex, i, Visited(h, ex, i), lng);
      }
      readpos := readpos + 2 * lng;
      if readpos >= fileSize { nomore := true; }
      // The file header has the type of a directory page.
      if atHeader { atHeader := false; } else { i := i + 1; }
    }
    AllDealt(dests, bases, h, ex);
  }

  lemma AllDealt(dests: seq<RandomFile>, bases: seq<Base>, h: FileHeader, ex: seq<Extent>)
    requires dests != [] && |bases| == |dests| && Dealt(dests, bases, h, ex, |ex|, Visited(h, ex, |ex|))
    ensures ex[..|ex|] == ex
    ensures forall k: nat | k < |dests| :: dests[k].Valid()
    ensures forall k: nat | k < |dests| ::
      LiveRecords(dests[k].extents) == bases[k].live + Received(ex, k, |dests|, bases[k].extents)
  {
    hide StartAt, Deal, LiveRecords, FileSound, Roomy, RandomFile.Valid, Taken, Vacant;
    assert ex[..|ex|] == ex;
    forall k: nat | k < |dests|
      ensures dests[k].Valid()
      ensures LiveRecords(dests[k].extents) == bases[k].live + Received(ex, k, |dests|, bases[k].extents)
    {
      assert Dealt1(dests, bases, k, h, ex, |ex|, Visited(h, ex, |ex|));
    }
  }

  /** Whether records are lost can be told before: a destination takes all that is dealt to it if
      and only if it has as many vacant entries. */
  lemma TakesAllIff<T>(dealt: seq<T>, extents: nat)
    ensures Taken(dealt, Vacant(extents)) == dealt <==> |dealt| <= Vacant(extents)
  {
  }

  /** A new destination always does. */
  lemma NewTakesAll(h: FileHeader, disk: seq<word>, pages: seq<Page>, ex: seq<Extent>, k: nat, n: nat)
    requires ClosedFile(h, disk, pages, ex) && k < n
    ensures Received(ex, k, n, 1) == Deal(LiveRecords(ex), k, n)
  {
    hide ClosedFile, LiveRecords, Deal;
    ScanEnds(h, disk, pages, ex);
    assert ex[..|ex|] == ex;
    LiveBound(h, disk, pages, ex, |ex|);
    DealLength(LiveRecords(ex), k, n);
    AtMostAll(|LiveRecords(ex)|, k, n);
  }

  lemma AtMostAll(m: nat, k: nat, n: nat)
    requires k < n
    ensures (m + n - 1 - k) / n <= m
  {
    var q := (m + n - 1 - k) / n;
    DivMod(m + n - 1 - k, n);
    if q > m {
      MulUp(n, m + 1, q);
      NextMultiple(n, m);
      MulUp(m, 1, n);
    }
  }

  lemma MulUp(n: nat, a: nat, b: nat)
    requires a <= b
    ensures n * a <= n * b
  {
  }

  lemma {:induction false} LiveBound(h: FileHeader, disk: seq<word>, pages: seq<Page>, ex: seq<Extent>, i: nat)
    requires ClosedFile(h, disk, pages, ex) && i <= |ex|
    ensures |LiveRecords(ex[..i])| <= Entries(i)
  {
    hide ClosedFile, Entries;
    if i > 0 {
      LiveBound(h, disk, pages, ex, i - 1);
      IsPageAt(h, disk, pages, ex, i - 1);
      EntriesStep(i - 1);
      assert ex[..i][..i - 1] == ex[..i - 1];
    }
  }

  lemma EntriesStep(i: nat)
    ensures Entries(i + 1) == Entries(i) + if i % STRIDE == 0 then 0 else 1
  {
  }

  lemma IsPageAt(h: FileHeader, disk: seq<word>, pages: seq<Page>, ex: seq<Extent>, i: nat)
    requires ClosedFile(h, disk, pages, ex) && i < |ex|
    ensures i % STRIDE == 0 ==> ex[i].DirPage?
  {
    hide Directory, OnDisk, StartAt;
    assert InPlace(ex, i, h.lprm, h.lng + 1);
  }

  /** Puts records of two units in a file until its directory is full. */
  method FillDirectory(f: RandomFile)
    requires f.Valid() && f.Writable() && f.header.lprm == 2 && f.header.neff == 0 && f.header.fsiz < 0x1000_0000
    modifies f
    ensures f.Valid() && f.Writable() && f.header.lprm == 2 && f.header.neff == 0 && f.header.fsiz < 0x1100_0000
    ensures |f.extents| == STRIDE * MAX_DIR_PAGES
  {
    hide FileSound, PageUnits, Appended, AfterAppend, Roomy, RandomFile.Valid, RandomFile.Sound;
    ghost var before, copied := f.header.fsiz, 0;
    ExtentsBound(f);
    SmallRoom(before, |f.extents|);
    var err := 0;
    while err == 0
      invariant f.Valid() && f.Writable() && f.header.lprm == 2 && f.header.neff == 0
      invariant 1 <= |f.extents| <= STRIDE * MAX_DIR_PAGES && copied <= 2 * |f.extents|
      invariant Roomy(f.header.fsiz, |f.extents|, before, copied)
      invariant err != 0 ==> |f.extents| == STRIDE * MAX_DIR_PAGES
      decreases STRIDE * MAX_DIR_PAGES - |f.extents|, err == 0
    {
      RoomyGrows(f.header.fsiz, |f.extents|, before, copied, 2, 2);
      LiveAfterAppend(f.extents, 1, [0, 0], 2, f.header.fsiz + 1);
      NoHandle(f);
      var buf := new word[4](k => if k == 0 then FirstWord(1, 2) else 0);
      FirstWordRead(1, 2);
      assert buf[2..4] == [0, 0];
      err := f.Put(0, buf, 128);
      if err == 0 { copied := copied + 2; }
      ExtentsBound(f);
    }
    RoomyGrows(f.header.fsiz, |f.extents|, before, copied, 2, 2);
  }

  lemma SmallRoom(fsiz: nat, extents: nat)
    ensures Roomy(fsiz, extents, fsiz, 0)
  {
  }

  /** A file whose directory is full: whatever the source, it takes nothing more. */
  method FullDirectory(sign: word, keys: seq<word>, fsiz: nat) returns (f: RandomFile)
    requires |keys| == 0 && fsiz < 0x1000_0000
    ensures fresh(f) && CanTake(f, 2, fsiz) && forall ex, k, n | 1 <= n :: Received(ex, k, n, |f.extents|) == []
  {
    hide RandomFile.Sound, RandomFile.CursorSound;
    f := new RandomFile.Create(1, sign, 0, 2, 0, 0, keys);
    f.SoundRoom();
    PlainHeader(f);
    FillDirectory(f);
    EntriesGrow(|f.extents|);
  }
}
