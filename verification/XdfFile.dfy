/** Random XDF files: an append-only file of records with a directory, whose records can be
    deleted and rewritten (`c_xdfput`, `c_xdfdel`, `c_xdfget2`, `add_dir_page`).  Files are
    not linked. */
module XdfFile {
  import opened Words
  import opened WordDisk
  import opened XdfFormat
  import opened XdfLayout
  import opened XdfSteps
  import opened XdfSound
  import opened XdfClosing

  /** The tests on the first word of an entry: special, then deleted. */
  function SlotError(w: word): int
  {
    if IdtypOf(w) == 0 then ERR_SPECIAL else if And(IdtypOf(w), 0x7E) == 0x7E then ERR_DELETED else 0
  }

  /** The first word of a slot. */
  function SlotWord(pages: seq<Page>, p: nat, j: nat): word
  {
    if p < |pages| && j < |pages[p].entries| && pages[p].entries[j] != [] then pages[p].entries[j][0] else 0
  }

  /** What the checks on a handle say, in the order of the source.  The check on the record
      number lets that of the first free slot through, whose type is whatever is there. */
  ghost function HandleError(handle: int, fileIndex: nat, pages: seq<Page>, ex: seq<Extent>): int
  {
    var p, j := PagenoFromHandle(handle), RecordFromHandle(handle);
    if IndexFromHandle(handle) != fileIndex then ERR_BAD_HNDL
    else if p >= |pages| then ERR_BAD_PAGENO
    else if j > pages[p].nent then ERR_BAD_HNDL
    else if j == pages[p].nent then SlotError(SlotWord(pages, p, j))
    else if Gone(RecordAt(ex, p, j)) then ERR_DELETED
    else 0
  }

  /** The handle of a free slot that the checks take for a record, because of what was left in
      its memory. */
  predicate Leftover(handle: int, pages: seq<Page>)
  {
    var p, j := PagenoFromHandle(handle), RecordFromHandle(handle);
    p < |pages| && j == pages[p].nent && SlotError(SlotWord(pages, p, j)) == 0
  }

  /** The checks read no further than the slots of a page. */
  predicate InPage(handle: int, pages: seq<Page>)
  {
    var p, j := PagenoFromHandle(handle), RecordFromHandle(handle);
    p < |pages| && j == pages[p].nent ==> j < ENTRIES_PER_PAGE
  }

  /** The extents after appending a record, with a directory page first when the last one is
      full. */
  ghost function Appended(ex: seq<Extent>, idtyp: nat, body: seq<word>, lprm: nat, end: nat): seq<Extent>
  {
    if |ex| % STRIDE == 0 then ex + [DirPage(end)] + [Record(end + PageUnits(lprm), idtyp, body, false, false)]
    else ex + [Record(end, idtyp, body, false, false)]
  }

  /** The size of the file after appending a record. */
  function AfterAppend(fsiz: nat, extents: nat, nwords: nat, lprm: nat): nat
  {
    fsiz + (if extents % STRIDE == 0 then PageUnits(lprm) else 0) + nwords / 2
  }

  function Magnitude(handle: int): nat
  {
    if handle < 0 then -handle else handle
  }

  /** Whether `Put` can write over the record of the handle: the lengths agree, and the handle
      is not negated. */
  ghost predicate Replaces(handle: int, nwords: nat, ex: seq<Extent>, lprm: nat)
  {
    handle > 0 && 2 * Units(RecordAt(ex, PagenoFromHandle(handle), RecordFromHandle(handle)), lprm) == nwords
  }

  ghost function PutError(handle: int, nbits: nat, h: FileHeader, readOnly: bool, fileIndex: nat, pages: seq<Page>,
                          ex: seq<Extent>): int
  {
    if nbits % 64 != 0 then ERR_BAD_ADDR
    else if h.rwflg == RDMODE || readOnly || (handle != 0 && h.rwflg == APPEND) then ERR_NO_WRITE
    else if handle != 0 && HandleError(Magnitude(handle), fileIndex, pages, ex) != 0
    then HandleError(Magnitude(handle), fileIndex, pages, ex)
    else if !Replaces(handle, nbits / 32, ex, h.lprm) && |ex| == STRIDE * MAX_DIR_PAGES then ERR_DIR_FULL
    else 0
  }

  /** The extents after `Put`: the record is appended, or written over the one of the handle;
      a record that is rewritten elsewhere is deleted. */
  ghost function AfterPut(ex: seq<Extent>, handle: int, idtyp: nat, body: seq<word>, lprm: nat, end: nat): seq<Extent>
  {
    var p, j := PagenoFromHandle(Magnitude(handle)), RecordFromHandle(Magnitude(handle));
    var i, e := IndexOf(p, j), RecordAt(ex, p, j);
    if handle == 0 || i >= |ex| then Appended(ex, idtyp, body, lprm, end)
    else if Replaces(handle, |body| + 2, ex, lprm) then ex[i := Record(e.addr, idtyp, body, false, false)]
    else Appended(ex[i := e.(deleted := true)], idtyp, body, lprm, end)
  }

  // ----- Free slots taken for records -----

  ghost predicate Misled(handle: int, pages: seq<Page>)
  {
    handle != 0 && Leftover(Magnitude(handle), pages)
  }

  function LeftoverWord(handle: int, pages: seq<Page>): word
  {
    SlotWord(pages, PagenoFromHandle(handle), RecordFromHandle(handle))
  }

  /** The address that was left in a slot. */
  function LeftoverAddress(handle: int, pages: seq<Page>): word
  {
    var p, j := PagenoFromHandle(handle), RecordFromHandle(handle);
    if p < |pages| && j < |pages[p].entries| && |pages[p].entries[j]| >= 2 then pages[p].entries[j][1] else 0
  }

  /** Whether the length left in the slot is that of the new record, which is then written at
      the address left with it. */
  predicate InLeftover(handle: int, nwords: nat, pages: seq<Page>)
  {
    handle > 0 && 2 * LngOf(LeftoverWord(Magnitude(handle), pages)) == nwords
  }

  predicate AddressInFile(handle: int, nwords: nat, pages: seq<Page>, disk: seq<word>)
  {
    var addr := LeftoverAddress(Magnitude(handle), pages);
    InLeftover(handle, nwords, pages) ==> 1 <= addr && 2 * (addr as int - 1) <= |disk|
  }

  /** The disk after a record is written at some address. */
  ghost function Overwrite(disk: seq<word>, addr: word, idtyp: nat, body: seq<word>): seq<word>
  {
    if 1 <= addr && 2 * (addr - 1) <= |disk| && idtyp < 0x100 && (|body| + 2) / 2 < 0x100_0000
    then Wawrit(disk, 2 * (addr - 1), [FirstWord(idtyp, (|body| + 2) / 2), addr] + body) else disk
  }

  /** One record more, and as many counted. */
  lemma CountedWrong(h: FileHeader, h': FileHeader, ex: seq<Extent>, ex': seq<Extent>)
    requires Counted(h, ex) && h'.nrec == h.nrec && h'.lprm == h.lprm && ex' != [] && ex == ex'[..|ex'| - 1]
    requires var e := ex'[|ex'| - 1]; e.Record? && !e.deleted
    ensures !Counted(h', ex')
  {
    assert ex' == ex + [ex'[|ex'| - 1]];
    CountsGrow(ex, ex'[|ex'| - 1], h.lprm);
  }

  class RandomFile {
    const fileIndex: nat
    const readOnly: bool
    var isOpen: bool
    var header: FileHeader
    var disk: seq<word>
    var nxtadr: nat
    var modified: bool
    var pages: seq<Page>

    // The cursor of searches: page and entry by number, -1 for none.
    var curDirPage: int
    var curEntry: int
    var curPageno: int
    var pageRecord: nat
    var pageNrecords: nat

    // What searches look for.
    var target: seq<word>
    var curMask: seq<word>
    var validTarget: bool

    /** What the file is made of, and the deletions asked for by `Delete`. */
    ghost var extents: seq<Extent>
    ghost var erasures: nat

    /** What memory held when the file was closed. */
    ghost var closedHeader: FileHeader
    ghost var closedPages: seq<Page>

    ghost predicate Sound()
      reads `isOpen, `header, `disk, `nxtadr, `modified, `pages, `extents
    {
      isOpen && 1 <= fileIndex < 0x400 && FileSound(header, disk, nxtadr, modified, pages, extents) &&
      (header.rwflg == RDMODE || readOnly ==> !modified && Segment(disk, 0, HeaderWords(header.(rwflg := 0))))
    }

    /** A rewrite deletes a record too, so that the difference counts the deletions proper. */
    ghost predicate Valid()
      reads this
    {
      Sound() && header.neff == header.nrwr + erasures && CursorSound()
    }

    /** After any run of operations the header counts what the file holds: pages, entries,
        records that are left, deletions asked for, and the longest record; and the next
        address is the end of the file. */
    lemma CountersAgree()
      requires Valid()
      ensures var c := CountsOf(extents, header.lprm);
        header.nbd == c.pages == |pages| && header.nxtn == c.records == |extents| - |pages| &&
          header.nrec == c.records - c.deleted &&
        header.nbig == c.biggest && header.neff - header.nrwr == erasures
      ensures nxtadr == 2 * header.fsiz + 1 && |disk| == 2 * header.fsiz
    {
      CountersFit(header, disk, nxtadr, modified, pages, extents);
      Room(header, disk, nxtadr, modified, pages, extents);
    }

    ghost predicate CursorSound()
      reads `pages, `curDirPage, `curEntry, `curPageno, `target, `curMask, `validTarget
    {
      -1 <= curDirPage < |pages| && -1 <= curPageno && -1 <= curEntry &&
      (validTarget ==> |target| == |curMask| == MAX_PRIMARY_LNG)
    }

    ghost predicate Closed()
      reads `isOpen, `disk, `extents, `erasures, `closedHeader, `closedPages
    {
      !isOpen && 1 <= fileIndex < 0x400 && ClosedFile(closedHeader, disk, closedPages, extents) &&
      closedHeader.neff == closedHeader.nrwr + erasures
    }

    /** `c_xdfopn` with CREATE: the header, and a first directory page. */
    constructor Create(fileIndex: nat, sign: word, nprm: nat, lprm: nat, naux: nat, laux: nat, keys: seq<word>)
      requires 1 <= fileIndex < 0x400 && 2 <= lprm <= 16 && nprm <= 100 && naux <= 100 && laux < 0x1_0000
      requires |keys| == 2 * (nprm + naux)
      ensures Valid() && !readOnly && this.fileIndex == fileIndex && header.rwflg == CREATE && header.lprm == lprm
      ensures header.lng == 8 + nprm + naux && header.fsiz == header.lng + PageUnits(lprm)
      ensures extents == [DirPage(header.lng + 1)] && erasures == 0 && header.nrwr == 0
    {
      hide FileSound, Segment, PageWords, HeaderWords;
      var lng := naux + nprm + 512 / 64;
      var h := FileHeader(lng, sign, lng, 0, 0, 0, 0, 0, nprm, lprm, naux, laux, 0, 0, 0, keys);
      var words, next := HeaderWords(h), 1 + 2 * lng;
      HeaderLength(h);
      var page := NewPage((next - 1) / 2 + 1, lprm);
      FirstPageSound(h, words, page);
      PageWordsLength(page, lprm);
      words := Wawrit(words, next - 1, PageWords(page, lprm));
      next := next + 2 * PageUnits(lprm);
      h := h.(fsiz := (next - 1) / 2, nbd := 1, plst := page.addr);
      OpenModeKeeps(h, words, next, true, [page], [DirPage(lng + 1)], CREATE);
      this.fileIndex, readOnly, isOpen := fileIndex, false, true;
      header, disk, nxtadr, modified, pages := h.(rwflg := CREATE), words, next, true, [page];
      curDirPage, curEntry, curPageno, pageRecord, pageNrecords := -1, -1, -1, 0, 0;
      target, curMask, validTarget := [], [], false;
      extents, erasures := [DirPage(lng + 1)], 0;
    }

    /** The tests on the type of an entry: special, then deleted. */
    method EntryError(p: nat, j: nat) returns (err: int)
      requires Sound() && p < |pages| && j <= pages[p].nent && (j == pages[p].nent ==> j < ENTRIES_PER_PAGE)
      ensures err ==
        if j == pages[p].nent then SlotError(SlotWord(pages, p, j))
        else if Gone(RecordAt(extents, p, j)) then ERR_DELETED else 0
      ensures j == pages[p].nent <= 128 ==> err == ERR_SPECIAL
    {
      hide StartAt, OnDisk, And;
      assert PageMatches(pages, p, extents, header.lprm);
      if j < pages[p].nent {
        RecordInPage(header, pages, extents, p, j);
        EntryTypeIs(RecordAt(extents, p, j), header.lprm);
      } else if j <= 128 {
        assert Unused(pages[p].entries, j);
      }
      var idtyp := IdtypOf(pages[p].entries[j][0]);
      DeletedTypes(idtyp);
      if idtyp == 0 { return ERR_SPECIAL; }
      if And(idtyp, 0x7E) == 0x7E { return ERR_DELETED; }
      err := 0;
    }

    /** The handle of the first free slot is refused if and only if the type found there is 0 or
        one of those of a deletion; up to slot 128 it always is. */
    lemma FreeSlotRefused(handle: int)
      requires Sound() && IndexFromHandle(handle) == fileIndex && PagenoFromHandle(handle) < |pages|
      requires RecordFromHandle(handle) == pages[PagenoFromHandle(handle)].nent < ENTRIES_PER_PAGE
      ensures HandleError(handle, fileIndex, pages, extents) != 0 <==>
        IdtypOf(SlotWord(pages, PagenoFromHandle(handle), RecordFromHandle(handle))) in {0, 126, 127, 254, 255}
      ensures RecordFromHandle(handle) <= 128 ==> HandleError(handle, fileIndex, pages, extents) == ERR_SPECIAL
    {
      hide StartAt, OnDisk, And, PagenoFromHandle, RecordFromHandle, IndexFromHandle;
      var p, j := PagenoFromHandle(handle), RecordFromHandle(handle);
      assert PageMatches(pages, p, extents, header.lprm);
      DeletedTypes(IdtypOf(SlotWord(pages, p, j)));
      if j <= 128 { assert Unused(pages[p].entries, j); }
    }

    ghost predicate Writable()
      reads `header
    {
      header.rwflg != RDMODE && !readOnly
    }

    method DeleteEntry(p: nat, j: nat)
      requires Sound() && Writable() && header.neff + 1 < WORD_BASE
      requires p < |pages| && j < pages[p].nent && !Gone(RecordAt(extents, p, j))
      modifies this`header, this`modified, this`pages, this`extents
      ensures Sound() && modified && IndexOf(p, j) < |old(extents)| && old(header).nrec >= 1
      ensures extents == old(extents)[IndexOf(p, j) := RecordAt(old(extents), p, j).(deleted := true)]
      ensures header == old(header).(neff := old(header).neff + 1, nrec := old(header).nrec - 1)
      ensures |pages| == |old(pages)| && forall q | 0 <= q < |pages| :: pages[q].nent == old(pages)[q].nent
    {
      hide FileSound, EntryOf, IsRecord;
      SoundEntry(p, j);
      ghost var e := RecordAt(extents, p, j).(deleted := true);
      DeleteKeeps(header, disk, nxtadr, modified, pages, extents, p, j);
      var entry := pages[p].entries[j];
      entry := entry[0 := FirstWord(254, LngOf(entry[0]))];
      assert entry == EntryOf(e, header.lprm) by { MarkedEntry(RecordAt(extents, p, j), header.lprm); }
      pages := pages[p := pages[p].(entries := pages[p].entries[j := entry], modified := true)];
      header := header.(neff := header.neff + 1, nrec := header.nrec - 1);
      modified := true;
      extents := extents[IndexOf(p, j) := e];
    }

    lemma SoundEntry(p: nat, j: nat)
      requires Sound() && p < |pages| && j < pages[p].nent
      ensures IndexOf(p, j) < |extents| && RecordAt(extents, p, j) == extents[IndexOf(p, j)]
      ensures IsRecord(RecordAt(extents, p, j), header.lprm) && 1 <= RecordAt(extents, p, j).addr < 0x4000_0000
      ensures j < |pages[p].entries| && 2 <= header.lprm <= 16
      ensures pages[p].entries[j] == EntryOf(RecordAt(extents, p, j), header.lprm)
      ensures |pages[p].entries[j]| == 2 * header.lprm
    {
      hide StartAt, OnDisk;
      RecordInPage(header, pages, extents, p, j);
      Inside(extents, IndexOf(p, j), header.lprm, header.lng + 1, header.fsiz + 1);
      EntryLength(RecordAt(extents, p, j), header.lprm);
    }

    /** `c_xdfdel`.  A free slot that is taken for a record is counted as one more deletion, and
        the counters no longer agree. */
    method Delete(handle: int) returns (ret: int)
      requires Valid() && header.neff + 1 < WORD_BASE && InPage(handle, pages)
      modifies this`header, this`modified, this`pages, this`extents, this`erasures
      ensures ret == if IndexFromHandle(handle) != fileIndex then ERR_BAD_HNDL
        else if old(header).rwflg in {RDMODE, APPEND} || readOnly then ERR_RDONLY
        else HandleError(handle, fileIndex, old(pages), old(extents))
      ensures ret != 0 ==>
        Valid() && header == old(header) && extents == old(extents) && erasures == old(erasures) && pages == old(pages)
      ensures ret == 0 && !Leftover(handle, old(pages)) ==>
        Valid() && old(header).nrec >= 1 && erasures == old(erasures) + 1
      ensures ret == 0 && !Leftover(handle, old(pages)) ==>
        header == old(header).(neff := old(header).neff + 1, nrec := old(header).nrec - 1)
      ensures ret == 0 && !Leftover(handle, old(pages)) ==>
        var p, j := PagenoFromHandle(handle), RecordFromHandle(handle);
        IndexOf(p, j) < |old(extents)| &&
        extents == old(extents)[IndexOf(p, j) := RecordAt(old(extents), p, j).(deleted := true)]
      ensures ret == 0 && Leftover(handle, old(pages)) ==>
        !Valid() && extents == old(extents) && erasures == old(erasures)
      ensures ret == 0 && Leftover(handle, old(pages)) ==>
        header == old(header).(neff := old(header).neff + 1, nrec := (old(header).nrec + WORD_BASE - 1) % WORD_BASE)
    {
      hide FileSound;
      if IndexFromHandle(handle) != fileIndex { return ERR_BAD_HNDL; }
      if header.rwflg == RDMODE || header.rwflg == APPEND { return ERR_RDONLY; }
      if readOnly { return ERR_RDONLY; }
      var p, j := PagenoFromHandle(handle), RecordFromHandle(handle);
      if p >= |pages| { return ERR_BAD_PAGENO; }
      if j > pages[p].nent { return ERR_BAD_HNDL; }
      ret := EntryError(p, j);
      if ret < 0 { return; }
      if j == pages[p].nent {
        DeleteLeftover(p, j);
      } else {
        DeleteEntry(p, j);
        erasures := erasures + 1;
      }
    }

    /** What deleting does to a slot that is not a record. */
    method DeleteLeftover(p: nat, j: nat)
      requires Sound() && p < |pages| && j == pages[p].nent < ENTRIES_PER_PAGE
      modifies this`header, this`modified, this`pages
      ensures header ==
        old(header).(neff := old(header).neff + 1, nrec := (old(header).nrec + WORD_BASE - 1) % WORD_BASE)
      ensures |pages| == |old(pages)| && forall q | 0 <= q < |pages| :: pages[q].nent == old(pages)[q].nent
    {
      hide StartAt, OnDisk;
      assert PageMatches(pages, p, extents, header.lprm);
      var entry := pages[p].entries[j];
      entry := entry[0 := FirstWord(254, LngOf(entry[0]))];
      pages := pages[p := pages[p].(entries := pages[p].entries[j := entry], modified := true)];
      header := header.(neff := header.neff + 1, nrec := (header.nrec + WORD_BASE - 1) % WORD_BASE);
      modified := true;
    }

    /** `add_dir_page` on a file whose last page is full. */
    method AddDirPage() returns (err: int)
      requires Sound() && Writable() && |extents| == STRIDE * |pages|
      requires header.fsiz + 1 + PageUnits(header.lprm) < 0x4000_0000
      modifies this`header, this`disk, this`nxtadr, this`modified, this`pages, this`extents
      ensures Sound()
      ensures err == if |old(pages)| >= MAX_DIR_PAGES then ERR_DIR_FULL else 0
      ensures err != 0 ==>
        header == old(header) && disk == old(disk) && pages == old(pages) && extents == old(extents) &&
        nxtadr == old(nxtadr)
      ensures err == 0 ==>
        extents == old(extents) + [DirPage(old(header).fsiz + 1)] && |pages| == |old(pages)| + 1 &&
        pages[|pages| - 1].nent == 0
      ensures err == 0 ==>
        header == old(header).(nbd := header.nbd, plst := header.plst, fsiz := old(header).fsiz +
        PageUnits(header.lprm))
      ensures forall q | 0 <= q < |old(pages)| :: q < |pages| && pages[q].nent == old(pages)[q].nent
    {
      hide FileSound, PageWords, StartAt;
      if |pages| >= MAX_DIR_PAGES { return ERR_DIR_FULL; }
      SoundRoom();
      var page := NewPage((nxtadr - 1) / 2 + 1, header.lprm);
      CountersFit(header, disk, nxtadr, modified, pages, extents);
      NewPageKeeps(header, disk, nxtadr, modified, pages, extents, page);
      PageWordsLength(page, header.lprm);
      var wdlng := PageUnits(header.lprm);
      var last := |pages| - 1;
      disk := Wawrit(disk, nxtadr - 1, PageWords(page, header.lprm));
      nxtadr := nxtadr + 2 * wdlng;
      extents := extents + [DirPage(header.fsiz + 1)];
      header := header.(fsiz := (nxtadr - 1) / 2, nbd := header.nbd + 1, plst := page.addr);
      pages := pages[last := pages[last].(nxtAddr := page.addr, modified := true)] + [page];
      // The source leaves the flag of the file to its caller.
      modified := true;
      err := 0;
    }

    lemma SoundRoom()
      requires Sound()
      ensures |disk| == nxtadr - 1 == 2 * header.fsiz && 1 <= |pages| <= MAX_DIR_PAGES && 2 <= header.lprm <= 16
      ensures HeaderFits(header)
      ensures forall p: nat {:trigger pages[p]} | p < |pages| ::
        |pages[p].entries| == ENTRIES_PER_PAGE && pages[p].nent <= ENTRIES_PER_PAGE
    {
      hide FileSound;
      Room(header, disk, nxtadr, modified, pages, extents);
    }

    /** Makes room for one more entry in the last page.  When that takes a new page, the number
        of the page of the cursor stays behind. */
    method ReserveSlot() returns (err: int)
      requires Sound() && Writable() && header.fsiz + 1 + PageUnits(header.lprm) < 0x4000_0000
      modifies this`header, this`disk, this`nxtadr, this`modified, this`pages, this`extents
      modifies this`curDirPage, this`curEntry, this`curPageno, this`pageNrecords
      ensures Sound()
      ensures err == if |old(extents)| == STRIDE * MAX_DIR_PAGES then ERR_DIR_FULL else 0
      ensures err != 0 ==> header == old(header) && disk == old(disk) && extents == old(extents)
      ensures err == 0 ==> |extents| < STRIDE * |pages|
      ensures err == 0 ==>
        extents == if |old(extents)| % STRIDE == 0 then old(extents) + [DirPage(old(header).fsiz + 1)] else old(extents)
      ensures err == 0 ==> header == old(header).(nbd := header.nbd, plst := header.plst, fsiz := header.fsiz)
      ensures err == 0 ==>
        header.fsiz == old(header).fsiz + if |old(extents)| % STRIDE == 0 then PageUnits(header.lprm) else 0
      ensures |old(pages)| <= |pages| && forall q | 0 <= q < |old(pages)| :: pages[q].nent == old(pages)[q].nent
      ensures 0 <= curDirPage < |pages| && 0 <= curPageno < |pages| && (curEntry == old(curEntry) || 0 <= curEntry)
      ensures err == 0 ==>
        curDirPage == |pages| - 1 && curPageno == |old(pages)| - 1 && curEntry == pages[|pages| - 1].nent
      ensures err == 0 ==> |pages| == |old(pages)| + if |old(extents)| % STRIDE == 0 then 1 else 0
      ensures err == 0 && |old(extents)| % STRIDE == 0 ==> curEntry == 0
    {
      hide Sound;
      LastPage();
      curDirPage := |pages| - 1;
      curPageno := |pages| - 1;
      if pages[curDirPage].nent >= ENTRIES_PER_PAGE {
        err := ReserveInNewPage();
      } else {
        curEntry := pages[curDirPage].nent;
        pageNrecords := pages[curDirPage].nent;
        err := 0;
      }
    }

    /** A new page is due exactly when the last one is full. */
    lemma LastPage()
      requires Sound()
      ensures 1 <= |pages| <= MAX_DIR_PAGES && STRIDE * (|pages| - 1) < |extents| <= STRIDE * |pages|
      ensures pages[|pages| - 1].nent <= ENTRIES_PER_PAGE
      ensures |extents| == STRIDE * |pages| <==> pages[|pages| - 1].nent == ENTRIES_PER_PAGE
      ensures |extents| % STRIDE == 0 <==> |extents| == STRIDE * |pages|
    {
      hide FileSound;
      CountersFit(header, disk, nxtadr, modified, pages, extents);
      SoundSize();
    }

    method ReserveInNewPage() returns (err: int)
      requires Sound() && Writable() && |extents| == STRIDE * |pages|
      requires header.fsiz + 1 + PageUnits(header.lprm) < 0x4000_0000
      requires 0 <= curDirPage == |pages| - 1
      modifies this`header, this`disk, this`nxtadr, this`modified, this`pages, this`extents, this`curDirPage,
        this`curEntry, this`pageNrecords
      ensures Sound()
      ensures err == if |old(pages)| >= MAX_DIR_PAGES then ERR_DIR_FULL else 0
      ensures err != 0 ==>
        header == old(header) && disk == old(disk) && extents == old(extents) && |pages| == |old(pages)|
      ensures err != 0 ==> curDirPage == old(curDirPage) && curEntry == old(curEntry)
      ensures err == 0 ==>
        extents == old(extents) + [DirPage(old(header).fsiz + 1)] && |pages| == |old(pages)| + 1 &&
        pages[|pages| - 1].nent == 0
      ensures err == 0 ==>
        header == old(header).(nbd := header.nbd, plst := header.plst, fsiz := old(header).fsiz +
        PageUnits(header.lprm))
      ensures err == 0 ==> curDirPage == |pages| - 1 && curEntry == 0
      ensures forall q | 0 <= q < |old(pages)| :: q < |pages| && pages[q].nent == old(pages)[q].nent
    {
      hide FileSound, Segment, HeaderWords;
      FlagKeeps(header, disk, nxtadr, modified, pages, extents, curDirPage);
      pages := pages[curDirPage := pages[curDirPage].(modified := true)];
      err := AddDirPage();
      if err < 0 { return; }
      curDirPage := |pages| - 1;
      curEntry := 0;
      pageNrecords := 0;
    }

    /** Writes a record at the end of the file, and its entry in the last page. */
    method WriteAtEnd(data: array<word>, nwords: nat, ghost e: Extent)
      requires Sound() && Writable() && |extents| < STRIDE * |pages|
      requires IsBuffer(data[..], nwords, header.lprm) && header.fsiz + 1 + nwords / 2 < 0x4000_0000
      requires e == Record(header.fsiz + 1, IdtypOf(data[0]), data[2..nwords], false, false)
      modifies data, this`header, this`disk, this`nxtadr, this`modified, this`pages, this`extents
      ensures Sound() && extents == old(extents) + [e] && 1 <= |pages| == |old(pages)|
      ensures pages[|pages| - 1].nent == old(pages)[|pages| - 1].nent + 1
      ensures old(header).nrec + 1 < WORD_BASE && old(header).nxtn + 1 < WORD_BASE
      ensures header == old(header).(nrec := header.nrec, nxtn := header.nxtn, fsiz := header.fsiz, nbig := header.nbig)
      ensures header.nrec == old(header).nrec + 1 && header.nxtn == old(header).nxtn + 1
      ensures header.fsiz == old(header).fsiz + nwords / 2
    {
      hide FileSound, EntryOf, RecordWords, Wawrit, WithNewEntry;
      SoundRoom();
      BufferAppended(header, disk, nxtadr, modified, pages, extents, data[..], nwords, e);
      SetRecordHeader(data, nwords, nxtadr);
      disk := Wawrit(disk, nxtadr - 1, data[..nwords]);
      EntryInLastPage(data);
      CountRecord(nwords / 2);
      extents := extents + [e];
    }

    /** The record gets its length and its address. */
    method SetRecordHeader(data: array<word>, nwords: nat, writeAddr: nat)
      requires IsBuffer(data[..], nwords, 2) && writeAddr % 2 == 1 && (writeAddr - 1) / 2 + 1 < WORD_BASE
      modifies data
      ensures data[..] == old(data[..])[1 := (writeAddr - 1) / 2 + 1][0 := FirstWord(old(IdtypOf(data[0])), nwords / 2)]
    {
      data[1] := (writeAddr - 1) / 2 + 1;
      data[0] := FirstWord(IdtypOf(data[0]), nwords / 2);
    }

    /** The header counts one record more, of that many units. */
    method CountRecord(units: nat)
      modifies this`header, this`nxtadr, this`modified
      ensures header ==
        old(header).(nrec := old(header).nrec + 1, nxtn := old(header).nxtn + 1, fsiz := old(header).fsiz + units,
        nbig := if units > old(header).nbig then units else old(header).nbig)
      ensures nxtadr == 2 * header.fsiz + 1 && modified
    {
      header := header.(nrec := header.nrec + 1, nxtn := header.nxtn + 1, fsiz := header.fsiz + units,
        nbig := if units > header.nbig then units else header.nbig);
      nxtadr := 2 * header.fsiz + 1;
      modified := true;
    }

    /** The first words of a record become the entry after the others in the last page. */
    method EntryInLastPage(data: array<word>)
      requires 2 <= header.lprm && 2 * header.lprm <= data.Length && pages != []
      requires pages[|pages| - 1].nent < |pages[|pages| - 1].entries|
      modifies this`pages
      ensures var last := |old(pages)| - 1;
        pages == old(pages)[last := WithNewEntry(old(pages)[last], data[..2] + data[2..2 * header.lprm])] &&
        pages[last].nent == old(pages)[last].nent + 1
    {
      var last := |pages| - 1;
      var entry := data[..2] + data[2..2 * header.lprm];
      var nent := pages[last].nent;
      pages := pages[last :=
        pages[last].(entries := pages[last].entries[nent := entry], nent := nent + 1, modified := true)];
    }

    /** Writes a record of the same length where the old one was. */
    method WriteInPlace(p: nat, j: nat, data: array<word>, nwords: nat, ghost e: Extent)
      requires Sound() && Writable() && p < |pages| && j < pages[p].nent && RecordAt(extents, p, j).deleted
      requires IsBuffer(data[..], nwords, header.lprm) && nwords == 2 * Units(RecordAt(extents, p, j), header.lprm)
      requires e == Record(RecordAt(extents, p, j).addr, IdtypOf(data[0]), data[2..nwords], false, false)
      modifies data, this`header, this`disk, this`modified, this`pages, this`extents
      ensures Sound() && IndexOf(p, j) < |old(extents)| && extents == old(extents)[IndexOf(p, j) := e]
      ensures |pages| == |old(pages)|
      ensures header == old(header).(nrec := header.nrec) && header.nrec == old(header).nrec + 1
    {
      hide FileSound, EntryOf, RecordWords, Wawrit;
      SoundEntry(p, j);
      CountersFit(header, disk, nxtadr, modified, pages, extents);
      EntryAddress(RecordAt(extents, p, j), header.lprm);
      BufferIsRecord(data[..], nwords, e, header.lprm);
      OverwriteKeeps(header, disk, nxtadr, modified, pages, extents, p, j, e);
      var addr := pages[p].entries[j][1];
      var writeAddr := 2 * (addr - 1) + 1;
      data[1] := (writeAddr - 1) / 2 + 1;
      data[0] := FirstWord(IdtypOf(data[0]), nwords / 2);
      disk := Wawrit(disk, writeAddr - 1, data[..nwords]);
      var entry := data[..2] + data[2..2 * header.lprm];
      pages := pages[p := pages[p].(entries := pages[p].entries[j := entry], modified := true)];
      header := header.(nrec := header.nrec + 1);
      modified := true;
      extents := extents[IndexOf(p, j) := e];
    }

    /** `c_xdfput`.  The slot of a record that goes to the end of the file is reserved before
        the old record is deleted.  A handle may also be taken for that of a record that is not
        there: then the new record goes to the end and is not counted, or is written at the
        address that was left in memory. */
    method Put(handle: int, data: array<word>, nbits: nat) returns (err: int)
      requires Valid() && header.neff + 1 < WORD_BASE && InPage(Magnitude(handle), pages)
      requires nbits % 64 == 0 ==> IsBuffer(data[..], nbits / 32, header.lprm)
      requires header.fsiz + 1 + PageUnits(header.lprm) + nbits / 64 < 0x4000_0000
      requires handle != 0 && Leftover(Magnitude(handle), pages) ==> AddressInFile(handle, nbits / 32, pages, disk)
      modifies this`header, this`disk, this`nxtadr, this`modified, this`pages, this`extents, data
      modifies this`curDirPage, this`curEntry, this`curPageno, this`pageNrecords
      ensures err == PutError(handle, nbits, old(header), readOnly, fileIndex, old(pages), old(extents))
      ensures err != 0 ==> Valid() && header == old(header) && disk == old(disk) && extents == old(extents)
      ensures err == 0 && !Misled(handle, old(pages)) ==> Valid()
      ensures err == 0 && !Misled(handle, old(pages)) ==> (extents ==
        AfterPut(old(extents), handle, IdtypOf(old(data[0])), old(data[2..nbits / 32]), old(header).lprm,
          old(header).fsiz + 1))
      ensures err == 0 ==>
        header.lprm == old(header).lprm && header.lng == old(header).lng && header.rwflg == old(header).rwflg
      ensures err == 0 ==> header.nrwr == old(header).nrwr + (if handle == 0 then 0 else 1)
      ensures err == 0 && handle == 0 ==> header.neff == old(header).neff
      ensures err == 0 && handle == 0 ==>
        header.fsiz == AfterAppend(old(header).fsiz, |old(extents)|, nbits / 32, old(header).lprm)
      ensures err == 0 && handle == 0 ==> 0 <= curDirPage == |pages| - 1 && curPageno == |old(pages)| - 1
      ensures err == 0 && handle == 0 && |old(extents)| % STRIDE == 0 ==>
        |pages| == |old(pages)| + 1 && curEntry == 0 && pages[|pages| - 1].nent == 1
      ensures err == 0 && Misled(handle, old(pages)) ==>
        header.neff == old(header).neff + 1 && header.nrec == old(header).nrec
      ensures err == 0 && Misled(handle, old(pages)) && !InLeftover(handle, nbits / 32, old(pages)) ==>
        (!Valid() && extents ==
          Appended(old(extents), IdtypOf(old(data[0])), old(data[2..nbits / 32]), old(header).lprm, old(header).fsiz +
          1))
      ensures err == 0 && Misled(handle, old(pages)) && InLeftover(handle, nbits / 32, old(pages)) ==>
        (extents == old(extents) && disk ==
          Overwrite(old(disk), LeftoverAddress(Magnitude(handle), old(pages)), IdtypOf(old(data[0])),
            old(data[2..nbits / 32])))
    {
      hide FileSound, Segment, HeaderWords;
      if nbits % 64 != 0 { return ERR_BAD_ADDR; }
      var nwords := nbits / 32;
      if header.rwflg == RDMODE || readOnly { return ERR_NO_WRITE; }
      if handle != 0 && header.rwflg == APPEND { return ERR_NO_WRITE; }
      if handle == 0 {
        err := PutNew(data, nwords);
        return;
      }
      var h := if handle < 0 then -handle else handle;
      var p, j := PagenoFromHandle(h), RecordFromHandle(h);
      if IndexFromHandle(h) != fileIndex { return ERR_BAD_HNDL; }
      if p >= |pages| { return ERR_BAD_PAGENO; }
      curDirPage := p;
      if j > pages[p].nent { return ERR_BAD_HNDL; }
      curEntry := j;
      err := EntryError(p, j);
      if err < 0 { return; }
      if j == pages[p].nent {
        PutLeftover(handle, p, j, data, nwords);
      } else {
        err := Rewrite(handle, p, j, data, nwords);
      }
    }

    /** Appends a record. */
    method PutNew(data: array<word>, nwords: nat) returns (err: int)
      requires Valid() && Writable() && IsBuffer(data[..], nwords, header.lprm)
      requires header.fsiz + 1 + PageUnits(header.lprm) + nwords / 2 < 0x4000_0000
      modifies this`header, this`disk, this`nxtadr, this`modified, this`pages, this`extents, data
      modifies this`curDirPage, this`curEntry, this`curPageno, this`pageNrecords
      ensures Valid() && err == if |old(extents)| == STRIDE * MAX_DIR_PAGES then ERR_DIR_FULL else 0
      ensures err != 0 ==> header == old(header) && disk == old(disk) && extents == old(extents)
      ensures err == 0 ==> (extents ==
        Appended(old(extents), IdtypOf(old(data[0])), old(data[2..nwords]), old(header).lprm, old(header).fsiz + 1))
      ensures err == 0 ==> (header == old(header).(nrec := header.nrec, nxtn := header.nxtn, fsiz := header.fsiz,
        nbig := header.nbig, nbd := header.nbd, plst := header.plst))
      ensures err == 0 ==> header.nrec == old(header).nrec + 1
      ensures err == 0 ==> header.fsiz == AfterAppend(old(header).fsiz, |old(extents)|, nwords, old(header).lprm)
      ensures err == 0 ==> 0 <= curDirPage == |pages| - 1 && curPageno == |old(pages)| - 1
      ensures err == 0 && |old(extents)| % STRIDE == 0 ==>
        |pages| == |old(pages)| + 1 && curEntry == 0 && pages[|pages| - 1].nent == 1
    {
      hide FileSound, Segment, HeaderWords;
      err := ReserveSlot();
      if err < 0 { return; }
      WriteAtEnd(data, nwords, Record(header.fsiz + 1, IdtypOf(data[0]), data[2..nwords], false, false));
    }

    /** What `Put` does when a free slot was taken for a record.  Only the last page has one. */
    method PutLeftover(handle: int, p: nat, j: nat, data: array<word>, nwords: nat)
      requires Valid() && Writable() && header.neff + 1 < WORD_BASE && IsBuffer(data[..], nwords, header.lprm)
      requires handle != 0
      requires p < |pages| && 128 < j == pages[p].nent < ENTRIES_PER_PAGE
      requires p == PagenoFromHandle(Magnitude(handle)) && j == RecordFromHandle(Magnitude(handle))
      requires header.fsiz + 1 + PageUnits(header.lprm) + nwords / 2 < 0x4000_0000
      requires AddressInFile(handle, nwords, pages, disk)
      modifies this`header, this`disk, this`nxtadr, this`modified, this`pages, this`extents, data
      modifies this`curDirPage, this`curEntry, this`curPageno, this`pageNrecords
      ensures |old(extents)| != STRIDE * MAX_DIR_PAGES && header.lprm == old(header).lprm
      ensures header.lng == old(header).lng
      ensures header.rwflg == old(header).rwflg && header.nrwr == old(header).nrwr + 1
      ensures header.neff == old(header).neff + 1 && header.nrec == old(header).nrec
      ensures !InLeftover(handle, nwords, old(pages)) ==>
        (!Valid() && extents ==
          Appended(old(extents), IdtypOf(old(data[0])), old(data[2..nwords]), old(header).lprm, old(header).fsiz + 1))
      ensures InLeftover(handle, nwords, old(pages)) ==>
        (extents == old(extents) && disk ==
          Overwrite(old(disk), LeftoverAddress(Magnitude(handle), old(pages)), IdtypOf(old(data[0])),
            old(data[2..nwords])))
    {
      hide FileSound, Segment, HeaderWords, PagenoFromHandle, RecordFromHandle, Wawrit, Counted;
      OnlyLastHasRoom(p);
      SoundRoom();
      SoundCounted();
      var lngw, addr := 2 * LngOf(pages[p].entries[j][0]), pages[p].entries[j][1];
      if handle <= 0 || lngw != nwords {
        var err := PutNew(data, nwords);
        // The slot that the deletion marks is the one that the new entry takes.
        header := header.(neff := header.neff + 1, nrec := header.nrec - 1, nrwr := header.nrwr + 1);
        CountedWrong(old(header), header, old(extents), extents);
        SoundCounted();
      } else {
        var entry := pages[p].entries[j];
        data[1] := addr;
        data[0] := FirstWord(IdtypOf(data[0]), nwords / 2);
        disk := Wawrit(disk, 2 * (addr - 1), data[..nwords]);
        assert data[..nwords] == [FirstWord(IdtypOf(old(data[0])), nwords / 2), addr] + old(data[2..nwords]);
        entry := data[..2] + data[2..2 * header.lprm];
        pages := pages[p := pages[p].(entries := pages[p].entries[j := entry], modified := true)];
        header := header.(neff := header.neff + 1, nrwr := header.nrwr + 1);
        modified := true;
      }
    }

    lemma SoundCounted()
      ensures Sound() ==> Counted(header, extents)
    {
      hide Counted, Tiled, Directory, OnDisk;
    }

    lemma OnlyLastHasRoom(p: nat)
      requires Sound() && p < |pages| && pages[p].nent < ENTRIES_PER_PAGE
      ensures p == |pages| - 1 && |extents| < STRIDE * |pages| && |extents| % STRIDE != 0
      ensures |pages[p].entries| == ENTRIES_PER_PAGE
      ensures forall j | 0 <= j < |pages[p].entries| :: |pages[p].entries[j]| == 2 * header.lprm >= 4
    {
      hide FileSound;
      SoundShape();
      SoundRoom();
      SoundPage(p);
    }

    /** Rewrites record j of page p. */
    method Rewrite(handle: int, p: nat, j: nat, data: array<word>, nwords: nat) returns (err: int)
      requires Valid() && Writable() && header.neff + 1 < WORD_BASE && IsBuffer(data[..], nwords, header.lprm)
      requires handle != 0
      requires p < |pages| && j < pages[p].nent && !Gone(RecordAt(extents, p, j))
      requires p == PagenoFromHandle(Magnitude(handle)) && j == RecordFromHandle(Magnitude(handle))
      requires header.fsiz + 1 + PageUnits(header.lprm) + nwords / 2 < 0x4000_0000
      modifies this`header, this`disk, this`nxtadr, this`modified, this`pages, this`extents, data
      modifies this`curDirPage, this`curEntry, this`curPageno, this`pageNrecords
      ensures Valid()
      ensures err ==
        if !Replaces(handle, nwords, old(extents), header.lprm) &&
        |old(extents)| == STRIDE * MAX_DIR_PAGES then ERR_DIR_FULL else 0
      ensures err != 0 ==> header == old(header) && disk == old(disk) && extents == old(extents)
      ensures err == 0 ==> (extents ==
        AfterPut(old(extents), handle, IdtypOf(old(data[0])), old(data[2..nwords]), old(header).lprm, old(header).fsiz +
          1))
      ensures err == 0 ==>
        header.lprm == old(header).lprm && header.lng == old(header).lng && header.rwflg == old(header).rwflg
      ensures err == 0 ==> header.nrwr == old(header).nrwr + 1
    {
      hide FileSound, Segment, HeaderWords, Appended;
      SoundEntry(p, j);
      EntryTypeIs(RecordAt(extents, p, j), header.lprm);
      var lngw := 2 * LngOf(pages[p].entries[j][0]);
      if handle <= 0 || lngw != nwords {
        err := MoveToEnd(p, j, data, nwords);
        if err < 0 { return; }
      } else {
        err := 0;
        ghost var e := Record(RecordAt(extents, p, j).addr, IdtypOf(data[0]), data[2..nwords], false, false);
        DeleteEntry(p, j);
        WriteInPlace(p, j, data, nwords, e);
      }
      RewriteKeeps(header, disk, nxtadr, modified, pages, extents);
      header := header.(nrwr := header.nrwr + 1);
    }

    /** Deletes record j of page p and appends its replacement. */
    method MoveToEnd(p: nat, j: nat, data: array<word>, nwords: nat) returns (err: int)
      requires Sound() && Writable() && header.neff + 1 < WORD_BASE && IsBuffer(data[..], nwords, header.lprm)
      requires p < |pages| && j < pages[p].nent && !Gone(RecordAt(extents, p, j))
      requires header.fsiz + 1 + PageUnits(header.lprm) + nwords / 2 < 0x4000_0000
      modifies this`header, this`disk, this`nxtadr, this`modified, this`pages, this`extents, data
      modifies this`curDirPage, this`curEntry, this`curPageno, this`pageNrecords
      ensures Sound() && |pages| >= |old(pages)|
      ensures err == if |old(extents)| == STRIDE * MAX_DIR_PAGES then ERR_DIR_FULL else 0
      ensures err != 0 ==> header == old(header) && disk == old(disk) && extents == old(extents)
      ensures err == 0 ==> IndexOf(p, j) < |old(extents)|
      ensures err == 0 ==> (extents ==
        Appended(old(extents)[IndexOf(p, j) := RecordAt(old(extents), p, j).(deleted := true)],
          IdtypOf(old(data[0])), old(data[2..nwords]), old(header).lprm, old(header).fsiz + 1))
      ensures err == 0 ==>
        header.lprm == old(header).lprm && header.lng == old(header).lng && header.rwflg == old(header).rwflg
      ensures err == 0 ==> header.nrwr == old(header).nrwr && header.neff == old(header).neff + 1
      ensures 0 <= curDirPage < |pages| && 0 <= curPageno < |pages| && (curEntry == old(curEntry) || 0 <= curEntry)
    {
      hide FileSound, Segment, HeaderWords;
      SoundEntry(p, j);
      ghost var idtyp, body := IdtypOf(data[0]), data[2..nwords];
      err := ReserveSlot();
      if err < 0 { return; }
      DeleteEntry(p, j);
      UpdateOfLonger(old(extents), IndexOf(p, j), RecordAt(old(extents), p, j).(deleted := true),
        DirPage(old(header).fsiz + 1));
      WriteAtEnd(data, nwords, Record(header.fsiz + 1, idtyp, body, false, false));
    }

    /** `c_xdfget2`: the whole record, for a caller with enough room.  A free slot that is taken
        for a record gives what the file has at the address left in it. */
    method Get(handle: int) returns (err: int, data: seq<word>)
      requires Valid() && InPage(handle, pages)
      ensures err == HandleError(handle, fileIndex, pages, extents)
      ensures err == 0 && !Leftover(handle, pages) ==>
        var e := RecordAt(extents, PagenoFromHandle(handle), RecordFromHandle(handle));
        !Gone(e) && IsRecord(e, header.lprm) && e.addr < WORD_BASE && data == RecordWords(e, header.lprm)
      ensures err == 0 && Leftover(handle, pages) ==>
        data == Waread(disk, 2 * (LeftoverAddress(handle, pages) as int) - 2, 2 * LngOf(LeftoverWord(handle, pages)))
    {
      hide FileSound, RecordWords, IsRecord;
      data := [];
      if IndexFromHandle(handle) != fileIndex { return ERR_BAD_HNDL, data; }
      var p, j := PagenoFromHandle(handle), RecordFromHandle(handle);
      if p >= |pages| { return ERR_BAD_PAGENO, data; }
      if j > pages[p].nent { return ERR_BAD_HNDL, data; }
      err := EntryError(p, j);
      if err < 0 { return; }
      SoundPage(p);
      data := ReadEntry(p, j);
    }

    /** Reads what an entry names. */
    method ReadEntry(p: nat, j: nat) returns (data: seq<word>)
      requires Sound() && p < |pages| && j < |pages[p].entries| && |pages[p].entries[j]| >= 2
      ensures data == Waread(disk, 2 * (pages[p].entries[j][1] as int) - 2, 2 * LngOf(pages[p].entries[j][0]))
      ensures j < pages[p].nent && !Gone(RecordAt(extents, p, j)) ==> var e := RecordAt(extents, p, j);
        IsRecord(e, header.lprm) && e.addr < WORD_BASE && data == RecordWords(e, header.lprm)
    {
      hide FileSound, RecordWords;
      var addr, lng := pages[p].entries[j][1] as int, LngOf(pages[p].entries[j][0]);
      data := Waread(disk, 2 * addr - 2, 2 * lng);
      if j < pages[p].nent && !Gone(RecordAt(extents, p, j)) {
        SoundEntry(p, j);
        EntryTypeIs(RecordAt(extents, p, j), header.lprm);
        EntryAddress(RecordAt(extents, p, j), header.lprm);
        OnDiskEntry(p, j);
      }
    }

    lemma OnDiskEntry(p: nat, j: nat)
      requires Sound() && p < |pages| && j < pages[p].nent && !Gone(RecordAt(extents, p, j))
      ensures var e := RecordAt(extents, p, j);
        IsRecord(e, header.lprm) && 1 <= e.addr < WORD_BASE &&
          Segment(disk, 2 * (e.addr - 1), RecordWords(e, header.lprm))
    {
      hide FileSound, RecordWords, IsRecord, Segment;
      SoundEntry(p, j);
      RecordStored(header, disk, nxtadr, modified, pages, extents, IndexOf(p, j));
    }

    // ----- Closing -----

    /** Marks one entry, and its record on disk, when it is deleted. */
    method MarkEntry(p: nat, j: nat)
      requires Sound() && modified && p < |pages| && j < pages[p].nent && pages[p].modified
      modifies this`disk, this`pages, this`extents
      ensures Sound() && IndexOf(p, j) < |old(extents)|
      ensures extents == old(extents)[IndexOf(p, j) := WithMark(RecordAt(old(extents), p, j))]
      ensures |pages| == |old(pages)| && pages[p].nent == old(pages)[p].nent && pages[p].modified
      ensures forall q | 0 <= q < |pages| && q != p :: pages[q] == old(pages)[q]
    {
      hide FileSound, EntryOf, IsRecord, Or, And, Wawrit, RecordAt;
      SoundEntry(p, j);
      ghost var e := RecordAt(extents, p, j);
      EntryTypeIs(e, header.lprm);
      EntryAddress(e, header.lprm);
      var entry := pages[p].entries[j];
      var idtyp, lng := IdtypOf(entry[0]), LngOf(entry[0]);
      ClosingTypes(idtyp);
      if Or(idtyp, 0x80) == 254 {
        EraseKeeps(header, disk, nxtadr, modified, pages, extents, p, j);
        MarkedOnDisk(e, header.lprm);
        entry := entry[0 := FirstWord(255, lng)];
        disk := Wawrit(disk, 2 * (entry[1] - 1), entry[..2]);
        pages := pages[p := pages[p].(entries := pages[p].entries[j := entry])];
        extents := extents[IndexOf(p, j) := e.(erased := true)];
      } else {
        SameType(entry, idtyp, lng);
        idtyp := if Or(idtyp, 0x80) == 255 then 255 else And(idtyp, 0x7F);
        entry := entry[0 := FirstWord(idtyp, lng)];
        assert entry == pages[p].entries[j];
        assert pages[p].entries[j := entry] == pages[p].entries;
        pages := pages[p := pages[p].(entries := pages[p].entries[j := entry])];
        assert pages == old(pages);
      }
    }

    /** Marks the deleted records of one page. */
    method MarkPage(p: nat)
      requires Sound() && modified && p < |pages| && pages[p].modified
      modifies this`disk, this`pages, this`extents
      ensures Sound() && |extents| == |old(extents)|
      ensures forall i | 0 <= i < |extents| ::
        extents[i] == if i / STRIDE == p then WithMark(old(extents)[i]) else old(extents)[i]
      ensures |pages| == |old(pages)| && pages[p].modified
      ensures forall q | 0 <= q < |pages| && q != p :: pages[q] == old(pages)[q]
    {
      hide FileSound, WithMark, Gone;
      SoundShape();
      PagesStay();
      var j := 0;
      while j < pages[p].nent
        invariant |pages| == |old(pages)| && Sound() && |extents| == |old(extents)|
        invariant j <= pages[p].nent == old(pages)[p].nent
        invariant pages[p].modified && forall q | 0 <= q < |pages| && q != p :: pages[q] == old(pages)[q]
        invariant forall i | 0 <= i < |extents| ::
          extents[i] == if IndexOf(p, 0) <= i < IndexOf(p, j) then WithMark(old(extents)[i]) else old(extents)[i]
      {
        SoundEntry(p, j);
        MarkEntry(p, j);
        j := j + 1;
      }
    }

    /** Where directory pages and records are. */
    lemma SoundShape()
      requires Sound()
      ensures 1 <= |pages| && STRIDE * (|pages| - 1) < |extents| <= STRIDE * |pages|
      ensures forall p: nat {:trigger pages[p]} | p < |pages| :: pages[p].nent == EntryCount(|extents|, p)
      ensures forall i: nat {:trigger extents[i]} | i < |extents| :: extents[i].DirPage? <==> i % STRIDE == 0
    {
      hide OnDisk, StartAt, EntryMatches, Unused;
      forall p: nat | p < |pages| ensures pages[p].nent == EntryCount(|extents|, p) {
        assert PageMatches(pages, p, extents, header.lprm);
      }
      forall i: nat | i < |extents| ensures extents[i].DirPage? <==> i % STRIDE == 0 {
        assert InPlace(extents, i, header.lprm, header.lng + 1);
      }
    }

    /** Sets the checksum of a page and rewrites it. */
    method RewritePage(p: nat)
      requires Sound() && modified && p < |pages| && AllErased(extents, p)
      modifies this`disk, this`pages
      ensures Sound() && |pages| == |old(pages)| && !pages[p].modified
      ensures forall q | 0 <= q < |pages| && q != p :: pages[q] == old(pages)[q]
    {
      hide FileSound, PageWords, XorFrom, AllErased;
      SoundPage(p);
      PageKeeps(header, disk, nxtadr, pages, extents, p);
      var curpage := pages[p];
      var check32 := PageWords(curpage, header.lprm);
      var checksum := ChecksumOf(check32, curpage.chksum, 2 * PageUnits(header.lprm));
      assert checksum == PageSum(curpage, curpage.chksum, header.lprm) by { PageWordsSplit(curpage, header.lprm); }
      curpage := curpage.(chksum := checksum, modified := false);
      disk := Wawrit(disk, 2 * (curpage.addr - 1), PageWords(curpage, header.lprm));
      pages := pages[p := curpage];
    }

    lemma SoundPage(p: nat)
      requires Sound() && p < |pages|
      ensures PageFits(pages[p], header.lprm) && 2 <= header.lprm <= 16
      ensures |PageWords(pages[p], header.lprm)| == 2 * PageUnits(header.lprm)
    {
      hide OnDisk, StartAt, EntryMatches, Unused;
      assert PageMatches(pages, p, extents, header.lprm);
      PageWordsLength(pages[p], header.lprm);
    }

    /** Rewrites the pages that changed. */
    method RewritePages()
      requires Sound() && modified
      modifies this`disk, this`pages, this`extents
      ensures Sound() && |pages| == |old(pages)| && forall p | 0 <= p < |pages| :: !pages[p].modified
      ensures |extents| == |old(extents)| && forall i | 0 <= i < |extents| :: extents[i] == WithMark(old(extents)[i])
    {
      hide FileSound, AllErased, WithMark;
      CountersFit(header, disk, nxtadr, modified, pages, extents);
      SoundSize();
      for i := 0 to header.nbd
        invariant Sound() && |pages| == |old(pages)| && |extents| == |old(extents)| && header.nbd == |pages|
        invariant forall q | 0 <= q < i :: !pages[q].modified
        invariant forall q | i <= q < |pages| :: pages[q] == old(pages)[q]
        invariant forall k | 0 <= k < |extents| ::
          extents[k] == if k / STRIDE < i then WithMark(old(extents)[k]) else old(extents)[k]
      {
        if pages[i].modified {
          MarkPage(i);
          MarkedAll(old(extents), extents, i);
          RewritePage(i);
        } else {
          CleanPageErased(i);
        }
      }
    }

    lemma CleanPageErased(p: nat)
      requires Sound() && p < |pages| && (!pages[p].modified || !modified)
      ensures forall i: nat {:trigger extents[i]} | i < |extents| && i / STRIDE == p ::
        extents[i] == WithMark(extents[i])
    {
      hide PageMatches, RecordOnDisk, CleanPage, StartAt;
      assert PageOnDisk(disk, pages, p, extents, header.lprm, modified);
    }

    method WriteHeader()
      requires Sound() && Writable()
      modifies this`disk
      ensures Sound() && Segment(disk, 0, HeaderWords(header))
    {
      hide FileSound, HeaderWords, Segment;
      SoundRoom();
      HeaderKeeps(header, disk, nxtadr, modified, pages, extents);
      disk := Wawrit(disk, 0, HeaderWords(header));
    }

    /** `c_xdfcls`; a checkpoint leaves the file open. */
    method Close(checkpoint: bool)
      requires Valid()
      modifies this
      ensures |extents| == |old(extents)| && forall i | 0 <= i < |extents| :: extents[i] == WithMark(old(extents)[i])
      ensures erasures == old(erasures)
      ensures checkpoint ==> Valid() && !modified && header == old(header)
      ensures !checkpoint ==> Closed() && closedHeader == old(header).(rwflg := RDMODE)
    {
      hide FileSound, WithMark, HeaderWords, Segment;
      if header.rwflg != RDMODE && !readOnly { WriteHeader(); }
      if modified {
        RewritePages();
        NothingLeft(header, disk, nxtadr, pages, extents);
        modified := false;
      } else {
        NothingToMark();
      }
      if !checkpoint { Release(); }
    }

    /** Rewrites the header with the mark of writers removed, and gives the memory back. */
    method Release()
      requires Valid() && !modified
      modifies this
      ensures extents == old(extents) && erasures == old(erasures)
      ensures Closed() && closedHeader == old(header).(rwflg := RDMODE)
    {
      hide FileSound, HeaderWords, Segment, ClosedFile;
      closedPages := pages;
      closedHeader := header.(rwflg := RDMODE);
      ClosedIs(header, disk, nxtadr, pages, extents);
      if header.rwflg != RDMODE && !readOnly {
        header := header.(rwflg := 0);
        disk := Wawrit(disk, 0, HeaderWords(header));
      }
      pages, isOpen, nxtadr := [], false, 1;
      ResetCursor();
    }

    method ResetCursor()
      modifies this`curDirPage, this`curEntry, this`curPageno, this`pageRecord, this`pageNrecords, this`validTarget
      ensures curDirPage == -1 && curEntry == -1 && curPageno == -1 && pageRecord == 0 && !validTarget
    {
      curDirPage, curEntry, curPageno, pageRecord, pageNrecords, validTarget := -1, -1, -1, 0, 0, false;
    }

    lemma NothingToMark()
      requires Sound() && !modified
      ensures forall i: nat {:trigger extents[i]} | i < |extents| :: extents[i] == WithMark(extents[i])
    {
      hide FileSound, WithMark;
      SoundSize();
      forall i: nat | i < |extents| ensures extents[i] == WithMark(extents[i]) {
        CleanPageErased(i / STRIDE);
      }
    }

    // ----- Opening -----

    /** `c_xdfopn` on an existing file: the number of records, and how many pages had a wrong
        checksum. */
    method Open(mode: nat) returns (ret: int, badSums: int)
      requires Closed() && mode in {RDMODE, WMODE, RWMODE, APPEND}
      modifies this
      ensures Valid() && !modified && extents == old(extents) && erasures == old(erasures) && disk == old(disk)
      ensures header == old(closedHeader).(rwflg := mode) && pages == Unflagged(old(closedPages))
      ensures ret == header.nrec && badSums == 0
    {
      hide FileSound, HeaderWords, Segment, ClosedFile, ParseHeader;
      HeaderRead(closedHeader, disk, closedPages, extents);
      ReopenKeeps(closedHeader, disk, closedPages, extents);
      ClosedHeader();
      badSums := 0;
      var lng := LngOf(disk[0]);
      if disk[2] != XDF0 { assert false; }
      var h := ParseHeader(disk[..2 * lng]);
      if mode != RDMODE && h.rwflg != RDMODE { assert false; }
      pages, badSums := ReadPages(2 * lng + 1, h);
      OpenModeKeeps(h, disk, 2 * h.fsiz + 1, false, pages, extents, mode);
      header := h.(rwflg := mode);
      nxtadr, modified, isOpen := 2 * h.fsiz + 1, false, true;
      ResetCursor();
      ret := header.nrec;
    }

    lemma ClosedHeader()
      requires Closed()
      ensures closedHeader.rwflg == RDMODE && Segment(disk, 0, HeaderWords(closedHeader))
    {
      hide FileSound, Segment, HeaderWords;
    }

    /** Reads the chain of directory pages. */
    method ReadPages(start: nat, h: FileHeader) returns (read: seq<Page>, badSums: int)
      requires Closed() && h == closedHeader && h.nbd == |closedPages| && start == 2 * h.lng + 1 && 2 <= h.lprm <= 16
      ensures read == Unflagged(closedPages) && badSums == 0
    {
      hide FileSound, ClosedFile, Segment, PageWords, ParsePage, XorFrom;
      read, badSums := [], 0;
      var wdaddress: int := start;
      for i := 0 to h.nbd
        invariant |read| == i && badSums == 0 && forall q | 0 <= q < i :: read[q] == closedPages[q].(modified := false)
        invariant i < |closedPages| ==> wdaddress == 2 * (closedPages[i].addr - 1) + 1 || (i == 0 && wdaddress == start)
      {
        PageRead(h, disk, closedPages, extents, i);
        SegmentIsPage(disk, closedPages[i], h.lprm);
        var words := disk[wdaddress - 1..wdaddress - 1 + 2 * PageUnits(h.lprm)];
        var checksum := ChecksumOf(words, 0, 2 * PageUnits(h.lprm));
        if checksum != 0 { badSums := badSums + 1; }
        var curpage := ParsePage(words, h.lprm);
        read := read + [curpage];
        wdaddress := 2 * (curpage.nxtAddr - 1) + 1;
        if i + 1 < |closedPages| { PageRead(h, disk, closedPages, extents, i + 1); }
        if (wdaddress == 0 && i != h.nbd - 1) || wdaddress > |disk| {
          assert false;
        }
      }
    }

    lemma SoundSize()
      requires Sound()
      ensures 1 <= |pages| <= MAX_DIR_PAGES && STRIDE * (|pages| - 1) < |extents| <= STRIDE * |pages|
    {
      hide OnDisk, PageMatches;
    }
  }

  /** A record buffer as `c_xdfini` prepares it: a type from 1 to 126, and at least the
      primary keys after the record header. */
  predicate IsBuffer(data: seq<word>, nwords: nat, lprm: nat)
  {
    nwords % 2 == 0 && 2 * lprm <= nwords <= |data| && lprm >= 2 && nwords / 2 < 0x100_0000 &&
      1 <= IdtypOf(data[0]) <= 126
  }

  /** The buffer with its header set is the record on disk, and starts with its entry. */
  lemma BufferIsRecord(data: seq<word>, nwords: nat, e: Extent, lprm: nat)
    requires IsBuffer(data, nwords, lprm) && e.Record? && e.idtyp == IdtypOf(data[0]) && e.body == data[2..nwords]
    requires !e.deleted && !e.erased
    requires e.addr < WORD_BASE
    ensures IsRecord(e, lprm) && Units(e, lprm) == nwords / 2
    ensures var done := data[1 := e.addr as word][0 := FirstWord(e.idtyp, nwords / 2)];
      done[..nwords] == RecordWords(e, lprm) && done[..2] + done[2..2 * lprm] == EntryOf(e, lprm)
  {
    var done := data[1 := e.addr as word][0 := FirstWord(e.idtyp, nwords / 2)];
    assert IsRecord(e, lprm);
    assert done[..nwords] == RecordWords(e, lprm);
    assert done[2..2 * lprm] == e.body[..2 * lprm - 2];
  }

  /** The file after a buffer is written at its end. */
  lemma BufferAppended(h: FileHeader, disk: seq<word>, nxtadr: nat, modified: bool, pages: seq<Page>, ex: seq<Extent>,
                       data: seq<word>, nwords: nat,
                       e: Extent)
    requires FileSound(h, disk, nxtadr, modified, pages, ex) && |ex| < STRIDE * |pages|
    requires h.fsiz + 1 + nwords / 2 < 0x4000_0000
    requires IsBuffer(data, nwords, h.lprm) && e == Record(h.fsiz + 1, IdtypOf(data[0]), data[2..nwords], false, false)
    ensures |pages| >= 1 && pages[|pages| - 1].nent < |pages[|pages| - 1].entries| && h.nrec + 1 < WORD_BASE
    ensures h.nxtn + 1 < WORD_BASE
    ensures var u, done, last := nwords / 2,
      data[1 := (h.fsiz + 1) as word][0 := FirstWord(IdtypOf(data[0]), nwords / 2)], |pages| - 1;
      FileSound(h.(nrec := h.nrec + 1, nxtn := h.nxtn + 1, fsiz := h.fsiz + u, nbig :=
        if u > h.nbig then u else h.nbig),
        Wawrit(disk, |disk|, done[..nwords]), nxtadr + 2 * u, true,
        pages[last := WithNewEntry(pages[last], done[..2] + done[2..2 * h.lprm])], ex + [e])
  {
    hide FileSound, EntryOf, RecordWords, Wawrit, WithNewEntry;
    CountersFit(h, disk, nxtadr, modified, pages, ex);
    BufferIsRecord(data, nwords, e, h.lprm);
    AppendKeeps(h, disk, nxtadr, modified, pages, ex, e);
  }

  lemma EntryAddress(e: Extent, lprm: nat)
    requires IsRecord(e, lprm) && lprm >= 1 && e.addr < WORD_BASE
    ensures EntryOf(e, lprm)[1] == e.addr
  {
  }

  /** A page as it is allocated: the first half of its entries is cleared, and one word more;
      the rest holds whatever was in the memory. */
  method NewPage(addr: word, lprm: nat) returns (page: Page)
    requires 2 <= lprm <= 16
    ensures IsNewPage(page, addr, lprm)
  {
    var zeros: seq<word> := seq(2 * lprm, _ => 0);
    ghost var none := seq(ENTRIES_PER_PAGE, _ => zeros);
    assert |none| == ENTRIES_PER_PAGE && forall e | e in none :: |e| == 2 * lprm;
    var leftover: seq<seq<word>> :| |leftover| == ENTRIES_PER_PAGE && forall e | e in leftover :: |e| == 2 * lprm;
    var entries := seq(ENTRIES_PER_PAGE, j requires 0 <= j < ENTRIES_PER_PAGE =>
      if j < 128 then zeros else if j == 128 then leftover[j][0 := 0] else leftover[j]);
    page := Page(true, addr, 0, 0, 0, 0, entries);
    forall j: nat | j <= 128 ensures Unused(page.entries, j) {
    }
  }

  /** Past slot 128 a file is sound whatever a free slot holds. */
  lemma AnyLeftover(h: FileHeader, disk: seq<word>, nxtadr: nat, pages: seq<Page>, ex: seq<Extent>, leftover: seq<word>)
    requires FileSound(h, disk, nxtadr, true, pages, ex) && |leftover| == 2 * h.lprm
    requires |pages| >= 1 && pages[|pages| - 1].modified && 128 < pages[|pages| - 1].nent < |pages[|pages| - 1].entries|
    ensures var p := |pages| - 1;
      FileSound(h, disk, nxtadr, true, pages[p := WithEntry(pages[p], pages[p].nent, leftover)], ex)
  {
    hide Segment, Tiled, StartAt, Counted, PageMatches, PageOnDisk, RecordOnDisk;
    Room(h, disk, nxtadr, true, pages, ex);
    var p := |pages| - 1;
    var pages' := pages[p := WithEntry(pages[p], pages[p].nent, leftover)];
    assert Directory(pages', ex, h.lprm) by { LeftoverInDirectory(pages, ex, h.lprm, leftover); }
    assert OnDisk(disk, pages', ex, h.lprm, h.fsiz + 1, true) by {
      LeftoverOnDisk(disk, pages, ex, h.lprm, h.fsiz + 1, leftover);
    }
  }

  lemma LeftoverInDirectory(pages: seq<Page>, ex: seq<Extent>, lprm: nat, leftover: seq<word>)
    requires Directory(pages, ex, lprm) && |leftover| == 2 * lprm
    requires 128 < pages[|pages| - 1].nent < |pages[|pages| - 1].entries|
    ensures var p := |pages| - 1;
      Directory(pages[p := WithEntry(pages[p], pages[p].nent, leftover)], ex, lprm)
  {
    hide EntryMatches;
    var p := |pages| - 1;
    var pages' := pages[p := WithEntry(pages[p], pages[p].nent, leftover)];
    forall q: nat | q < |pages| ensures PageMatches(pages', q, ex, lprm) {
      assert PageMatches(pages, q, ex, lprm);
      if q == p {
        forall j: nat | j < pages[p].nent ensures EntryMatches(pages'[p].entries, p, j, ex, lprm) {
          SameEntry(pages[p].entries, pages'[p].entries, p, j, ex, lprm);
        }
      }
    }
  }

  lemma SameEntry(entries: seq<seq<word>>, entries': seq<seq<word>>, p: nat, j: nat, ex: seq<Extent>, lprm: nat)
    requires j < |entries| == |entries'| && lprm >= 1 && entries[j] == entries'[j]
    requires EntryMatches(entries, p, j, ex, lprm)
    ensures EntryMatches(entries', p, j, ex, lprm)
  {
  }

  lemma LeftoverOnDisk(disk: seq<word>, pages: seq<Page>, ex: seq<Extent>, lprm: nat, end: nat, leftover: seq<word>)
    requires 2 <= lprm <= 16 && 1 <= end && OnDisk(disk, pages, ex, lprm, end, true)
    requires |pages| >= 1 && pages[|pages| - 1].modified && pages[|pages| - 1].nent < |pages[|pages| - 1].entries|
    ensures var p := |pages| - 1;
      OnDisk(disk, pages[p := WithEntry(pages[p], pages[p].nent, leftover)], ex, lprm, end, true)
  {
    hide RecordOnDisk, CleanPage, AllErased;
    var p := |pages| - 1;
    var pages' := pages[p := WithEntry(pages[p], pages[p].nent, leftover)];
    forall q: nat | q < |pages| ensures PageOnDisk(disk, pages', q, ex, lprm, true) {
      assert PageOnDisk(disk, pages, q, ex, lprm, true);
    }
  }

  /** So there are sound files in which the handle of a free slot is taken for that of a record:
      here what is left in the slot looks like a record of type 1. */
  lemma LeftoverAccepted(h: FileHeader, disk: seq<word>, nxtadr: nat, pages: seq<Page>, ex: seq<Extent>,
                         leftover: seq<word>, fileIndex: nat)
    requires FileSound(h, disk, nxtadr, true, pages, ex) && |leftover| == 2 * h.lprm >= 4
    requires leftover[0] == FirstWord(1, 5) && 1 <= fileIndex < 0x400
    requires |pages| >= 1 && pages[|pages| - 1].modified
    requires 128 < pages[|pages| - 1].nent < ENTRIES_PER_PAGE == |pages[|pages| - 1].entries|
    ensures var p := |pages| - 1;
      var pages', handle := pages[p := WithEntry(pages[p], pages[p].nent, leftover)],
        MakeRndHandle(p, pages[p].nent, fileIndex);
      FileSound(h, disk, nxtadr, true, pages', ex) && HandleError(handle, fileIndex, pages', ex) == 0 &&
        Leftover(handle, pages')
  {
    hide FileSound, And;
    AnyLeftover(h, disk, nxtadr, pages, ex, leftover);
    Room(h, disk, nxtadr, true, pages, ex);
    HandleRoundTrip(|pages| - 1, pages[|pages| - 1].nent, fileIndex);
    FirstWordRead(1, 5);
    DeletedTypes(1);
  }

  lemma MarkedEntry(e: Extent, lprm: nat)
    requires IsRecord(e, lprm) && lprm >= 1 && e.addr < WORD_BASE && !Gone(e)
    ensures EntryOf(e, lprm)[0 := FirstWord(254, LngOf(EntryOf(e, lprm)[0]))] == EntryOf(e.(deleted := true), lprm)
  {
    EntryTypeIs(e, lprm);
  }

  /** The exclusive or of the words of a page from word 4 on. */
  method ChecksumOf(check32: seq<word>, chksum: word, n: nat) returns (checksum: word)
    requires |check32| == n >= 4
    ensures checksum == XorFrom(chksum, check32[4..])
  {
    hide Xor;
    checksum := chksum;
    for j := 4 to n
      invariant checksum == XorFrom(chksum, check32[4..j])
    {
      XorOfWords(checksum, check32[j]);
      assert check32[4..j + 1][..j - 4] == check32[4..j];
      checksum := Xor(checksum, check32[j]);
    }
    assert check32[4..n] == check32[4..];
  }

  lemma ClosedIs(h: FileHeader, disk: seq<word>, nxtadr: nat, pages: seq<Page>, ex: seq<Extent>)
    requires FileSound(h, disk, nxtadr, false, pages, ex)
    ensures HeaderFits(h.(rwflg := RDMODE))
    ensures ClosedFile(h.(rwflg := RDMODE), Wawrit(disk, 0, HeaderWords(h.(rwflg := RDMODE))), pages, ex)
    ensures Segment(disk, 0, HeaderWords(h.(rwflg := RDMODE))) ==> ClosedFile(h.(rwflg := RDMODE), disk, pages, ex)
  {
    hide Tiled, Directory, OnDisk, Segment, HeaderWords, Wawrit;
    OpenModeKeeps(h, disk, nxtadr, false, pages, ex, RDMODE);
    HeaderKeeps(h.(rwflg := RDMODE), disk, nxtadr, false, pages, ex);
  }

  lemma PagesStay()
    ensures forall e: Extent {:trigger WithMark(e)} :: e.DirPage? ==> WithMark(e) == e
  {
  }

  lemma MarkedAll(ex: seq<Extent>, ex': seq<Extent>, p: nat)
    requires |ex'| == |ex| && forall i: nat | i < |ex| && i / STRIDE == p :: ex'[i] == WithMark(ex[i])
    ensures AllErased(ex', p)
  {
  }

  /** A record after the file is closed. */
  ghost function WithMark(e: Extent): Extent
  {
    if e.Record? && Gone(e) then e.(erased := true) else e
  }

  lemma MarkedOnDisk(e: Extent, lprm: nat)
    requires IsRecord(e, lprm) && lprm >= 1 && e.addr < WORD_BASE && Gone(e)
    ensures var entry := EntryOf(e, lprm)[0 := FirstWord(255, LngOf(EntryOf(e, lprm)[0]))];
      entry == EntryOf(e.(erased := true), lprm) && entry[..2] == Mark(e, lprm)
  {
    EntryTypeIs(e, lprm);
  }

  lemma SameType(entry: seq<word>, idtyp: nat, lng: nat)
    requires |entry| >= 1 && idtyp == IdtypOf(entry[0]) < 0x100 && lng == LngOf(entry[0])
    ensures entry[0 := FirstWord(idtyp, lng)] == entry
  {
  }

  lemma HeaderLength(h: FileHeader)
    requires HeaderFits(h)
    ensures |HeaderWords(h)| == 2 * h.lng
  {
  }

  lemma OpenModeKeeps(h: FileHeader, disk: seq<word>, nxtadr: nat, modified: bool, pages: seq<Page>, ex: seq<Extent>,
                      mode: nat)
    requires FileSound(h, disk, nxtadr, modified, pages, ex) && mode < WORD_BASE
    ensures FileSound(h.(rwflg := mode), disk, nxtadr, modified, pages, ex)
  {
    hide Tiled, Directory, OnDisk, Segment;
  }

  lemma SegmentIsPage(disk: seq<word>, page: Page, lprm: nat)
    requires PageFits(page, lprm) && 1 <= page.addr && Segment(disk, 2 * (page.addr - 1), PageWords(page, lprm))
    requires PageSum(page, 0, lprm) == 0
    ensures var at, n := 2 * (page.addr - 1), 2 * PageUnits(lprm);
      at + n <= |disk| && ParsePage(disk[at..at + n], lprm) == page.(modified := false) &&
        XorFrom(0, disk[at..at + n][4..]) == 0
  {
    hide Flatten, XorFrom;
    PageReadBack(page, lprm);
    PageWordsSplit(page, lprm);
  }

  lemma UpdateOfLonger(ex: seq<Extent>, i: nat, e: Extent, page: Extent)
    requires i < |ex|
    ensures (ex + [page])[i := e] == ex[i := e] + [page]
  {
  }

  lemma RewriteKeeps(h: FileHeader, disk: seq<word>, nxtadr: nat, modified: bool, pages: seq<Page>, ex: seq<Extent>)
    requires FileSound(h, disk, nxtadr, modified, pages, ex) && h.nrwr + 1 < WORD_BASE
    ensures FileSound(h.(nrwr := h.nrwr + 1), disk, nxtadr, modified, pages, ex)
  {
    hide Tiled, Directory, OnDisk, Segment;
  }

  lemma EntryTypeIs(e: Extent, lprm: nat)
    requires IsRecord(e, lprm) && lprm >= 1 && e.addr < WORD_BASE
    ensures IdtypOf(EntryOf(e, lprm)[0]) == EntryIdtyp(e) && LngOf(EntryOf(e, lprm)[0]) == Units(e, lprm)
    ensures EntryIdtyp(e) in {126, 254, 255} <==> Gone(e)
    ensures 1 <= EntryIdtyp(e) <= 126 || EntryIdtyp(e) in {254, 255}
  {
    FirstWordRead(EntryIdtyp(e), Units(e, lprm));
  }
}
