/** When an open XDF file is sound, and how each step of an operation keeps it so. */
module XdfSound {
  import opened Words
  import opened WordDisk
  import opened XdfFormat
  import opened XdfLayout
  import opened XdfSteps

  /** The state of an open file: the extents tile the file, and the header, the directory and
      the disk all agree with them. */
  ghost predicate FileSound(h: FileHeader, disk: seq<word>, nxtadr: nat, modified: bool, pages: seq<Page>,
                            ex: seq<Extent>)
  {
    HeaderFits(h) && h.lng == 8 + h.nprm + h.naux && Tiled(ex, h.lprm, h.lng + 1, h.fsiz + 1) &&
    Directory(pages, ex, h.lprm) && OnDisk(disk, pages, ex, h.lprm, h.fsiz + 1, modified) && Counted(h, ex) &&
    h.plst == pages[|pages| - 1].addr && nxtadr == 2 * h.fsiz + 1 && Segment(disk, 0, [FirstWord(0, h.lng), 0])
  }

  // ----- Counters -----

  lemma {:induction false} PagesCounted(ex: seq<Extent>, n: nat, lprm: nat, start: nat)
    requires n <= |ex| && forall i: nat | i < |ex| :: InPlace(ex, i, lprm, start)
    ensures CountsOf(ex[..n], lprm).pages == (n + STRIDE - 1) / STRIDE
  {
    hide StartAt;
    if n > 0 {
      PagesCounted(ex, n - 1, lprm, start);
      assert ex[..n][..n - 1] == ex[..n - 1];
      assert InPlace(ex, n - 1, lprm, start);
    }
  }

  /** The header counts the directory pages and the directory entries. */
  lemma CountersFit(h: FileHeader, disk: seq<word>, nxtadr: nat, modified: bool, pages: seq<Page>, ex: seq<Extent>)
    requires FileSound(h, disk, nxtadr, modified, pages, ex)
    ensures h.nbd == |pages| && h.nxtn == |ex| - |pages| <= 0x4_0000 && h.nrec <= h.nxtn
    ensures 1 <= |pages| && pages[|pages| - 1].nent <= ENTRIES_PER_PAGE
    ensures |ex| == STRIDE * |pages| <==> pages[|pages| - 1].nent == ENTRIES_PER_PAGE
  {
    hide OnDisk, PageMatches, Tiled;
    assert PageMatches(pages, |pages| - 1, ex, h.lprm);
    CountsBounds(ex, h.lprm);
    PageTotal(ex, h.lprm, h.lng + 1, h.fsiz + 1);
    LastPageFull(pages, ex, h.lprm);
  }

  lemma PageTotal(ex: seq<Extent>, lprm: nat, start: nat, end: nat)
    requires Tiled(ex, lprm, start, end)
    ensures CountsOf(ex, lprm).pages == (|ex| + STRIDE - 1) / STRIDE
  {
    PagesCounted(ex, |ex|, lprm, start);
    assert ex[..|ex|] == ex;
  }

  lemma LastPageFull(pages: seq<Page>, ex: seq<Extent>, lprm: nat)
    requires pages != [] && STRIDE * (|pages| - 1) < |ex| <= STRIDE * |pages|
    requires PageMatches(pages, |pages| - 1, ex, lprm)
    ensures pages[|pages| - 1].nent <= ENTRIES_PER_PAGE
    ensures |ex| == STRIDE * |pages| <==> pages[|pages| - 1].nent == ENTRIES_PER_PAGE
  {
  }

  // ----- Steps of a file -----

  function IndexOf(p: nat, j: nat): nat
  {
    STRIDE * p + 1 + j
  }

  /** Record j of page p. */
  function RecordAt(ex: seq<Extent>, p: nat, j: nat): (e: Extent)
    ensures e.Record?
  {
    var i := IndexOf(p, j);
    if i < |ex| && ex[i].Record? then ex[i] else Record(0, 0, [], false, false)
  }

  lemma RecordInPage(h: FileHeader, pages: seq<Page>, ex: seq<Extent>, p: nat, j: nat)
    requires Directory(pages, ex, h.lprm) && p < |pages| && j < pages[p].nent
    ensures IndexOf(p, j) < |ex| && STRIDE * p < IndexOf(p, j) < STRIDE * (p + 1) && PageMatches(pages, p, ex, h.lprm)
    ensures RecordAt(ex, p, j) == ex[IndexOf(p, j)] && IsRecord(ex[IndexOf(p, j)], h.lprm)
    ensures ex[IndexOf(p, j)].addr < WORD_BASE
    ensures PageFits(pages[p], h.lprm) && pages[p].entries[j] == EntryOf(ex[IndexOf(p, j)], h.lprm)
  {
    assert PageMatches(pages, p, ex, h.lprm);
    EntryInPage(pages, p, j, ex, h.lprm);
  }

  /** Marking the entry of a record as deleted. */
  lemma DeleteKeeps(h: FileHeader, disk: seq<word>, nxtadr: nat, modified: bool, pages: seq<Page>, ex: seq<Extent>,
                    p: nat, j: nat)
    requires FileSound(h, disk, nxtadr, modified, pages, ex) && h.neff + 1 < WORD_BASE
    requires p < |pages| && j < pages[p].nent && IndexOf(p, j) < |ex| && j < |pages[p].entries|
    requires !Gone(RecordAt(ex, p, j))
    ensures var e := RecordAt(ex, p, j).(deleted := true);
      h.nrec >= 1 && IsRecord(e, h.lprm) && e.addr < WORD_BASE &&
      FileSound(h.(neff := h.neff + 1, nrec := h.nrec - 1), disk, nxtadr, true,
        pages[p := WithEntry(pages[p], j, EntryOf(e, h.lprm))], ex[IndexOf(p, j) := e])
  {
    hide StartAt, Segment, EntryOf, PageOnDisk, RecordOnDisk, PageMatches, OnDisk, Tiled;
    var i := IndexOf(p, j);
    RecordInPage(h, pages, ex, p, j);
    var e := ex[i].(deleted := true);
    TiledUpdate(ex, i, e, h.lprm, h.lng + 1, h.fsiz + 1);
    DirectoryUpdate(pages, ex, p, j, e, h.lprm);
    OnDiskDelete(disk, pages, WithEntry(pages[p], j, EntryOf(e, h.lprm)), ex, p, i, h.lprm, h.fsiz + 1, modified);
    CountsUpdate(ex, i, e, h.lprm);
    CountsBounds(ex[i := e], h.lprm);
  }

  /** Writing a record of the same length over a deleted one. */
  lemma OverwriteKeeps(h: FileHeader, disk: seq<word>, nxtadr: nat, modified: bool, pages: seq<Page>, ex: seq<Extent>,
                       p: nat, j: nat, e: Extent)
    requires FileSound(h, disk, nxtadr, modified, pages, ex) && h.nrec + 1 < WORD_BASE
    requires p < |pages| && j < pages[p].nent && IndexOf(p, j) < |ex| && j < |pages[p].entries|
    requires RecordAt(ex, p, j).deleted
    requires IsRecord(e, h.lprm) && !e.deleted && e.addr == RecordAt(ex, p, j).addr
    requires Units(e, h.lprm) == Units(RecordAt(ex, p, j), h.lprm)
    ensures 1 <= e.addr < WORD_BASE && 2 * (e.addr - 1) <= |disk|
    ensures FileSound(h.(nrec := h.nrec + 1), Wawrit(disk, 2 * (e.addr - 1), RecordWords(e, h.lprm)), nxtadr, true,
        pages[p := WithEntry(pages[p], j, EntryOf(e, h.lprm))], ex[IndexOf(p, j) := e])
  {
    hide StartAt, Segment, EntryOf, RecordWords, PageOnDisk, RecordOnDisk, PageMatches, Wawrit;
    var i := IndexOf(p, j);
    RecordInPage(h, pages, ex, p, j);
    TiledUpdate(ex, i, e, h.lprm, h.lng + 1, h.fsiz + 1);
    DirectoryUpdate(pages, ex, p, j, e, h.lprm);
    OnDiskOverwrite(disk, pages, WithEntry(pages[p], j, EntryOf(e, h.lprm)), ex, p, i, e, h.lprm, h.lng + 1, h.fsiz + 1,
      modified);
    Inside(ex, i, h.lprm, h.lng + 1, h.fsiz + 1);
    Kept(disk, 2 * (e.addr - 1), RecordWords(e, h.lprm), 0, [FirstWord(0, h.lng), 0]);
    CountsUpdate(ex, i, e, h.lprm);
  }

  lemma CountedGrows(h: FileHeader, ex: seq<Extent>, e: Extent)
    requires Counted(h, ex) && e.Record? && !e.deleted
    ensures var u := Units(e, h.lprm);
      h.nrec <= h.nxtn &&
      Counted(h.(nrec := h.nrec + 1, nxtn := h.nxtn + 1, fsiz := h.fsiz + u, nbig := if u > h.nbig then u else h.nbig),
        ex + [e])
  {
    hide Units;
    CountsGrow(ex, e, h.lprm);
    CountsBounds(ex, h.lprm);
  }

  /** Appending a record to the last page. */
  lemma AppendKeeps(h: FileHeader, disk: seq<word>, nxtadr: nat, modified: bool, pages: seq<Page>, ex: seq<Extent>,
                    e: Extent)
    requires FileSound(h, disk, nxtadr, modified, pages, ex) && |ex| < STRIDE * |pages| && h.nxtn + 1 < WORD_BASE
    requires e.Record? && IsRecord(e, h.lprm) && !e.deleted && e.addr == h.fsiz + 1
    requires h.fsiz + 1 + Units(e, h.lprm) < 0x4000_0000
    ensures |pages| >= 1 && pages[|pages| - 1].nent < |pages[|pages| - 1].entries|
    ensures var u := Units(e, h.lprm);
      FileSound(h.(nrec := h.nrec + 1, nxtn := h.nxtn + 1, fsiz := h.fsiz + u, nbig :=
        if u > h.nbig then u else h.nbig),
        Wawrit(disk, |disk|, RecordWords(e, h.lprm)), nxtadr + 2 * u, true,
        pages[|pages| - 1 := WithNewEntry(pages[|pages| - 1], EntryOf(e, h.lprm))], ex + [e])
  {
    hide StartAt, Segment, EntryOf, RecordWords, PageOnDisk, RecordOnDisk, Wawrit, IsRecord, Units;
    assert PageMatches(pages, |pages| - 1, ex, h.lprm);
    TiledGrows(ex, e, h.lprm, h.lng + 1, h.fsiz + 1);
    DirectoryAppend(pages, ex, e, h.lprm);
    OnDiskAppend(disk, pages, WithNewEntry(pages[|pages| - 1], EntryOf(e, h.lprm)), ex, e, h.lprm, h.fsiz + 1,
      modified);
    SegmentLength(disk, 0, [FirstWord(0, h.lng), 0]);
    Kept(disk, |disk|, RecordWords(e, h.lprm), 0, [FirstWord(0, h.lng), 0]);
    CountedGrows(h, ex, e);
  }

  /** Adding a directory page. */
  lemma NewPageKeeps(h: FileHeader, disk: seq<word>, nxtadr: nat, modified: bool, pages: seq<Page>, ex: seq<Extent>,
                     page: Page)
    requires FileSound(h, disk, nxtadr, modified, pages, ex) && |ex| == STRIDE * |pages| && |pages| < MAX_DIR_PAGES
    requires h.nbd + 1 < WORD_BASE
    requires IsNewPage(page, h.fsiz + 1, h.lprm) && h.fsiz + 1 + PageUnits(h.lprm) < 0x4000_0000
    ensures FileSound(h.(nbd := h.nbd + 1, plst := page.addr, fsiz := h.fsiz + PageUnits(h.lprm)),
        Wawrit(disk, |disk|, PageWords(page, h.lprm)), nxtadr + 2 * PageUnits(h.lprm), true,
        Linked(pages, page), ex + [DirPage(h.fsiz + 1)])
  {
    hide StartAt, Segment, PageWords, PageOnDisk, RecordOnDisk, Wawrit, PageMatches, Unused;
    var e := DirPage(h.fsiz + 1);
    TiledGrows(ex, e, h.lprm, h.lng + 1, h.fsiz + 1);
    DirectoryGrows(pages, ex, page, h.fsiz + 1, h.lprm);
    OnDiskNewPage(disk, pages, page, ex, h.lprm, h.fsiz + 1, modified);
    SegmentLength(disk, 0, [FirstWord(0, h.lng), 0]);
    Kept(disk, |disk|, PageWords(page, h.lprm), 0, [FirstWord(0, h.lng), 0]);
    CountsGrow(ex, e, h.lprm);
  }

  /** A file with its header and a first directory page. */
  lemma FirstPageSound(h: FileHeader, disk: seq<word>, page: Page)
    requires HeaderFits(h) && h.lng == h.fsiz == 8 + h.nprm + h.naux && 2 <= h.lprm <= 16 && disk == HeaderWords(h)
    requires h.nrwr == h.nxtn == h.nbd == h.nbig == h.neff == h.nrec == 0
    requires IsNewPage(page, h.fsiz + 1, h.lprm) && h.fsiz + 1 + PageUnits(h.lprm) < 0x4000_0000
    ensures FileSound(h.(nbd := 1, plst := page.addr, fsiz := h.fsiz + PageUnits(h.lprm)),
        Wawrit(disk, |disk|, PageWords(page, h.lprm)), 2 * h.fsiz + 1 + 2 * PageUnits(h.lprm), true, [page],
          [DirPage(h.fsiz + 1)])
  {
    hide Segment, PageWords, PageOnDisk, RecordOnDisk, Wawrit, PageMatches, Unused;
    var e := DirPage(h.fsiz + 1);
    var ex := [e];
    assert StartAt(ex, 0, h.lprm, h.lng + 1) == h.lng + 1 &&
      StartAt(ex, 1, h.lprm, h.lng + 1) == h.lng + 1 + PageUnits(h.lprm);
    assert InPlace(ex, 0, h.lprm, h.lng + 1);
    FirstPage(page, h.fsiz + 1, h.lprm);
    OnDiskFirst(disk, page, h.lprm, h.fsiz + 1);
    assert Segment(disk, 0, [FirstWord(0, h.lng), 0]) by { HeaderStarts(h); }
    Kept(disk, |disk|, PageWords(page, h.lprm), 0, [FirstWord(0, h.lng), 0]);
    CountsGrow([], e, h.lprm);
    assert [] + [e] == ex;
  }

  lemma HeaderStarts(h: FileHeader)
    requires HeaderFits(h)
    ensures Segment(HeaderWords(h), 0, [FirstWord(0, h.lng), 0])
  {
  }

  /** Setting the flag of a page asks for more writing, no less. */
  lemma FlagKeeps(h: FileHeader, disk: seq<word>, nxtadr: nat, modified: bool, pages: seq<Page>, ex: seq<Extent>,
                  p: nat)
    requires FileSound(h, disk, nxtadr, modified, pages, ex) && p < |pages|
    ensures FileSound(h, disk, nxtadr, modified, pages[p := pages[p].(modified := true)], ex)
  {
    hide Segment, RecordOnDisk, AllErased, Tiled, EntryMatches, Unused;
    var pages' := pages[p := pages[p].(modified := true)];
    forall q: nat | q < |pages'| ensures PageMatches(pages', q, ex, h.lprm) &&
      PageOnDisk(disk, pages', q, ex, h.lprm, modified) {
      assert PageMatches(pages, q, ex, h.lprm) && PageOnDisk(disk, pages, q, ex, h.lprm, modified);
      if CleanPage(disk, pages[q], h.lprm) { assert PageWords(pages'[q], h.lprm) == PageWords(pages[q], h.lprm); }
    }
  }

  lemma Room(h: FileHeader, disk: seq<word>, nxtadr: nat, modified: bool, pages: seq<Page>, ex: seq<Extent>)
    requires FileSound(h, disk, nxtadr, modified, pages, ex)
    ensures |disk| == nxtadr - 1 == 2 * h.fsiz && 1 <= |pages| <= MAX_DIR_PAGES && 2 <= h.lprm <= 16 && HeaderFits(h)
    ensures forall p: nat {:trigger pages[p]} | p < |pages| ::
      |pages[p].entries| == ENTRIES_PER_PAGE && pages[p].nent <= ENTRIES_PER_PAGE
  {
    hide PageOnDisk, RecordOnDisk, StartAt;
    forall p: nat | p < |pages| ensures PageFits(pages[p], h.lprm) {
      assert PageMatches(pages, p, ex, h.lprm);
    }
  }

  lemma RecordStored(h: FileHeader, disk: seq<word>, nxtadr: nat, modified: bool, pages: seq<Page>, ex: seq<Extent>,
                     i: nat)
    requires FileSound(h, disk, nxtadr, modified, pages, ex) && i < |ex| && ex[i].Record?
    ensures IsRecord(ex[i], h.lprm) && 1 <= ex[i].addr < WORD_BASE
    ensures Segment(disk, 2 * (ex[i].addr - 1), RecordWords(ex[i], h.lprm))
  {
    hide StartAt, Segment, PageOnDisk, IsRecord, RecordWords, PageMatches;
    assert InPlace(ex, i, h.lprm, h.lng + 1);
    assert RecordOnDisk(disk, ex, i, h.lprm);
  }
}
