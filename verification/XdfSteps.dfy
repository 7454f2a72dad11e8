/** What one step of an XDF file operation does to the directory and to the disk. */
module XdfSteps {
  import opened Words
  import opened WordDisk
  import opened XdfFormat
  import opened XdfLayout

  // ----- The directory -----

  /** The page with entry j replaced. */
  ghost function WithEntry(page: Page, j: nat, entry: seq<word>): Page
    requires j < |page.entries|
  {
    page.(entries := page.entries[j := entry], modified := true)
  }

  /** Replacing record j of page p, and its entry. */
  lemma DirectoryUpdate(pages: seq<Page>, ex: seq<Extent>, p: nat, j: nat, e: Extent, lprm: nat)
    requires Directory(pages, ex, lprm) && p < |pages| && PageMatches(pages, p, ex, lprm) && j < pages[p].nent
    requires IsRecord(e, lprm) && e.addr == ex[STRIDE * p + 1 + j].addr && e.addr < WORD_BASE
    ensures Directory(pages[p := WithEntry(pages[p], j, EntryOf(e, lprm))], ex[STRIDE * p + 1 + j := e], lprm)
  {
    EntryInPage(pages, p, j, ex, lprm);
    hide PageMatches;
    var i := STRIDE * p + 1 + j;
    var pages', ex' := pages[p := WithEntry(pages[p], j, EntryOf(e, lprm))], ex[i := e];
    forall q: nat | q < |pages'| ensures PageMatches(pages', q, ex', lprm) {
      assert PageMatches(pages, q, ex, lprm);
      if q == p {
        ThisPageUpdated(pages, ex, p, j, e, lprm);
      } else {
        OtherPageUpdated(pages, ex, p, j, e, q, pages'[p], lprm);
      }
    }
  }

  lemma EntryInPage(pages: seq<Page>, p: nat, j: nat, ex: seq<Extent>, lprm: nat)
    requires p < |pages| && STRIDE * (|pages| - 1) < |ex| && PageMatches(pages, p, ex, lprm) && j < pages[p].nent
    ensures PageFits(pages[p], lprm) && STRIDE * p + 1 + j < |ex| && EntryMatches(pages[p].entries, p, j, ex, lprm)
  {
  }

  lemma ThisPageUpdated(pages: seq<Page>, ex: seq<Extent>, p: nat, j: nat, e: Extent, lprm: nat)
    requires p < |pages| && STRIDE * (|pages| - 1) < |ex| && PageMatches(pages, p, ex, lprm) && j < pages[p].nent
    requires IsRecord(e, lprm) && e.addr == ex[STRIDE * p + 1 + j].addr && e.addr < WORD_BASE
    ensures PageMatches(pages[p := WithEntry(pages[p], j, EntryOf(e, lprm))], p, ex[STRIDE * p + 1 + j := e], lprm)
  {
    hide IsRecord, EntryOf, Units;
    var i := STRIDE * p + 1 + j;
    var entries, entries', ex' := pages[p].entries, pages[p].entries[j := EntryOf(e, lprm)], ex[i := e];
    forall k: nat | k < pages[p].nent ensures EntryMatches(entries', p, k, ex', lprm) {
      assert EntryMatches(entries, p, k, ex, lprm);
    }
    forall k: nat | pages[p].nent <= k <= 128 ensures Unused(entries', k) {
      assert Unused(entries, k);
    }
    EntryLength(e, lprm);
  }

  lemma EntryLength(e: Extent, lprm: nat)
    requires IsRecord(e, lprm) && lprm >= 1 && e.addr < WORD_BASE
    ensures |EntryOf(e, lprm)| == 2 * lprm
  {
  }

  lemma OtherPageUpdated(pages: seq<Page>, ex: seq<Extent>, p: nat, j: nat, e: Extent, q: nat, page: Page, lprm: nat)
    requires p < |pages| && STRIDE * (|pages| - 1) < |ex| && PageMatches(pages, p, ex, lprm) && j < pages[p].nent
    requires q < |pages| && q != p && PageMatches(pages, q, ex, lprm)
    requires e.addr == ex[STRIDE * p + 1 + j].addr
    ensures PageMatches(pages[p := page], q, ex[STRIDE * p + 1 + j := e], lprm)
  {
    hide IsRecord, EntryOf, Units, Unused;
    var i := STRIDE * p + 1 + j;
    var ex' := ex[i := e];
    forall k: nat | k < pages[q].nent ensures EntryMatches(pages[q].entries, q, k, ex', lprm) {
      assert EntryMatches(pages[q].entries, q, k, ex, lprm);
    }
  }

  // ----- A new entry -----

  /** The page with one entry more. */
  ghost function WithNewEntry(page: Page, entry: seq<word>): Page
    requires page.nent < |page.entries|
  {
    WithEntry(page, page.nent, entry).(nent := page.nent + 1)
  }

  lemma DirectoryAppend(pages: seq<Page>, ex: seq<Extent>, e: Extent, lprm: nat)
    requires Directory(pages, ex, lprm) && |ex| < STRIDE * |pages| && IsRecord(e, lprm) && e.addr < WORD_BASE
    requires PageMatches(pages, |pages| - 1, ex, lprm)
    ensures var p := |pages| - 1;
      Directory(pages[p := WithNewEntry(pages[p], EntryOf(e, lprm))], ex + [e], lprm)
  {
    var p := |pages| - 1;
    var pages', ex' := pages[p := WithNewEntry(pages[p], EntryOf(e, lprm))], ex + [e];
    forall q: nat | q < |pages'| ensures PageMatches(pages', q, ex', lprm) {
      assert PageMatches(pages, q, ex, lprm);
      if q == p { LastPageGrows(pages, ex, e, lprm); } else { EarlierPage(pages, pages', q, ex, ex', lprm); }
    }
  }

  lemma LastPageGrows(pages: seq<Page>, ex: seq<Extent>, e: Extent, lprm: nat)
    requires pages != [] && STRIDE * (|pages| - 1) < |ex| < STRIDE * |pages| && IsRecord(e, lprm) && e.addr < WORD_BASE
    requires PageMatches(pages, |pages| - 1, ex, lprm)
    ensures var p := |pages| - 1;
      PageMatches(pages[p := WithNewEntry(pages[p], EntryOf(e, lprm))], p, ex + [e], lprm)
  {
    hide IsRecord, EntryOf, Units;
    var p, ex' := |pages| - 1, ex + [e];
    var entries, entries' := pages[p].entries, pages[p].entries[pages[p].nent := EntryOf(e, lprm)];
    forall k: nat | k < pages[p].nent + 1 ensures EntryMatches(entries', p, k, ex', lprm) {
      if k < pages[p].nent { assert EntryMatches(entries, p, k, ex, lprm); }
    }
    forall k: nat | pages[p].nent + 1 <= k <= 128 ensures Unused(entries', k) {
      assert Unused(entries, k);
    }
    EntryLength(e, lprm);
  }

  /** A page is not concerned by what is added after it. */
  lemma EarlierPage(pages: seq<Page>, pages': seq<Page>, q: nat, ex: seq<Extent>, ex': seq<Extent>, lprm: nat)
    requires q < |pages| && q < |pages'| && STRIDE * (|pages| - 1) < |ex| && STRIDE * (|pages'| - 1) < |ex'|
    requires PageMatches(pages, q, ex, lprm) && pages'[q] == pages[q] && ex <= ex'
    requires EntryCount(|ex'|, q) == EntryCount(|ex|, q) && (q + 1 < |pages| <==> q + 1 < |pages'|)
    ensures PageMatches(pages', q, ex', lprm)
  {
    hide IsRecord, EntryOf, Units, Unused;
    forall k: nat | k < pages'[q].nent ensures EntryMatches(pages'[q].entries, q, k, ex', lprm) {
      assert EntryMatches(pages[q].entries, q, k, ex, lprm);
    }
  }

  // ----- A new page -----

  /** A page without entries, whose first half is cleared. */
  ghost predicate IsNewPage(page: Page, addr: nat, lprm: nat)
  {
    PageFits(page, lprm) && page.addr == addr && page.nxtAddr == 0 && page.nent == 0 && page.modified &&
    forall j: nat | j <= 128 :: Unused(page.entries, j)
  }

  ghost function Linked(pages: seq<Page>, page: Page): seq<Page>
    requires pages != []
  {
    pages[|pages| - 1 := pages[|pages| - 1].(nxtAddr := page.addr, modified := true)] + [page]
  }

  lemma DirectoryGrows(pages: seq<Page>, ex: seq<Extent>, page: Page, addr: nat, lprm: nat)
    requires Directory(pages, ex, lprm) && |ex| == STRIDE * |pages| && |pages| < MAX_DIR_PAGES
    requires IsNewPage(page, addr, lprm)
    ensures Directory(Linked(pages, page), ex + [DirPage(addr)], lprm)
  {
    hide IsRecord, EntryOf, Units, Unused;
    var pages', ex' := Linked(pages, page), ex + [DirPage(addr)];
    forall q: nat | q < |pages'| ensures PageMatches(pages', q, ex', lprm) {
      if q < |pages| {
        assert PageMatches(pages, q, ex, lprm);
        forall k: nat | k < pages'[q].nent ensures EntryMatches(pages'[q].entries, q, k, ex', lprm) {
          assert EntryMatches(pages[q].entries, q, k, ex, lprm);
        }
        if q + 1 < |pages| { assert PageMatches(pages, q + 1, ex, lprm); }
      }
    }
  }

  lemma FirstPage(page: Page, addr: nat, lprm: nat)
    requires IsNewPage(page, addr, lprm)
    ensures Directory([page], [DirPage(addr)], lprm)
  {
    hide IsRecord, EntryOf, Units, Unused;
    assert PageMatches([page], 0, [DirPage(addr)], lprm);
  }

  // ----- The disk -----

  /** Writing over one extent leaves the others in place. */
  lemma WriteElsewhere(disk: seq<word>, ex: seq<Extent>, i: nat, ws: seq<word>, k: nat, s: seq<word>, lprm: nat,
                       start: nat, end: nat)
    requires Tiled(ex, lprm, start, end) && |disk| == 2 * (end - 1) && i < |ex| && k < |ex| && i != k
    requires 1 <= ex[i].addr && 1 <= ex[k].addr && |ws| <= 2 * Units(ex[i], lprm) && |s| <= 2 * Units(ex[k], lprm)
    requires Segment(disk, 2 * (ex[k].addr - 1), s) && 2 * (ex[i].addr - 1) <= |disk|
    ensures Segment(Wawrit(disk, 2 * (ex[i].addr - 1), ws), 2 * (ex[k].addr - 1), s)
  {
    hide Tiled, Segment;
    if i < k { Disjoint(ex, i, k, lprm, start, end); } else { Disjoint(ex, k, i, lprm, start, end); }
    Kept(disk, 2 * (ex[i].addr - 1), ws, 2 * (ex[k].addr - 1), s);
  }

  /** The same for a record, and for a page. */
  lemma RecordKept(disk: seq<word>, ex: seq<Extent>, i: nat, ws: seq<word>, k: nat, lprm: nat, start: nat, end: nat)
    requires Tiled(ex, lprm, start, end) && |disk| == 2 * (end - 1) && i < |ex| && k < |ex| && i != k
    requires 1 <= ex[i].addr && |ws| <= 2 * Units(ex[i], lprm) && 2 * (ex[i].addr - 1) <= |disk|
    requires RecordOnDisk(disk, ex, k, lprm)
    ensures RecordOnDisk(Wawrit(disk, 2 * (ex[i].addr - 1), ws), ex, k, lprm)
  {
    hide Tiled, Segment, IsRecord, Wawrit;
    if k % STRIDE != 0 { WriteElsewhere(disk, ex, i, ws, k, RecordWords(ex[k], lprm), lprm, start, end); }
  }

  lemma PageKept(disk: seq<word>, pages: seq<Page>, ex: seq<Extent>, i: nat, ws: seq<word>, p: nat, lprm: nat,
                 start: nat, end: nat, modified: bool)
    requires Tiled(ex, lprm, start, end) && |disk| == 2 * (end - 1) && i < |ex| && p < |pages| && STRIDE * p < |ex|
    requires i != STRIDE * p
    requires 1 <= ex[i].addr && |ws| <= 2 * Units(ex[i], lprm) && 2 * (ex[i].addr - 1) <= |disk|
    requires pages[p].addr == ex[STRIDE * p].addr && PageOnDisk(disk, pages, p, ex, lprm, modified)
    ensures PageOnDisk(Wawrit(disk, 2 * (ex[i].addr - 1), ws), pages, p, ex, lprm, modified)
  {
    hide Segment, Wawrit, AllErased, PageWords, PageFits, PageSum;
    var k := STRIDE * p;
    assert InPlace(ex, k, lprm, start);
    Inside(ex, k, lprm, start, end);
    WriteElsewhere(disk, ex, i, ws, k, [FirstWord(0, PageUnits(lprm)), pages[p].addr], lprm, start, end);
    if CleanPage(disk, pages[p], lprm) {
      PageWordsLength(pages[p], lprm);
      WriteElsewhere(disk, ex, i, ws, k, PageWords(pages[p], lprm), lprm, start, end);
    }
  }

  /** The disk after record i of page p changed, the words of the other extents being in
      place. */
  lemma OnDiskUpdate(disk: seq<word>, disk': seq<word>, pages: seq<Page>, page: Page, ex: seq<Extent>, p: nat, i: nat,
                     e: Extent,
                     lprm: nat, end: nat, modified: bool)
    requires 2 <= lprm <= 16 && 1 <= end && OnDisk(disk, pages, ex, lprm, end, modified) && |disk'| == |disk|
    requires p < |pages| && STRIDE * p < i < STRIDE * (p + 1) && i < |ex|
    requires page.modified && page.addr == pages[p].addr
    requires forall q: nat | q < |pages| :: PageOnDisk(disk', pages, q, ex, lprm, modified)
    requires forall k: nat | k < |ex| && k != i :: RecordOnDisk(disk', ex, k, lprm)
    requires RecordOnDisk(disk', ex[i := e], i, lprm)
    ensures OnDisk(disk', pages[p := page], ex[i := e], lprm, end, true)
  {
    hide Segment, RecordWords, IsRecord, CleanPage;
    var pages', ex' := pages[p := page], ex[i := e];
    forall q: nat | q < |pages'| ensures PageOnDisk(disk', pages', q, ex', lprm, true) {
      assert PageOnDisk(disk', pages, q, ex, lprm, modified);
    }
    forall k: nat | k < |ex'| ensures RecordOnDisk(disk', ex', k, lprm) {
      if k != i { assert RecordOnDisk(disk', ex, k, lprm); }
    }
  }

  /** Deleting a record changes the directory only. */
  lemma OnDiskDelete(disk: seq<word>, pages: seq<Page>, page: Page, ex: seq<Extent>, p: nat, i: nat,
                     lprm: nat, end: nat, modified: bool)
    requires 2 <= lprm <= 16 && 1 <= end && OnDisk(disk, pages, ex, lprm, end, modified)
    requires p < |pages| && STRIDE * p < i < STRIDE * (p + 1) && i < |ex| && ex[i].Record? && !ex[i].erased
    requires page.modified && page.addr == pages[p].addr
    ensures OnDisk(disk, pages[p := page], ex[i := ex[i].(deleted := true)], lprm, end, true)
  {
    hide Segment, CleanPage, PageOnDisk;
    assert RecordOnDisk(disk, ex, i, lprm);
    OnDiskUpdate(disk, disk, pages, page, ex, p, i, ex[i].(deleted := true), lprm, end, modified);
  }

  /** Writing record i of page p over the old one. */
  lemma OnDiskOverwrite(disk: seq<word>, pages: seq<Page>, page: Page, ex: seq<Extent>, p: nat, i: nat, e: Extent,
                        lprm: nat, start: nat, end: nat, modified: bool)
    requires Tiled(ex, lprm, start, end) && Directory(pages, ex, lprm) && OnDisk(disk, pages, ex, lprm, end, modified)
    requires p < |pages| && STRIDE * p < i < STRIDE * (p + 1) && i < |ex| && IsRecord(e, lprm)
    requires e.addr == ex[i].addr && Units(e, lprm) == Units(ex[i], lprm)
    requires page.modified && page.addr == pages[p].addr
    ensures 1 <= e.addr < WORD_BASE && 2 * (e.addr - 1) <= |disk|
    ensures OnDisk(Wawrit(disk, 2 * (e.addr - 1), RecordWords(e, lprm)), pages[p := page], ex[i := e], lprm, end, true)
  {
    hide Segment, CleanPage, PageOnDisk, RecordWords, Tiled, PageMatches, RecordOnDisk, IsRecord, Units;
    StartOf(ex, lprm, start, end);
    Inside(ex, i, lprm, start, end);
    var ws := RecordWords(e, lprm);
    var disk' := Wawrit(disk, 2 * (e.addr - 1), ws);
    forall q: nat | q < |pages| ensures PageOnDisk(disk', pages, q, ex, lprm, modified) {
      assert PageMatches(pages, q, ex, lprm) && PageOnDisk(disk, pages, q, ex, lprm, modified);
      PageAddress(pages, q, ex, lprm);
      PageKept(disk, pages, ex, i, ws, q, lprm, start, end, modified);
    }
    forall k: nat | k < |ex| && k != i ensures RecordOnDisk(disk', ex, k, lprm) {
      assert RecordOnDisk(disk, ex, k, lprm);
      RecordKept(disk, ex, i, ws, k, lprm, start, end);
    }
    RecordWritten(disk, ex, i, e, lprm);
    OnDiskUpdate(disk, disk', pages, page, ex, p, i, e, lprm, end, modified);
  }

  lemma StartOf(ex: seq<Extent>, lprm: nat, start: nat, end: nat)
    requires Tiled(ex, lprm, start, end)
    ensures 9 <= start && 2 <= lprm <= 16
  {
  }

  lemma PageAddress(pages: seq<Page>, p: nat, ex: seq<Extent>, lprm: nat)
    requires p < |pages| && STRIDE * (|pages| - 1) < |ex| && PageMatches(pages, p, ex, lprm)
    ensures pages[p].addr == ex[STRIDE * p].addr && PageFits(pages[p], lprm)
  {
  }

  lemma RecordWritten(disk: seq<word>, ex: seq<Extent>, i: nat, e: Extent, lprm: nat)
    requires i < |ex| && IsRecord(e, lprm) && 1 <= e.addr < WORD_BASE && 2 * (e.addr - 1) <= |disk|
    ensures RecordOnDisk(Wawrit(disk, 2 * (e.addr - 1), RecordWords(e, lprm)), ex[i := e], i, lprm)
  {
    hide Segment, RecordWords, Wawrit;
    Written(disk, 2 * (e.addr - 1), RecordWords(e, lprm));
  }

  // ----- Growing the disk -----

  /** Appending an extent: the last page changes, and there may be a new one. */
  lemma OnDiskGrows(disk: seq<word>, ws: seq<word>, pages: seq<Page>, pages': seq<Page>, ex: seq<Extent>, e: Extent,
                    lprm: nat, end: nat, modified: bool)
    requires 2 <= lprm <= 16 && 1 <= end && OnDisk(disk, pages, ex, lprm, end, modified)
    requires 1 <= |pages| <= |pages'| <= |pages| + 1 && STRIDE * (|pages| - 1) < |ex| && |ws| == 2 * Units(e, lprm)
    requires forall q: nat | q < |pages| - 1 :: pages'[q] == pages[q]
    requires pages'[|pages| - 1].modified && pages'[|pages| - 1].addr == pages[|pages| - 1].addr
    requires |pages'| > |pages| ==> PageOnDisk(Wawrit(disk, |disk|, ws), pages', |pages|, ex + [e], lprm, true)
    requires RecordOnDisk(Wawrit(disk, |disk|, ws), ex + [e], |ex|, lprm)
    ensures OnDisk(Wawrit(disk, |disk|, ws), pages', ex + [e], lprm, end + Units(e, lprm), true)
  {
    hide RecordWords, IsRecord, PageWords, PageFits, PageSum, Units;
    var disk', ex' := Wawrit(disk, |disk|, ws), ex + [e];
    assert disk' == disk + ws;
    forall q: nat | q < |pages'| ensures PageOnDisk(disk', pages', q, ex', lprm, true) {
      if q < |pages| { assert PageOnDisk(disk, pages, q, ex, lprm, modified); }
    }
    forall k: nat | k < |ex'| ensures RecordOnDisk(disk', ex', k, lprm) {
      if k < |ex| { assert RecordOnDisk(disk, ex, k, lprm); }
    }
  }

  /** Appending a record. */
  lemma OnDiskAppend(disk: seq<word>, pages: seq<Page>, page: Page, ex: seq<Extent>, e: Extent, lprm: nat, end: nat,
                     modified: bool)
    requires 2 <= lprm <= 16 && 1 <= end && OnDisk(disk, pages, ex, lprm, end, modified)
    requires 1 <= |pages| && STRIDE * (|pages| - 1) < |ex| < STRIDE * |pages| && IsRecord(e, lprm)
    requires e.addr == end < WORD_BASE
    requires page.modified && page.addr == pages[|pages| - 1].addr
    ensures OnDisk(Wawrit(disk, |disk|, RecordWords(e, lprm)), pages[|pages| - 1 := page], ex + [e], lprm, end +
      Units(e, lprm), true)
  {
    hide RecordWords, IsRecord, Units, PageOnDisk, Wawrit, Segment;
    var ws := RecordWords(e, lprm);
    Written(disk, |disk|, ws);
    OnDiskGrows(disk, ws, pages, pages[|pages| - 1 := page], ex, e, lprm, end, modified);
  }

  /** Appending a page. */
  lemma OnDiskNewPage(disk: seq<word>, pages: seq<Page>, page: Page, ex: seq<Extent>, lprm: nat, end: nat,
                      modified: bool)
    requires 2 <= lprm <= 16 && 1 <= end && OnDisk(disk, pages, ex, lprm, end, modified)
    requires 1 <= |pages| && |ex| == STRIDE * |pages| && IsNewPage(page, end, lprm)
    ensures OnDisk(Wawrit(disk, |disk|, PageWords(page, lprm)), Linked(pages, page), ex + [DirPage(end)], lprm, end +
      PageUnits(lprm), true)
  {
    hide IsRecord, PageOnDisk, Wawrit, Segment, PageWords, Unused;
    var ws, pages' := PageWords(page, lprm), Linked(pages, page);
    PageWordsLength(page, lprm);
    NewPageOnDisk(disk, pages', |pages|, ex + [DirPage(end)], lprm);
    OnDiskGrows(disk, ws, pages, pages', ex, DirPage(end), lprm, end, modified);
  }

  lemma NewPageOnDisk(disk: seq<word>, pages: seq<Page>, p: nat, ex: seq<Extent>, lprm: nat)
    requires p < |pages| && PageFits(pages[p], lprm) && pages[p].modified && 1 <= pages[p].addr
    requires 2 * (pages[p].addr - 1) == |disk|
    ensures PageOnDisk(Wawrit(disk, |disk|, PageWords(pages[p], lprm)), pages, p, ex, lprm, true)
  {
    hide Flatten, Wawrit, Segment;
    var ws := PageWords(pages[p], lprm);
    Written(disk, |disk|, ws);
    var first := [FirstWord(0, PageUnits(lprm)), pages[p].addr];
    assert ws == first + ws[2..];
    Prefix(Wawrit(disk, |disk|, ws), |disk|, first, ws[2..]);
  }

  /** The first page of a new file. */
  lemma OnDiskFirst(disk: seq<word>, page: Page, lprm: nat, end: nat)
    requires 2 <= lprm <= 16 && 1 <= end && |disk| == 2 * (end - 1) && IsNewPage(page, end, lprm)
    ensures OnDisk(Wawrit(disk, |disk|, PageWords(page, lprm)), [page], [DirPage(end)], lprm, end + PageUnits(lprm),
      true)
  {
    hide IsRecord, PageOnDisk, Segment, PageWords, Unused;
    PageWordsLength(page, lprm);
    NewPageOnDisk(disk, [page], 0, [DirPage(end)], lprm);
  }
}
