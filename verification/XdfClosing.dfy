/** How each step of closing an XDF file keeps it sound, and what a closed file is. */
module XdfClosing {
  import opened Words
  import opened WordDisk
  import opened XdfFormat
  import opened XdfLayout
  import opened XdfSteps
  import opened XdfSound

  // ----- Marking a record on disk -----

  lemma HeaderRewritten(disk: seq<word>, at: nat, first: seq<word>, first': seq<word>, body: seq<word>)
    requires |first| == |first'| && Segment(disk, at, first + body)
    ensures at <= |disk| && Segment(Wawrit(disk, at, first'), at, first' + body)
  {
    var disk', n := Wawrit(disk, at, first'), |first|;
    assert disk'[at..at + n] == first';
    assert disk'[at + n..at + n + |body|] == disk[at + n..at + n + |body|];
    assert disk[at + n..at + n + |body|] == disk[at..at + n + |body|][n..];
    assert disk'[at..at + n + |body|] == disk'[at..at + n] + disk'[at + n..at + n + |body|];
  }

  /** The header of a record marked as deleted. */
  ghost function Mark(e: Extent, lprm: nat): seq<word>
    requires IsRecord(e, lprm) && e.addr < WORD_BASE
  {
    [FirstWord(255, Units(e, lprm)), e.addr]
  }

  lemma RecordErased(disk: seq<word>, ex: seq<Extent>, i: nat, lprm: nat)
    requires i < |ex| && i % STRIDE != 0 && RecordOnDisk(disk, ex, i, lprm) && Gone(ex[i])
    ensures 2 * (ex[i].addr - 1) <= |disk|
    ensures RecordOnDisk(Wawrit(disk, 2 * (ex[i].addr - 1), Mark(ex[i], lprm)), ex[i := ex[i].(erased := true)], i,
      lprm)
  {
    var e := ex[i];
    var e' := e.(erased := true);
    hide Wawrit, Segment;
    SegmentLength(disk, 2 * (e.addr - 1), RecordWords(e, lprm));
    HeaderRewritten(disk, 2 * (e.addr - 1), [FirstWord(DiskIdtyp(e), Units(e, lprm)), e.addr], Mark(e, lprm), e.body);
    assert RecordWords(e', lprm) == Mark(e, lprm) + e'.body;
  }

  lemma OnDiskErase(disk: seq<word>, pages: seq<Page>, page: Page, ex: seq<Extent>, p: nat, i: nat, lprm: nat,
                    start: nat, end: nat, modified: bool)
    requires Tiled(ex, lprm, start, end) && Directory(pages, ex, lprm) && OnDisk(disk, pages, ex, lprm, end, modified)
    requires p < |pages| && STRIDE * p < i < STRIDE * (p + 1) && i < |ex| && IsRecord(ex[i], lprm) && Gone(ex[i])
    requires page.modified && page.addr == pages[p].addr
    ensures 1 <= ex[i].addr < WORD_BASE && 2 * (ex[i].addr - 1) <= |disk|
    ensures OnDisk(Wawrit(disk, 2 * (ex[i].addr - 1), Mark(ex[i], lprm)), pages[p := page],
      ex[i := ex[i].(erased := true)], lprm, end, true)
  {
    hide Segment, CleanPage, PageOnDisk, Tiled, PageMatches, RecordOnDisk;
    StartOf(ex, lprm, start, end);
    Inside(ex, i, lprm, start, end);
    var ws := Mark(ex[i], lprm);
    var disk' := Wawrit(disk, 2 * (ex[i].addr - 1), ws);
    forall q: nat | q < |pages| ensures PageOnDisk(disk', pages, q, ex, lprm, modified) {
      assert PageMatches(pages, q, ex, lprm) && PageOnDisk(disk, pages, q, ex, lprm, modified);
      PageAddress(pages, q, ex, lprm);
      PageKept(disk, pages, ex, i, ws, q, lprm, start, end, modified);
    }
    forall k: nat | k < |ex| && k != i ensures RecordOnDisk(disk', ex, k, lprm) {
      assert RecordOnDisk(disk, ex, k, lprm);
      RecordKept(disk, ex, i, ws, k, lprm, start, end);
    }
    assert RecordOnDisk(disk, ex, i, lprm);
    RecordErased(disk, ex, i, lprm);
    OnDiskUpdate(disk, disk', pages, page, ex, p, i, ex[i].(erased := true), lprm, end, modified);
  }

  /** Marking record j of page p, in the directory and on disk. */
  lemma EraseKeeps(h: FileHeader, disk: seq<word>, nxtadr: nat, modified: bool, pages: seq<Page>, ex: seq<Extent>,
                   p: nat, j: nat)
    requires FileSound(h, disk, nxtadr, modified, pages, ex)
    requires p < |pages| && j < pages[p].nent && IndexOf(p, j) < |ex| && j < |pages[p].entries|
    requires Gone(RecordAt(ex, p, j))
    ensures var e := RecordAt(ex, p, j);
      IsRecord(e, h.lprm) && IsRecord(e.(erased := true), h.lprm) && 1 <= e.addr < WORD_BASE &&
        2 * (e.addr - 1) <= |disk| &&
      FileSound(h, Wawrit(disk, 2 * (e.addr - 1), Mark(e, h.lprm)), nxtadr, true,
        pages[p := WithEntry(pages[p], j, EntryOf(e.(erased := true), h.lprm))],
          ex[IndexOf(p, j) := e.(erased := true)])
  {
    hide StartAt, Segment, EntryOf, PageOnDisk, RecordOnDisk, PageMatches, Wawrit, Mark;
    var i := IndexOf(p, j);
    RecordInPage(h, pages, ex, p, j);
    var e := ex[i].(erased := true);
    TiledUpdate(ex, i, e, h.lprm, h.lng + 1, h.fsiz + 1);
    DirectoryUpdate(pages, ex, p, j, e, h.lprm);
    OnDiskErase(disk, pages, WithEntry(pages[p], j, EntryOf(e, h.lprm)), ex, p, i, h.lprm, h.lng + 1, h.fsiz + 1,
      modified);
    Inside(ex, i, h.lprm, h.lng + 1, h.fsiz + 1);
    MarkLength(ex[i], h.lprm);
    Kept(disk, 2 * (e.addr - 1), Mark(ex[i], h.lprm), 0, [FirstWord(0, h.lng), 0]);
    CountsUpdate(ex, i, e, h.lprm);
  }

  lemma MarkLength(e: Extent, lprm: nat)
    requires IsRecord(e, lprm) && e.addr < WORD_BASE
    ensures |Mark(e, lprm)| == 2
  {
  }

  // ----- Rewriting a page -----

  /** The page as it is rewritten: its checksum is set, and it has nothing more to write. */
  ghost function Rewritten(page: Page, lprm: nat): Page
    requires PageFits(page, lprm)
  {
    page.(chksum := PageSum(page, page.chksum, lprm), modified := false)
  }

  lemma PageKeeps(h: FileHeader, disk: seq<word>, nxtadr: nat, pages: seq<Page>, ex: seq<Extent>, p: nat)
    requires FileSound(h, disk, nxtadr, true, pages, ex) && p < |pages| && AllErased(ex, p)
    requires PageFits(pages[p], h.lprm)
    ensures 1 <= pages[p].addr && 2 * (pages[p].addr - 1) <= |disk| && PageFits(Rewritten(pages[p], h.lprm), h.lprm)
    ensures var page := Rewritten(pages[p], h.lprm);
      FileSound(h, Wawrit(disk, 2 * (page.addr - 1), PageWords(page, h.lprm)), nxtadr, true, pages[p := page], ex)
  {
    hide Segment, OnDisk, AllErased, EntryMatches, Unused, StartAt, PageWords, Wawrit, PageSum;
    var page := Rewritten(pages[p], h.lprm);
    var pages' := pages[p := page];
    assert PageMatches(pages, p, ex, h.lprm);
    Inside(ex, STRIDE * p, h.lprm, h.lng + 1, h.fsiz + 1);
    Room(h, disk, nxtadr, true, pages, ex);
    Kept(disk, 2 * (page.addr - 1), PageWords(page, h.lprm), 0, [FirstWord(0, h.lng), 0]);
    forall q: nat | q < |pages'| ensures PageMatches(pages', q, ex, h.lprm) {
      assert PageMatches(pages, q, ex, h.lprm);
    }
    PageOnDiskKeeps(disk, pages, ex, p, h.lprm, h.lng + 1, h.fsiz + 1);
  }

  lemma PageOnDiskKeeps(disk: seq<word>, pages: seq<Page>, ex: seq<Extent>, p: nat, lprm: nat, start: nat, end: nat)
    requires Tiled(ex, lprm, start, end) && Directory(pages, ex, lprm) && OnDisk(disk, pages, ex, lprm, end, true)
    requires p < |pages| && AllErased(ex, p) && PageFits(pages[p], lprm)
    requires 1 <= pages[p].addr && 2 * (pages[p].addr - 1) <= |disk|
    ensures var page := Rewritten(pages[p], lprm);
      OnDisk(Wawrit(disk, 2 * (page.addr - 1), PageWords(page, lprm)), pages[p := page], ex, lprm, end, true)
  {
    hide Segment, RecordOnDisk, AllErased, PageMatches, Tiled, PageWords, Wawrit, PageSum, PageOnDisk;
    StartOf(ex, lprm, start, end);
    var page, i := Rewritten(pages[p], lprm), STRIDE * p;
    assert PageMatches(pages, p, ex, lprm);
    PageAddress(pages, p, ex, lprm);
    Inside(ex, i, lprm, start, end);
    PagePlace(ex, i, lprm, start, end);
    var ws, pages' := PageWords(page, lprm), pages[p := page];
    PageWordsLength(page, lprm);
    var disk' := Wawrit(disk, 2 * (page.addr - 1), ws);
    forall q: nat | q < |pages'| ensures PageOnDisk(disk', pages', q, ex, lprm, true) {
      assert PageMatches(pages, q, ex, lprm) && PageOnDisk(disk, pages, q, ex, lprm, true);
      if q == p {
        PageNowClean(disk, pages, p, ex, lprm);
      } else {
        PageAddress(pages, q, ex, lprm);
        PageKept(disk, pages, ex, i, ws, q, lprm, start, end, true);
        SamePage(disk', pages, pages', q, ex, lprm);
      }
    }
    forall k: nat | k < |ex| ensures RecordOnDisk(disk', ex, k, lprm) {
      assert RecordOnDisk(disk, ex, k, lprm);
      if k == i { NotRecord(disk', ex, k, lprm); } else { RecordKept(disk, ex, i, ws, k, lprm, start, end); }
    }
  }

  lemma PagePlace(ex: seq<Extent>, i: nat, lprm: nat, start: nat, end: nat)
    requires Tiled(ex, lprm, start, end) && i < |ex| && i % STRIDE == 0
    ensures Units(ex[i], lprm) == PageUnits(lprm)
  {
    assert InPlace(ex, i, lprm, start);
  }

  lemma NotRecord(disk: seq<word>, ex: seq<Extent>, k: nat, lprm: nat)
    requires k < |ex| && k % STRIDE == 0
    ensures RecordOnDisk(disk, ex, k, lprm)
  {
  }

  lemma SamePage(disk: seq<word>, pages: seq<Page>, pages': seq<Page>, q: nat, ex: seq<Extent>, lprm: nat)
    requires q < |pages| == |pages'| && pages[q] == pages'[q] && 2 <= lprm <= 16
    requires PageOnDisk(disk, pages, q, ex, lprm, true)
    ensures PageOnDisk(disk, pages', q, ex, lprm, true)
  {
  }

  lemma PageNowClean(disk: seq<word>, pages: seq<Page>, p: nat, ex: seq<Extent>, lprm: nat)
    requires p < |pages| && PageFits(pages[p], lprm) && AllErased(ex, p) && 1 <= pages[p].addr
    requires 2 * (pages[p].addr - 1) <= |disk|
    ensures var page := Rewritten(pages[p], lprm);
      PageOnDisk(Wawrit(disk, 2 * (page.addr - 1), PageWords(page, lprm)), pages[p := page], p, ex, lprm, true)
  {
    hide Flatten, Wawrit, Segment, AllErased, XorFrom;
    var page := Rewritten(pages[p], lprm);
    PageSumCancels(pages[p], lprm);
    SumIgnoresFlag(pages[p].(chksum := page.chksum), lprm);
    var ws, at := PageWords(page, lprm), 2 * (page.addr - 1);
    Written(disk, at, ws);
    var first := [FirstWord(0, PageUnits(lprm)), page.addr];
    assert ws == first + ws[2..];
    Prefix(Wawrit(disk, at, ws), at, first, ws[2..]);
  }

  lemma SumIgnoresFlag(page: Page, lprm: nat)
    requires PageFits(page, lprm)
    ensures PageSum(page.(modified := false), 0, lprm) == PageSum(page, 0, lprm)
  {
  }

  /** When no page has anything to write, neither has the file. */
  lemma NothingLeft(h: FileHeader, disk: seq<word>, nxtadr: nat, pages: seq<Page>, ex: seq<Extent>)
    requires FileSound(h, disk, nxtadr, true, pages, ex) && forall p | 0 <= p < |pages| :: !pages[p].modified
    ensures FileSound(h, disk, nxtadr, false, pages, ex)
  {
    hide Segment, RecordOnDisk, AllErased, CleanPage, PageMatches, StartAt;
    forall p: nat | p < |pages| ensures PageOnDisk(disk, pages, p, ex, h.lprm, false) {
      assert PageOnDisk(disk, pages, p, ex, h.lprm, true);
    }
  }

  // ----- Rewriting the header -----

  lemma HeaderKeeps(h: FileHeader, disk: seq<word>, nxtadr: nat, modified: bool, pages: seq<Page>, ex: seq<Extent>)
    requires FileSound(h, disk, nxtadr, modified, pages, ex)
    ensures FileSound(h, Wawrit(disk, 0, HeaderWords(h)), nxtadr, modified, pages, ex)
    ensures Segment(Wawrit(disk, 0, HeaderWords(h)), 0, HeaderWords(h))
  {
    hide Segment, StartAt, PageWords, Wawrit, HeaderWords, RecordWords, PageSum, AllErased, PageMatches;
    var ws := HeaderWords(h);
    var disk' := Wawrit(disk, 0, ws);
    Written(disk, 0, ws);
    HeaderFirst(h, disk');
    DiskLongEnough(h, disk, nxtadr, modified, pages, ex);
    forall p: nat | p < |pages| ensures PageOnDisk(disk', pages, p, ex, h.lprm, modified) {
      assert PageMatches(pages, p, ex, h.lprm) && PageOnDisk(disk, pages, p, ex, h.lprm, modified);
      PageAddress(pages, p, ex, h.lprm);
      Inside(ex, STRIDE * p, h.lprm, h.lng + 1, h.fsiz + 1);
      Kept(disk, 0, ws, 2 * (pages[p].addr - 1), [FirstWord(0, PageUnits(h.lprm)), pages[p].addr]);
      if CleanPage(disk, pages[p], h.lprm) { Kept(disk, 0, ws, 2 * (pages[p].addr - 1), PageWords(pages[p], h.lprm)); }
    }
    forall k: nat | k < |ex| ensures RecordOnDisk(disk', ex, k, h.lprm) {
      assert RecordOnDisk(disk, ex, k, h.lprm);
      Inside(ex, k, h.lprm, h.lng + 1, h.fsiz + 1);
      if k % STRIDE != 0 { Kept(disk, 0, ws, 2 * (ex[k].addr - 1), RecordWords(ex[k], h.lprm)); }
    }
  }

  lemma HeaderFirst(h: FileHeader, disk: seq<word>)
    requires HeaderFits(h) && Segment(disk, 0, HeaderWords(h))
    ensures Segment(disk, 0, [FirstWord(0, h.lng), 0])
  {
    var ws := HeaderWords(h);
    assert ws == [FirstWord(0, h.lng), 0] + ws[2..];
    Prefix(disk, 0, [FirstWord(0, h.lng), 0], ws[2..]);
  }

  lemma DiskLongEnough(h: FileHeader, disk: seq<word>, nxtadr: nat, modified: bool, pages: seq<Page>, ex: seq<Extent>)
    requires FileSound(h, disk, nxtadr, modified, pages, ex)
    ensures |HeaderWords(h)| <= |disk| && forall k: nat {:trigger ex[k]} | k < |ex| :: ex[k].addr >= h.lng + 1
  {
    hide StartAt, PageOnDisk, RecordOnDisk, PageMatches;
    Inside(ex, 0, h.lprm, h.lng + 1, h.fsiz + 1);
    forall k: nat | k < |ex| ensures ex[k].addr >= h.lng + 1 {
      Inside(ex, k, h.lprm, h.lng + 1, h.fsiz + 1);
    }
  }

  // ----- Closed files -----

  /** A closed file: its header is on disk and says that nobody writes, and nothing is left to
      be written. */
  ghost predicate ClosedFile(h: FileHeader, disk: seq<word>, pages: seq<Page>, ex: seq<Extent>)
  {
    FileSound(h, disk, 2 * h.fsiz + 1, false, pages, ex) && Segment(disk, 0, HeaderWords(h)) && h.rwflg == RDMODE
  }

  /** On the disk of a closed file every deletion shows. */
  lemma MarksOnDisk(h: FileHeader, disk: seq<word>, pages: seq<Page>, ex: seq<Extent>, i: nat)
    requires ClosedFile(h, disk, pages, ex) && i < |ex| && ex[i].Record?
    ensures Gone(ex[i]) <==> ex[i].erased
    ensures IsRecord(ex[i], h.lprm) && i % STRIDE != 0
  {
    hide StartAt, Segment, CleanPage, PageMatches;
    var p := i / STRIDE;
    assert InPlace(ex, i, h.lprm, h.lng + 1);
    assert PageOnDisk(disk, pages, p, ex, h.lprm, false);
  }

  /** What reopening a closed file finds about page p. */
  lemma PageRead(h: FileHeader, disk: seq<word>, pages: seq<Page>, ex: seq<Extent>, p: nat)
    requires ClosedFile(h, disk, pages, ex) && p < |pages|
    ensures 1 <= pages[p].addr && PageFits(pages[p], h.lprm)
    ensures Segment(disk, 2 * (pages[p].addr - 1), PageWords(pages[p], h.lprm))
    ensures PageSum(pages[p], 0, h.lprm) == 0 && 2 * (pages[p].addr - 1) + 1 <= |disk|
    ensures p == 0 ==> pages[p].addr == h.lng + 1
    ensures pages[p].nxtAddr == if p + 1 < |pages| then pages[p + 1].addr else 0
  {
    hide StartAt, Segment, RecordOnDisk, PageWords, PageSum, AllErased, EntryMatches, Unused;
    assert PageMatches(pages, p, ex, h.lprm) && PageOnDisk(disk, pages, p, ex, h.lprm, false);
    if p + 1 < |pages| { assert PageMatches(pages, p + 1, ex, h.lprm); }
    Inside(ex, STRIDE * p, h.lprm, h.lng + 1, h.fsiz + 1);
    if p == 0 { FirstExtent(ex, h.lprm, h.lng + 1, h.fsiz + 1); }
  }

  lemma FirstExtent(ex: seq<Extent>, lprm: nat, start: nat, end: nat)
    requires Tiled(ex, lprm, start, end)
    ensures ex[0].addr == start
  {
    assert InPlace(ex, 0, lprm, start);
  }

  ghost function Unflagged(pages: seq<Page>): (pages': seq<Page>)
    ensures |pages'| == |pages| && forall p | 0 <= p < |pages| :: pages'[p] == pages[p].(modified := false)
  {
    seq(|pages|, p requires 0 <= p < |pages| => pages[p].(modified := false))
  }

  /** Reopening forgets the flags of the pages. */
  lemma ReopenKeeps(h: FileHeader, disk: seq<word>, pages: seq<Page>, ex: seq<Extent>)
    requires ClosedFile(h, disk, pages, ex)
    ensures FileSound(h, disk, 2 * h.fsiz + 1, false, Unflagged(pages), ex) && |pages| == h.nbd
  {
    hide Segment, RecordOnDisk, AllErased, StartAt, EntryMatches, Unused;
    CountersFit(h, disk, 2 * h.fsiz + 1, false, pages, ex);
    var pages' := Unflagged(pages);
    forall q: nat | q < |pages'| ensures PageMatches(pages', q, ex, h.lprm) &&
      PageOnDisk(disk, pages', q, ex, h.lprm, false) {
      assert PageMatches(pages, q, ex, h.lprm) && PageOnDisk(disk, pages, q, ex, h.lprm, false);
      assert PageWords(pages'[q], h.lprm) == PageWords(pages[q], h.lprm);
    }
  }

  /** The words of the header on disk give it back. */
  lemma HeaderRead(h: FileHeader, disk: seq<word>, pages: seq<Page>, ex: seq<Extent>)
    requires ClosedFile(h, disk, pages, ex)
    ensures |disk| >= 2 * h.lng >= 16 && 2 <= h.lprm <= 16 && LngOf(disk[0]) == h.lng && disk[2] == XDF0
    ensures ParseHeader(disk[..2 * h.lng]) == h
  {
    hide StartAt, InPlace, Directory, OnDisk;
    HeaderReadBack(h);
    FirstWordRead(0, h.lng);
    assert disk[..2 * h.lng] == HeaderWords(h);
    assert disk[0] == HeaderWords(h)[0] && disk[2] == HeaderWords(h)[2];
  }
}
