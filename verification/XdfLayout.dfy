/** What an XDF random file is made of: after the file header come extents in file order,
    one directory page before every 256 records.  The directory in memory, the header
    counters and the words on disk are all tied to that one sequence of extents. */
module XdfLayout {
  import opened Words
  import opened WordDisk
  import opened XdfFormat

  /** A record keeps its place for ever.  It is `deleted` by an explicit request or by a
      rewrite, and `erased` once closing the file has marked it on disk. */
  datatype Extent =
    | DirPage(addr: nat)
    | Record(addr: nat, idtyp: nat, body: seq<word>, deleted: bool, erased: bool)

  /** Number of extents from one directory page to the next. */
  const STRIDE: nat := ENTRIES_PER_PAGE + 1

  function Units(e: Extent, lprm: nat): nat
  {
    match e
    case DirPage(_) => PageUnits(lprm)
    case Record(_, _, body, _, _) => (|body| + 2) / 2
  }

  ghost predicate IsRecord(e: Extent, lprm: nat)
  {
    e.Record? && 1 <= e.idtyp <= 126 && |e.body| % 2 == 0 && |e.body| >= 2 * lprm - 2 && Units(e, lprm) < 0x100_0000 &&
    (e.erased ==> Gone(e))
  }

  /** Whether a record counts as deleted once the file is closed: type 126 cannot be told
      from a deletion mark. */
  predicate Gone(e: Extent)
    requires e.Record?
  {
    e.deleted || e.idtyp == 126
  }

  /** The type that the directory in memory gives to a record, and the type on disk. */
  function EntryIdtyp(e: Extent): nat
    requires e.Record?
  {
    if e.erased then 255 else if e.deleted then 254 else e.idtyp
  }

  function DiskIdtyp(e: Extent): nat
    requires e.Record?
  {
    if e.erased then 255 else e.idtyp
  }

  /** The directory entry of a record: its header, then its primary keys. */
  ghost function EntryOf(e: Extent, lprm: nat): seq<word>
    requires IsRecord(e, lprm) && lprm >= 1 && e.addr < WORD_BASE
  {
    [FirstWord(EntryIdtyp(e), Units(e, lprm)), e.addr] + e.body[..2 * lprm - 2]
  }

  /** The record on disk. */
  ghost function RecordWords(e: Extent, lprm: nat): (ws: seq<word>)
    requires IsRecord(e, lprm) && e.addr < WORD_BASE
    ensures |ws| == 2 * Units(e, lprm)
  {
    [FirstWord(DiskIdtyp(e), Units(e, lprm)), e.addr] + e.body
  }

  // ----- Tiling -----

  /** Where extent i starts when the extents follow each other without a gap. */
  ghost function StartAt(ex: seq<Extent>, i: nat, lprm: nat, start: nat): nat
    requires i <= |ex|
  {
    if i == 0 then start else StartAt(ex, i - 1, lprm, start) + Units(ex[i - 1], lprm)
  }

  /** The extents tile the units from `start` up to `end`: addresses count from 1. */
  ghost predicate Tiled(ex: seq<Extent>, lprm: nat, start: nat, end: nat)
  {
    |ex| >= 1 && 2 <= lprm <= 16 && 9 <= start && end == StartAt(ex, |ex|, lprm, start) < 0x4000_0000 &&
    forall i: nat | i < |ex| :: InPlace(ex, i, lprm, start)
  }

  ghost predicate InPlace(ex: seq<Extent>, i: nat, lprm: nat, start: nat)
    requires i < |ex|
  {
    ex[i].addr == StartAt(ex, i, lprm, start) && if i % STRIDE == 0 then ex[i].DirPage? else IsRecord(ex[i], lprm)
  }

  lemma {:induction false} StartsInOrder(ex: seq<Extent>, i: nat, j: nat, lprm: nat, start: nat)
    requires i <= j <= |ex|
    ensures StartAt(ex, i, lprm, start) <= StartAt(ex, j, lprm, start)
  {
    if i < j { StartsInOrder(ex, i, j - 1, lprm, start); }
  }

  /** Only the lengths of the extents before it decide where an extent starts. */
  lemma {:induction false} SameStart(ex: seq<Extent>, ex': seq<Extent>, i: nat, lprm: nat, start: nat)
    requires i <= |ex| && i <= |ex'| && forall k | 0 <= k < i :: Units(ex[k], lprm) == Units(ex'[k], lprm)
    ensures StartAt(ex, i, lprm, start) == StartAt(ex', i, lprm, start)
  {
    if i > 0 { SameStart(ex, ex', i - 1, lprm, start); }
  }

  /** Extents are pairwise disjoint, in the order of the file. */
  lemma Disjoint(ex: seq<Extent>, i: nat, j: nat, lprm: nat, start: nat, end: nat)
    requires Tiled(ex, lprm, start, end) && i < j < |ex|
    ensures start <= ex[i].addr && ex[i].addr + Units(ex[i], lprm) <= ex[j].addr
    ensures ex[j].addr + Units(ex[j], lprm) <= end
  {
    StartsInOrder(ex, 0, i, lprm, start);
    StartsInOrder(ex, i + 1, j, lprm, start);
    StartsInOrder(ex, j + 1, |ex|, lprm, start);
    assert InPlace(ex, i, lprm, start) && InPlace(ex, j, lprm, start);
  }

  /** Every extent lies within the file. */
  lemma Inside(ex: seq<Extent>, i: nat, lprm: nat, start: nat, end: nat)
    requires Tiled(ex, lprm, start, end) && i < |ex|
    ensures start <= ex[i].addr && ex[i].addr + Units(ex[i], lprm) <= end < 0x4000_0000
    ensures ex[i].addr < 0x4000_0000
  {
    StartsInOrder(ex, 0, i, lprm, start);
    StartsInOrder(ex, i + 1, |ex|, lprm, start);
    assert InPlace(ex, i, lprm, start);
  }

  /** No gap: every unit of the file after its header belongs to an extent. */
  lemma {:induction false} Covered(ex: seq<Extent>, n: nat, lprm: nat, start: nat, unit: nat) returns (i: nat)
    requires n <= |ex| && start <= unit < StartAt(ex, n, lprm, start)
    ensures i < n && StartAt(ex, i, lprm, start) <= unit < StartAt(ex, i, lprm, start) + Units(ex[i], lprm)
  {
    if n > 0 && unit < StartAt(ex, n - 1, lprm, start) {
      i := Covered(ex, n - 1, lprm, start, unit);
    } else {
      i := n - 1;
    }
  }

  /** Adding an extent at the end of the file. */
  lemma TiledGrows(ex: seq<Extent>, e: Extent, lprm: nat, start: nat, end: nat)
    requires Tiled(ex, lprm, start, end) && e.addr == end && end + Units(e, lprm) < 0x4000_0000
    requires if |ex| % STRIDE == 0 then e.DirPage? else IsRecord(e, lprm)
    ensures Tiled(ex + [e], lprm, start, end + Units(e, lprm))
  {
    forall i: nat | i < |ex + [e]| ensures InPlace(ex + [e], i, lprm, start) {
      SameStart(ex, ex + [e], i, lprm, start);
      if i < |ex| { assert InPlace(ex, i, lprm, start); }
    }
    SameStart(ex, ex + [e], |ex|, lprm, start);
  }

  /** Replacing a record by another one of the same length. */
  lemma TiledUpdate(ex: seq<Extent>, i: nat, e: Extent, lprm: nat, start: nat, end: nat)
    requires Tiled(ex, lprm, start, end) && i < |ex| && ex[i].Record? && IsRecord(e, lprm)
    requires e.addr == ex[i].addr && Units(e, lprm) == Units(ex[i], lprm)
    ensures Tiled(ex[i := e], lprm, start, end)
  {
    SameStart(ex, ex[i := e], |ex|, lprm, start);
    var ex' := ex[i := e];
    forall k: nat | k < |ex'| ensures InPlace(ex', k, lprm, start) {
      SameStart(ex, ex', k, lprm, start);
      assert InPlace(ex, k, lprm, start);
      assert InPlace(ex, i, lprm, start);
    }
  }

  // ----- Counts -----

  datatype Counts = Counts(pages: nat, records: nat, deleted: nat, gone: nat, biggest: nat)

  /** What a list of extents counts, with deletions as requested and as they show. */
  ghost function CountsOf(ex: seq<Extent>, lprm: nat): Counts
  {
    if ex == [] then Counts(0, 0, 0, 0, 0)
    else AddCount(CountsOf(ex[..|ex| - 1], lprm), ex[|ex| - 1], lprm)
  }

  ghost function AddCount(c: Counts, e: Extent, lprm: nat): Counts
  {
    match e
    case DirPage(_) => c.(pages := c.pages + 1)
    case Record(_, _, _, deleted, _) =>
      Counts(c.pages, c.records + 1, c.deleted + (if deleted then 1 else 0), c.gone + (if Gone(e) then 1 else 0),
        if c.biggest < Units(e, lprm) then Units(e, lprm) else c.biggest)
  }

  lemma CountsGrow(ex: seq<Extent>, e: Extent, lprm: nat)
    ensures CountsOf(ex + [e], lprm) == AddCount(CountsOf(ex, lprm), e, lprm)
  {
    assert (ex + [e])[..|ex|] == ex;
  }

  /** Replacing a record of the same length changes nothing but the deletions. */
  lemma {:induction false} CountsUpdate(ex: seq<Extent>, i: nat, e: Extent, lprm: nat)
    requires i < |ex| && ex[i].Record? && e.Record? && Units(e, lprm) == Units(ex[i], lprm)
    ensures var c, c' := CountsOf(ex, lprm), CountsOf(ex[i := e], lprm);
      c'.pages == c.pages && c'.records == c.records && c'.biggest == c.biggest &&
      c'.deleted + (if ex[i].deleted then 1 else 0) == c.deleted + (if e.deleted then 1 else 0) &&
      c'.gone + (if Gone(ex[i]) then 1 else 0) == c.gone + (if Gone(e) then 1 else 0)
  {
    var n := |ex| - 1;
    if i < n {
      CountsUpdate(ex[..n], i, e, lprm);
      assert ex[i := e][..n] == ex[..n][i := e];
    } else {
      assert ex[i := e][..n] == ex[..n];
    }
  }

  lemma {:induction false} CountsBounds(ex: seq<Extent>, lprm: nat)
    ensures var c := CountsOf(ex, lprm);
      c.pages + c.records == |ex| && c.deleted <= c.gone <= c.records && (c.gone == c.deleted <==> Plain(ex))
  {
    if ex != [] {
      CountsBounds(ex[..|ex| - 1], lprm);
      assert ex == ex[..|ex| - 1] + [ex[|ex| - 1]];
    }
  }

  /** No record of type 126 is left undeleted. */
  ghost predicate Plain(ex: seq<Extent>)
  {
    forall e | e in ex && e.Record? :: e.idtyp == 126 ==> e.deleted
  }

  /** The counters of the header. */
  ghost predicate Counted(h: FileHeader, ex: seq<Extent>)
  {
    var c := CountsOf(ex, h.lprm);
    h.nxtn == c.records && h.nbd == c.pages && h.nbig == c.biggest && h.nrec + c.deleted == c.records
  }

  // ----- The directory in memory -----

  /** Number of entries of page p. */
  function EntryCount(extents: nat, p: nat): nat
  {
    var n := extents - STRIDE * p - 1;
    if n < 0 then 0 else if n > ENTRIES_PER_PAGE then ENTRIES_PER_PAGE else n
  }

  ghost predicate Directory(pages: seq<Page>, ex: seq<Extent>, lprm: nat)
  {
    1 <= |pages| <= MAX_DIR_PAGES && STRIDE * (|pages| - 1) < |ex| <= STRIDE * |pages| &&
    forall p: nat | p < |pages| :: PageMatches(pages, p, ex, lprm)
  }

  ghost predicate PageMatches(pages: seq<Page>, p: nat, ex: seq<Extent>, lprm: nat)
    requires p < |pages| && STRIDE * (|pages| - 1) < |ex|
  {
    var page := pages[p];
    PageFits(page, lprm) && page.addr == ex[STRIDE * p].addr && page.nent == EntryCount(|ex|, p) &&
    page.nxtAddr == (if p + 1 < |pages| then ex[STRIDE * (p + 1)].addr else 0) &&
    (forall j: nat | j < page.nent :: EntryMatches(page.entries, p, j, ex, lprm)) &&
    (forall j: nat | page.nent <= j <= 128 :: Unused(page.entries, j))
  }

  /** Entry j of page p is that of its record. */
  ghost predicate EntryMatches(entries: seq<seq<word>>, p: nat, j: nat, ex: seq<Extent>, lprm: nat)
    requires j < |entries| && lprm >= 1
  {
    var i := STRIDE * p + 1 + j;
    i < |ex| && IsRecord(ex[i], lprm) && ex[i].addr < WORD_BASE && entries[j] == EntryOf(ex[i], lprm)
  }

  /** The first half of a new page is cleared, and the first word after it. */
  ghost predicate Unused(entries: seq<seq<word>>, j: nat)
    requires j < |entries|
  {
    |entries[j]| >= 2 && entries[j][0] == 0
  }

  // ----- The disk -----

  /** A page that was not changed since the file was last opened or closed is on disk as it
      is, its checksum is right, and the deletion marks of its records are on disk. */
  ghost predicate PageOnDisk(disk: seq<word>, pages: seq<Page>, p: nat, ex: seq<Extent>, lprm: nat, modified: bool)
    requires p < |pages| && 2 <= lprm <= 16
  {
    Segment(disk, 2 * (Max1(pages[p].addr) - 1), [FirstWord(0, PageUnits(lprm)), pages[p].addr]) &&
    ((modified && pages[p].modified) || (CleanPage(disk, pages[p], lprm) && AllErased(ex, p)))
  }

  function Max1(a: word): word
  {
    if a == 0 then 1 else a
  }

  ghost predicate CleanPage(disk: seq<word>, page: Page, lprm: nat)
    requires 2 <= lprm <= 16
  {
    PageFits(page, lprm) && Segment(disk, 2 * (Max1(page.addr) - 1), PageWords(page, lprm)) &&
      PageSum(page, 0, lprm) == 0
  }

  ghost predicate AllErased(ex: seq<Extent>, p: nat)
  {
    forall i | STRIDE * p <= i < STRIDE * (p + 1) && i < |ex| && ex[i].Record? :: Gone(ex[i]) ==> ex[i].erased
  }

  ghost predicate OnDisk(disk: seq<word>, pages: seq<Page>, ex: seq<Extent>, lprm: nat, end: nat, modified: bool)
    requires 2 <= lprm <= 16 && 1 <= end
  {
    |disk| == 2 * (end - 1) &&
    (forall p: nat | p < |pages| :: PageOnDisk(disk, pages, p, ex, lprm, modified)) &&
    (forall i: nat | i < |ex| :: RecordOnDisk(disk, ex, i, lprm))
  }

  ghost predicate RecordOnDisk(disk: seq<word>, ex: seq<Extent>, i: nat, lprm: nat)
    requires i < |ex|
  {
    i % STRIDE != 0 ==>
      IsRecord(ex[i], lprm) && 1 <= ex[i].addr < WORD_BASE &&
        Segment(disk, 2 * (ex[i].addr - 1), RecordWords(ex[i], lprm))
  }
}
