/** The words of an XDF file: its header, its directory pages, and record headers; and the
    handles of its records. */
module XdfFormat {
  import opened Words
  import opened WordDisk

  const ENTRIES_PER_PAGE: nat := 256
  const MAX_DIR_PAGES: nat := 1024
  const MAX_PRIMARY_LNG: nat := 32

  const ERR_NO_WRITE: int := -7
  const ERR_BAD_PAGENO: int := -8
  const ERR_BAD_HNDL: int := -9
  const ERR_SPECIAL: int := -10
  const ERR_DELETED: int := -11
  const ERR_NOT_FOUND: int := -12
  const ERR_BAD_ADDR: int := -18
  const ERR_RDONLY: int := -22
  const ERR_NO_POS: int := -25
  const ERR_DIR_FULL: int := -28
  const ERR_NO_TARGET: int := -31
  const ERR_DAMAGED: int := -45

  const RDMODE: nat := 0
  const WMODE: nat := 1
  const CREATE: nat := 2
  const RWMODE: nat := 3
  const APPEND: nat := 4

  // ----- Record headers -----

  /** First word of a record: its type on 8 bits, its length in 64-bit units on 24. */
  function FirstWord(idtyp: nat, lng: nat): word
    requires idtyp < 0x100 && lng < 0x100_0000
  {
    idtyp * 0x100_0000 + lng
  }

  function IdtypOf(w: word): nat { w / 0x100_0000 }

  function LngOf(w: word): nat { w % 0x100_0000 }

  /** Bit by bit: the type, then the length. */
  lemma FirstWordBits(idtyp: nat, lng: nat)
    requires idtyp < 0x100 && lng < 0x100_0000
    ensures Bits(FirstWord(idtyp, lng), 32) == Bits(idtyp, 8) + Bits(lng, 24)
  {
    Pow2Values();
    hide Bits, Pow2;
    BitsJoined(idtyp, lng, 32, 24);
  }

  lemma FirstWordRead(idtyp: nat, lng: nat)
    requires idtyp < 0x100 && lng < 0x100_0000
    ensures IdtypOf(FirstWord(idtyp, lng)) == idtyp && LngOf(FirstWord(idtyp, lng)) == lng
  {
  }

  /** The test for a deleted record, (idtyp & 0x7E) == 0x7E: it lets four types through, and
      one of them is a type that a record may be given. */
  lemma DeletedTypes(idtyp: nat)
    requires idtyp < 0x100
    ensures And(idtyp, 0x7E) == 0x7E <==> idtyp in {126, 127, 254, 255}
  {
    hide And;
    var h := idtyp / 2;
    AndEven(idtyp, 0x3F);
    Pow2Values();
    AndWithLowMask(h, 6);
  }

  /** The tests of the closing of a file: (idtyp | 0x80) against 254 and 255. */
  lemma ClosingTypes(idtyp: nat)
    requires idtyp < 0x100
    ensures Or(idtyp, 0x80) == 254 <==> idtyp in {126, 254}
    ensures Or(idtyp, 0x80) == 255 <==> idtyp in {127, 255}
    ensures And(idtyp, 0x7F) == idtyp % 0x80
  {
    hide Or, And;
    Pow2Values();
    assert Pow2(7) == 128;
    AndWithLowMask(idtyp, 7);
    OrCommutes(idtyp, 0x80);
    OrIsSum(1, idtyp % 0x80, 7);
    if idtyp >= 0x80 { OrHighBit(idtyp % 0x80); }
  }

  lemma OrHighBit(low: nat)
    requires low < 0x80
    ensures Or(0x80, 0x80 + low) == 0x80 + low
  {
    hide Or;
    assert Pow2(7) == 128;
    OrIsSum(1, low, 7);
    OrAbsorbs(0x80, low);
  }

  lemma {:induction false} OrAbsorbs(a: nat, b: nat)
    ensures Or(a, Or(a, b)) == Or(a, b)
    decreases a + b
  {
    if a > 0 && b > 0 {
      OrHalves(a, b);
      OrHalves(a, Or(a, b));
      OrAbsorbs(a / 2, b / 2);
    } else {
      OrItself(a);
      OrItself(b);
    }
  }

  lemma {:induction false} OrItself(a: nat)
    ensures Or(a, a) == a
  {
    if a > 0 { OrItself(a / 2); }
  }

  // ----- Handles -----

  /** The macro MAKE_RND_HANDLE. */
  function MakeRndHandle(pageno: nat, recno: nat, fileIndex: nat): nat
  {
    fileIndex % 0x400 + recno % 0x200 * 0x400 + pageno % 0x1000 * 0x8_0000
  }

  function IndexFromHandle(handle: int): nat { handle % 0x400 }

  function RecordFromHandle(handle: int): nat { handle / 0x400 % 0x200 }

  function PagenoFromHandle(handle: int): nat { handle / 0x8_0000 % 0x1000 }

  /** A handle names one record of one file, and is a positive 32-bit number since file
      indices start from 1. */
  lemma HandleRoundTrip(pageno: nat, recno: nat, fileIndex: nat)
    requires pageno < 0x1000 && recno < 0x200 && 1 <= fileIndex < 0x400
    ensures var h := MakeRndHandle(pageno, recno, fileIndex);
      0 < h < 0x8000_0000 && IndexFromHandle(h) == fileIndex && RecordFromHandle(h) == recno &&
        PagenoFromHandle(h) == pageno
  {
    var h := MakeRndHandle(pageno, recno, fileIndex);
    ModUnique(0x400, recno + 0x200 * pageno, fileIndex);
    ModUnique(0x200, pageno, recno);
    ModUnique(0x8_0000, pageno, fileIndex + 0x400 * recno);
  }

  /** Bit by bit, after the sign: 12 for the page, 9 for the record, 10 for the file. */
  lemma HandleBits(pageno: nat, recno: nat, fileIndex: nat)
    requires pageno < 0x1000 && recno < 0x200 && 1 <= fileIndex < 0x400
    ensures Bits(MakeRndHandle(pageno, recno, fileIndex), 31) == Bits(pageno, 12) + Bits(recno, 9) + Bits(fileIndex, 10)
  {
    hide Bits, Pow2;
    FieldPowers();
    ThreeJoined(pageno, recno, fileIndex, 31, 9, 10, 0x200, 0x400);
    HandleIs(pageno, recno, fileIndex);
  }

  lemma HandleIs(pageno: nat, recno: nat, fileIndex: nat)
    requires pageno < 0x1000 && recno < 0x200 && 1 <= fileIndex < 0x400
    ensures MakeRndHandle(pageno, recno, fileIndex) == fileIndex + 0x400 * (recno + 0x200 * pageno)
  {
  }

  // ----- The file header -----

  const XDF0: word := 0x58444630

  datatype FileHeader = FileHeader(lng: nat, sign: word, fsiz: nat, nrwr: nat, nxtn: nat, nbd: nat, plst: nat,
                                   nbig: nat, nprm: nat, lprm: nat, naux: nat, laux: nat, neff: nat, nrec: nat,
                                   rwflg: nat, keys: seq<word>)

  predicate HeaderFits(h: FileHeader)
  {
    h.lng < 0x100_0000 && h.fsiz < WORD_BASE && h.nrwr < WORD_BASE && h.nxtn < WORD_BASE && h.nbd < WORD_BASE &&
    h.plst < WORD_BASE && h.nbig < WORD_BASE && h.nprm < 0x1_0000 && h.lprm < 0x1_0000 && h.naux < 0x1_0000 &&
    h.laux < 0x1_0000 && h.neff < WORD_BASE && h.nrec < WORD_BASE && h.rwflg < WORD_BASE && |h.keys| == 2 * h.lng - 16
  }

  function HeaderWords(h: FileHeader): (ws: seq<word>)
    requires HeaderFits(h)
    ensures |ws| == 2 * h.lng
  {
    [FirstWord(0, h.lng), 0, XDF0, h.sign, h.fsiz, h.nrwr, h.nxtn, h.nbd, h.plst, h.nbig,
     h.nprm * 0x1_0000 + h.lprm, h.naux * 0x1_0000 + h.laux, h.neff, h.nrec, h.rwflg, 0] + h.keys
  }

  /** Word by word and bit by bit: the length, the version "XDF0", the signature, six counters, two words of
      two 16-bit numbers, three counters, one word that is not used, the descriptors of the keys. */
  lemma HeaderAt(h: FileHeader)
    requires HeaderFits(h)
    ensures var ws := HeaderWords(h);
      |ws| >= 16 && ws[0] == h.lng && ws[2] == 0x58444630 && ws[3] == h.sign && ws[4] == h.fsiz && ws[5] == h.nrwr &&
      ws[6] == h.nxtn && ws[7] == h.nbd && ws[8] == h.plst && ws[9] == h.nbig && ws[12] == h.neff && ws[13] == h.nrec &&
      ws[14] == h.rwflg && ws[16..] == h.keys && ws[1] == ws[15] == 0 &&
      Bits(ws[10], 32) == Bits(h.nprm, 16) + Bits(h.lprm, 16) && Bits(ws[11], 32) == Bits(h.naux, 16) + Bits(h.laux, 16)
  {
    hide Bits, Pow2;
    Pow2Values();
    BitsJoined(h.nprm, h.lprm, 32, 16);
    BitsJoined(h.naux, h.laux, 32, 16);
  }

  function ParseHeader(ws: seq<word>): FileHeader
    requires |ws| >= 16
  {
    FileHeader(LngOf(ws[0]), ws[3], ws[4], ws[5], ws[6], ws[7], ws[8], ws[9], ws[10] / 0x1_0000, ws[10] % 0x1_0000,
      ws[11] / 0x1_0000, ws[11] % 0x1_0000, ws[12], ws[13], ws[14], ws[16..])
  }

  lemma HeaderReadBack(h: FileHeader)
    requires HeaderFits(h)
    ensures |HeaderWords(h)| >= 16 && ParseHeader(HeaderWords(h)) == h
  {
    FirstWordRead(0, h.lng);
    assert HeaderWords(h)[16..] == h.keys;
  }

  // ----- Directory pages -----

  /** Length of a page in 64-bit units. */
  function PageUnits(lprm: nat): nat
  {
    ENTRIES_PER_PAGE * lprm + 4
  }

  /** A page in memory.  It has as many slots as a page can have entries. */
  datatype Page = Page(modified: bool, addr: word, nxtAddr: word, nent: nat, chksum: word, reserved3: word,
    entries: seq<seq<word>>)

  ghost predicate PageFits(p: Page, lprm: nat)
  {
    2 <= lprm <= 16 && p.nent <= ENTRIES_PER_PAGE && |p.entries| == ENTRIES_PER_PAGE &&
    forall j | 0 <= j < |p.entries| :: |p.entries[j]| == 2 * lprm
  }

  /** The words of a page on disk. */
  function PageWords(p: Page, lprm: nat): seq<word>
    requires PageFits(p, lprm)
  {
    [FirstWord(0, PageUnits(lprm)), p.addr, 0, 0, p.nxtAddr, p.nent, p.chksum, p.reserved3] + Flatten(p.entries)
  }

  /** Where a page has what: its length, its address, the address of the next page, how many entries it has, its
      checksum, and from word 8 on its 256 slots of as many words as a primary key. */
  lemma PageAt(p: Page, lprm: nat, j: nat)
    requires PageFits(p, lprm) && j < 256
    ensures var ws := PageWords(p, lprm);
      |ws| == 2 * (256 * lprm + 4) && ws[0] == 256 * lprm + 4 && ws[1] == p.addr && ws[2] == ws[3] == 0 &&
      ws[4] == p.nxtAddr && ws[5] == p.nent && ws[6] == p.chksum && ws[7] == p.reserved3
    ensures 8 + j * (2 * lprm) + 2 * lprm <= |PageWords(p, lprm)|
    ensures PageWords(p, lprm)[8 + j * (2 * lprm)..8 + j * (2 * lprm) + 2 * lprm] == p.entries[j]
  {
    hide Flatten;
    PageWordsLength(p, lprm);
    FlattenPart(p.entries, j, 2 * lprm, j * (2 * lprm));
    SlicesFrom(PageWords(p, lprm), Flatten(p.entries), j * (2 * lprm), 2 * lprm);
  }

  lemma SlicesFrom(ws: seq<word>, rest: seq<word>, at: nat, n: nat)
    requires |ws| >= 8 && ws[8..] == rest && at + n <= |rest|
    ensures ws[8 + at..8 + at + n] == rest[at..at + n]
  {
  }

  /** The slots of a page read from disk. */
  function SlotsOf(ws: seq<word>, width: nat): seq<seq<word>>
    requires |ws| == ENTRIES_PER_PAGE * width
  {
    seq(ENTRIES_PER_PAGE, j requires 0 <= j < ENTRIES_PER_PAGE => SlotOf(ws, j, width))
  }

  function SlotOf(ws: seq<word>, j: nat, width: nat): seq<word>
    requires |ws| == ENTRIES_PER_PAGE * width && j < ENTRIES_PER_PAGE
  {
    SlotEnd(j, width);
    SlotOrder(j + 1, ENTRIES_PER_PAGE, width);
    ws[j * width..j * width + width]
  }

  lemma SlotsReadBack(entries: seq<seq<word>>, width: nat)
    requires |entries| == ENTRIES_PER_PAGE && forall j | 0 <= j < |entries| :: |entries[j]| == width
    ensures |Flatten(entries)| == ENTRIES_PER_PAGE * width
    ensures SlotsOf(Flatten(entries), width) == entries
  {
    hide Flatten;
    FlattenLength(entries, width);
    assert |SlotsOf(Flatten(entries), width)| == |entries|;
    forall j: nat | j < |entries| ensures SlotsOf(Flatten(entries), width)[j] == entries[j] {
      FlattenPart(entries, j, width, j * width);
      assert SlotOf(Flatten(entries), j, width) == entries[j];
    }
  }

  lemma PageWordsLength(p: Page, lprm: nat)
    requires PageFits(p, lprm)
    ensures |PageWords(p, lprm)| == 2 * PageUnits(lprm)
  {
    FlattenLength(p.entries, 2 * lprm);
  }

  /** A page as it is read from disk. */
  function ParsePage(ws: seq<word>, lprm: nat): Page
    requires |ws| == 2 * PageUnits(lprm)
  {
    Page(false, ws[1], ws[4], ws[5], ws[6], ws[7], SlotsOf(ws[8..], 2 * lprm))
  }

  lemma PageReadBack(p: Page, lprm: nat)
    requires PageFits(p, lprm)
    ensures |PageWords(p, lprm)| == 2 * PageUnits(lprm) && ParsePage(PageWords(p, lprm), lprm) == p.(modified := false)
  {
    hide Flatten;
    PageWordsLength(p, lprm);
    SlotsReadBack(p.entries, 2 * lprm);
    assert PageWords(p, lprm)[8..] == Flatten(p.entries);
  }

  /** The exclusive or of the words of a page from its second pair on, that cancels out when
      the checksum is right. */
  ghost function PageSum(p: Page, c: word, lprm: nat): word
    requires PageFits(p, lprm)
  {
    XorFrom(c, [p.nxtAddr, p.nent as word, p.chksum] + ([p.reserved3] + Flatten(p.entries)))
  }

  lemma PageSumCancels(p: Page, lprm: nat)
    requires PageFits(p, lprm)
    ensures PageFits(p.(chksum := PageSum(p, p.chksum, lprm)), lprm)
    ensures PageSum(p.(chksum := PageSum(p, p.chksum, lprm)), 0, lprm) == 0
  {
    hide XorFrom, Flatten;
    var a, b := [p.nxtAddr, p.nent as word], [p.reserved3] + Flatten(p.entries);
    var c := PageSum(p, p.chksum, lprm);
    ChecksumCancels(p.chksum, a, b);
    assert [p.nxtAddr, p.nent as word, p.chksum] == a + [p.chksum];
    assert [p.nxtAddr, p.nent as word, c] == a + [c];
  }

  /** The words of such a page from the fifth one on cancel out. */
  lemma CheckedPage(p: Page, lprm: nat)
    requires PageFits(p, lprm)
    ensures var words := PageWords(p.(chksum := PageSum(p, p.chksum, lprm)), lprm);
      |words| >= 4 && XorFrom(0, words[4..]) == 0
  {
    hide XorFrom, Flatten;
    PageSumCancels(p, lprm);
    PageWordsSplit(p.(chksum := PageSum(p, p.chksum, lprm)), lprm);
  }

  lemma PageWordsSplit(p: Page, lprm: nat)
    requires PageFits(p, lprm)
    ensures |PageWords(p, lprm)| >= 8
    ensures PageWords(p, lprm)[4..] == [p.nxtAddr, p.nent as word, p.chksum] + ([p.reserved3] + Flatten(p.entries))
  {
  }
}
