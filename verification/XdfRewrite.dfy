/** What writing a record does to the extents of a file, which handles are accepted, and what is read
    from a handle after a record was written with it. */
module XdfRewrite {
  import opened Words
  import opened XdfFormat
  import opened XdfLayout
  import opened XdfSteps
  import opened XdfSound
  import opened XdfFile

  // ----- The extents -----

  /** The extent that a handle names: each page has 256 records after it. */
  function ExtentOf(handle: nat): nat
  {
    257 * (handle / 0x8_0000 % 0x1000) + 1 + handle / 0x400 % 0x200
  }

  /** Extents that are those from before, but for one of them, and a record at the end, after a page
      when the last one is full. */
  ghost predicate GrownBy(ex: seq<Extent>, ex': seq<Extent>, idtyp: nat, body: seq<word>, lprm: nat, end: nat)
  {
    if |ex| % 257 == 0
    then |ex'| == |ex| + 2 && ex'[|ex|] == DirPage(end) &&
      ex'[|ex| + 1] == Record(end + 256 * lprm + 4, idtyp, body, false, false)
    else |ex'| == |ex| + 1 && ex'[|ex|] == Record(end, idtyp, body, false, false)
  }

  /** Without a handle the record goes to the end, and nothing else changes. */
  lemma AddedAtEnd(ex: seq<Extent>, idtyp: nat, body: seq<word>, lprm: nat, end: nat)
    ensures var ex' := AfterPut(ex, 0, idtyp, body, lprm, end);
      GrownBy(ex, ex', idtyp, body, lprm, end) && ex'[..|ex|] == ex
  {
  }

  /** With a handle and a record of the same length it takes the place of the old one; */
  lemma WrittenInPlace(ex: seq<Extent>, handle: nat, idtyp: nat, body: seq<word>, lprm: nat, end: nat)
    requires handle > 0 && ExtentOf(handle) < |ex| && ex[ExtentOf(handle)].Record?
    requires |body| % 2 == 0 && |ex[ExtentOf(handle)].body| == |body|
    ensures var i := ExtentOf(handle);
      AfterPut(ex, handle, idtyp, body, lprm, end) == ex[i := Record(ex[i].addr, idtyp, body, false, false)]
  {
  }

  /** with the negated handle, or another length, it goes to the end, and the old one is deleted. */
  lemma MovedToEnd(ex: seq<Extent>, handle: int, h: nat, idtyp: nat, body: seq<word>, lprm: nat, end: nat)
    requires handle != 0 && h == (if handle < 0 then -handle else handle)
    requires ExtentOf(h) < |ex| && ex[ExtentOf(h)].Record?
    requires |body| % 2 == 0 == |ex[ExtentOf(h)].body| % 2
    requires handle < 0 || |ex[ExtentOf(h)].body| != |body|
    ensures var i, ex' := ExtentOf(h), AfterPut(ex, handle, idtyp, body, lprm, end);
      GrownBy(ex, ex', idtyp, body, lprm, end) && ex'[..|ex|] == ex[i := ex[i].(deleted := true)]
  {
  }

  // ----- The handles that are accepted -----

  /** The handle names a record that is there. */
  ghost predicate NamesRecord(handle: nat, fileIndex: nat, pages: seq<Page>, ex: seq<Extent>)
  {
    var p, j := handle / 0x8_0000 % 0x1000, handle / 0x400 % 0x200;
    handle % 0x400 == fileIndex && p < |pages| && j < pages[p].nent
  }

  /** The handle names the first free slot of a page. */
  ghost predicate NamesFreeSlot(handle: nat, fileIndex: nat, pages: seq<Page>)
  {
    var p, j := handle / 0x8_0000 % 0x1000, handle / 0x400 % 0x200;
    handle % 0x400 == fileIndex && p < |pages| && j == pages[p].nent
  }

  /** The type in the first word of the slot of a handle. */
  function TypeInSlot(handle: nat, pages: seq<Page>): nat
  {
    IdtypOf(SlotWord(pages, handle / 0x8_0000 % 0x1000, handle / 0x400 % 0x200))
  }

  /** -9 for another file or a number past the first free slot, -8 for a page that is not there, -10
      for a free slot with type 0, -11 for a record that is deleted or of type 126, or a free slot with
      the type of a deletion; and no other error. */
  lemma HandleErrors(handle: nat, fileIndex: nat, pages: seq<Page>, ex: seq<Extent>)
    requires NamesRecord(handle, fileIndex, pages, ex) ==> ExtentOf(handle) < |ex| && ex[ExtentOf(handle)].Record?
    ensures var p, j, error := handle / 0x8_0000 % 0x1000, handle / 0x400 % 0x200,
      HandleError(handle, fileIndex, pages, ex);
      (error == -9 <==> handle % 0x400 != fileIndex || (p < |pages| && j > pages[p].nent)) &&
      (error == -8 <==> handle % 0x400 == fileIndex && p >= |pages|) &&
      (error == -10 <==> NamesFreeSlot(handle, fileIndex, pages) && TypeInSlot(handle, pages) == 0) &&
      (error == -11 <==>
        (NamesFreeSlot(handle, fileIndex, pages) && TypeInSlot(handle, pages) in {126, 127, 254, 255}) ||
        (NamesRecord(handle, fileIndex, pages, ex) &&
          (ex[ExtentOf(handle)].deleted || ex[ExtentOf(handle)].idtyp == 126))) &&
      error in {0, -8, -9, -10, -11}
  {
    hide And, SlotWord, RecordFromHandle, PagenoFromHandle, IndexFromHandle;
    HandleFields(handle);
    DeletedTypes(TypeInSlot(handle, pages));
  }

  lemma HandleFields(handle: nat)
    ensures PagenoFromHandle(handle) == handle / 0x8_0000 % 0x1000
    ensures RecordFromHandle(handle) == handle / 0x400 % 0x200 && IndexFromHandle(handle) == handle % 0x400
  {
  }

  /** A record is written if and only if its length is in whole units, the file is open for writing and,
      with a handle, not for appending alone, the handle is accepted, and the record takes the place of
      the old one or the directory has room for it. */
  lemma PutAccepted(handle: int, h: nat, nbits: nat, header: FileHeader, readOnly: bool, fileIndex: nat,
                    pages: seq<Page>, ex: seq<Extent>)
    requires h == (if handle < 0 then -handle else handle)
    requires ExtentOf(h) < |ex| ==> (ex[ExtentOf(h)].Record? ==> |ex[ExtentOf(h)].body| % 2 == 0)
    requires handle != 0 && HandleError(h, fileIndex, pages, ex) == 0 ==>
      ExtentOf(h) < |ex| && ex[ExtentOf(h)].Record?
    ensures PutError(handle, nbits, header, readOnly, fileIndex, pages, ex) == 0 <==>
      nbits % 64 == 0 && header.rwflg != 0 && !readOnly &&
      (handle != 0 ==> header.rwflg != 4 && HandleError(h, fileIndex, pages, ex) == 0) &&
      (|ex| < 257 * 1024 || |ex| > 257 * 1024 ||
        (handle > 0 && |ex[ExtentOf(h)].body| + 2 == nbits / 32))
    ensures nbits % 64 != 0 ==> PutError(handle, nbits, header, readOnly, fileIndex, pages, ex) == -18
    ensures nbits % 64 == 0 && (header.rwflg == 0 || readOnly || (handle != 0 && header.rwflg == 4)) ==>
      PutError(handle, nbits, header, readOnly, fileIndex, pages, ex) == -7
  {
    hide HandleError;
  }

  // ----- Writing, then reading -----

  /** The record that a handle names is an extent. */
  lemma NamedExtent(f: RandomFile, h: nat)
    requires f.Sound() && NamesRecord(h, f.fileIndex, f.pages, f.extents)
    ensures ExtentOf(h) < |f.extents| && f.extents[ExtentOf(h)].Record? && |f.extents[ExtentOf(h)].body| % 2 == 0
    ensures RecordAt(f.extents, PagenoFromHandle(h), RecordFromHandle(h)) == f.extents[ExtentOf(h)]
    ensures h / 0x400 % 0x200 < 256
  {
    hide FileSound;
    f.SoundRoom();
    f.SoundEntry(PagenoFromHandle(h), RecordFromHandle(h));
  }

  lemma NotMisled(handle: int, h: nat, fileIndex: nat, pages: seq<Page>, ex: seq<Extent>)
    requires NamesRecord(h, fileIndex, pages, ex) && h == (if handle < 0 then -handle else handle)
    ensures InPage(Magnitude(handle), pages) && !Misled(handle, pages) && !Leftover(Magnitude(handle), pages)
  {
  }

  /** An extent below the end of a file that is not a page has an entry. */
  lemma StillNamed(f: RandomFile, h: nat)
    requires f.Sound() && ExtentOf(h) < |f.extents| && h % 0x400 == f.fileIndex && h / 0x400 % 0x200 < 256
    ensures NamesRecord(h, f.fileIndex, f.pages, f.extents)
  {
    hide FileSound;
    f.SoundShape();
  }

  /** Writes a record over another one, or at the end and deletes the other one. */
  method PutOver(f: RandomFile, handle: int, h: nat, data: array<word>, nbits: nat) returns (err: int)
    requires f.Valid() && f.header.neff + 1 < WORD_BASE && handle != 0 && h == (if handle < 0 then -handle else handle)
    requires nbits % 64 == 0 && IsBuffer(data[..], nbits / 32, f.header.lprm)
    requires f.header.fsiz + 1 + PageUnits(f.header.lprm) + nbits / 64 < 0x4000_0000
    requires f.header.rwflg !in {RDMODE, APPEND} && !f.readOnly && NamesRecord(h, f.fileIndex, f.pages, f.extents)
    requires !Gone(RecordAt(f.extents, PagenoFromHandle(h), RecordFromHandle(h))) && |f.pages| < MAX_DIR_PAGES
    modifies f, data
    ensures err == 0 && f.Valid() && NamesRecord(h, f.fileIndex, f.pages, f.extents)
    ensures ExtentOf(h) < |old(f.extents)| && old(f.extents)[ExtentOf(h)].Record? && ExtentOf(h) < |f.extents|
    ensures handle < 0 || nbits / 32 != |old(f.extents)[ExtentOf(h)].body| + 2 ==>
      f.extents[ExtentOf(h)] == old(f.extents)[ExtentOf(h)].(deleted := true)
    ensures handle > 0 && nbits / 32 == |old(f.extents)[ExtentOf(h)].body| + 2 ==> var e := f.extents[ExtentOf(h)];
      e == Record(old(f.extents)[ExtentOf(h)].addr, old(IdtypOf(data[0])), old(data[2..nbits / 32]), false, false)
  {
    hide FileSound, RandomFile.Sound, AfterPut, ExtentOf;
    ghost var ex, idtyp, body := f.extents, IdtypOf(data[0]), data[2..nbits / 32];
    NamedExtent(f, h);
    f.LastPage();
    NotMisled(handle, h, f.fileIndex, f.pages, ex);
    err := f.Put(handle, data, nbits);
    if handle > 0 && nbits / 32 == |ex[ExtentOf(h)].body| + 2 {
      WrittenInPlace(ex, handle, idtyp, body, f.header.lprm, old(f.header).fsiz + 1);
    } else {
      MovedToEnd(ex, handle, h, idtyp, body, f.header.lprm, old(f.header).fsiz + 1);
      assert f.extents[ExtentOf(h)] == f.extents[..|ex|][ExtentOf(h)];
    }
    StillNamed(f, h);
  }

  /** Reads the record that a handle names. */
  method GetNamed(f: RandomFile, h: nat) returns (err: int, words: seq<word>)
    requires f.Valid() && NamesRecord(h, f.fileIndex, f.pages, f.extents)
    ensures ExtentOf(h) < |f.extents| && f.extents[ExtentOf(h)].Record?
    ensures var e := f.extents[ExtentOf(h)];
      err == if e.deleted || e.idtyp == 126 then ERR_DELETED else 0
    ensures err == 0 ==> var e := f.extents[ExtentOf(h)];
      |words| == |e.body| + 2 && words[2..] == e.body && IdtypOf(words[0]) == e.idtyp && words[1] == e.addr
  {
    hide FileSound, RandomFile.Sound, ExtentOf;
    NamedExtent(f, h);
    NotMisled(h, h, f.fileIndex, f.pages, f.extents);
    err, words := f.Get(h);
    if err == 0 { RecordRead(f.extents[ExtentOf(h)], f.header.lprm); }
  }

  lemma RecordRead(e: Extent, lprm: nat)
    requires IsRecord(e, lprm) && e.addr < WORD_BASE && !Gone(e)
    ensures var words := RecordWords(e, lprm);
      |words| == |e.body| + 2 && words[2..] == e.body && IdtypOf(words[0]) == e.idtyp && words[1] == e.addr
  {
    FirstWordRead(e.idtyp, Units(e, lprm));
  }

  /** Writes a record with a handle, then reads what the handle names.  A record of the same length
      is read back; one that was moved to the end is found to be deleted. */
  method PutThenGet(f: RandomFile, handle: int, h: nat, data: array<word>, nbits: nat)
    returns (err: int, err2: int, words: seq<word>)
    requires f.Valid() && f.header.neff + 1 < WORD_BASE && handle != 0 && h == (if handle < 0 then -handle else handle)
    requires nbits % 64 == 0 && IsBuffer(data[..], nbits / 32, f.header.lprm)
    requires f.header.fsiz + 1 + PageUnits(f.header.lprm) + nbits / 64 < 0x4000_0000
    requires f.header.rwflg !in {RDMODE, APPEND} && !f.readOnly && NamesRecord(h, f.fileIndex, f.pages, f.extents)
    requires !Gone(RecordAt(f.extents, PagenoFromHandle(h), RecordFromHandle(h))) && |f.pages| < MAX_DIR_PAGES
    modifies f, data
    ensures err == 0 && f.Valid() && ExtentOf(h) < |old(f.extents)| && old(f.extents)[ExtentOf(h)].Record?
    ensures handle < 0 || nbits / 32 != |old(f.extents)[ExtentOf(h)].body| + 2 ==> err2 == ERR_DELETED
    ensures handle > 0 && nbits / 32 == |old(f.extents)[ExtentOf(h)].body| + 2 ==>
      err2 == (if old(IdtypOf(data[0])) == 126 then ERR_DELETED else 0)
    ensures err2 == 0 ==> |words| == nbits / 32 && words[2..] == old(data[2..nbits / 32])
    ensures err2 == 0 ==> IdtypOf(words[0]) == old(IdtypOf(data[0])) && words[1] == old(f.extents)[ExtentOf(h)].addr
  {
    hide FileSound, RandomFile.Sound, RandomFile.CursorSound, ExtentOf, NamesRecord, NamesFreeSlot, RecordAt;
    err := PutOver(f, handle, h, data, nbits);
    err2, words := GetNamed(f, h);
  }
}
