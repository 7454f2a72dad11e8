/** Searches in a random file (`next_match`, `c_xdfloc2`) and the list of all the matches
    (`c_fstinl`, `c_fstsui`). */
module XdfSearch {
  import opened Words
  import opened WordDisk
  import opened XdfFormat
  import opened XdfLayout
  import opened XdfSteps
  import opened XdfSound
  import opened XdfFile

  /** What a search looks for; the filter stands for the requests on standard files. */
  datatype Search = Search(fileIndex: nat, target: seq<word>, mask: seq<word>, width: nat, filter: int -> bool)

  predicate Usable(s: Search)
  {
    2 <= s.width <= |s.target| && s.width <= |s.mask|
  }

  /** An entry that is not deleted and agrees with the target wherever the mask has ones. */
  predicate EntryMatches(entry: seq<word>, s: Search)
    requires Usable(s)
  {
    |entry| == s.width && IdtypOf(entry[0]) < 127 && forall i | 0 <= i < s.width ::
      And(Xor(entry[i], s.target[i]), s.mask[i]) == 0
  }

  predicate IsMatch(page: Page, n: nat, j: nat, s: Search)
    requires Usable(s) && j < |page.entries|
  {
    EntryMatches(page.entries[j], s) && s.filter(MakeRndHandle(n, j, s.fileIndex))
  }

  /** The handles of the matches from entry j of page p on, when that page is taken for page
      number n. */
  ghost function Matches(pages: seq<Page>, p: nat, n: nat, j: nat, s: Search): seq<int>
    requires Usable(s)
    decreases |pages| - p, if p < |pages| then pages[p].nent - j else 0
  {
    if p >= |pages| then []
    else if j >= pages[p].nent || j >= |pages[p].entries| then Matches(pages, p + 1, n + 1, 0, s)
    else
      var rest := Matches(pages, p, n, j + 1, s);
      if IsMatch(pages[p], n, j, s) then [MakeRndHandle(n, j, s.fileIndex)] + rest else rest
  }

  /** Entry k of page q agrees with the target, and has that handle, which the filter lets through. */
  ghost predicate MatchAt(pages: seq<Page>, p: nat, n: nat, j: nat, s: Search, h: int, q: nat, k: nat)
    requires Usable(s) && forall q | 0 <= q < |pages| :: pages[q].nent <= |pages[q].entries|
  {
    q < |pages| && k < pages[q].nent && (p < q || (p == q && j <= k)) && EntryMatches(pages[q].entries[k], s) &&
    h == MakeRndHandle(n + (q - p), k, s.fileIndex) && s.filter(h)
  }

  lemma NextPageMatch(pages: seq<Page>, p: nat, n: nat, j: nat, s: Search, h: int, q: nat, k: nat)
    requires Usable(s) && forall q | 0 <= q < |pages| :: pages[q].nent <= |pages[q].entries|
    requires p < |pages| && j >= pages[p].nent
    ensures MatchAt(pages, p, n, j, s, h, q, k) <==> MatchAt(pages, p + 1, n + 1, 0, s, h, q, k)
  {
    assert n + (q - p) == n + 1 + (q - (p + 1));
  }

  /** Exactly the handles of the entries that match, each under the number that its page is taken
      for, */
  lemma {:induction false} MatchesAre(pages: seq<Page>, p: nat, n: nat, j: nat, s: Search, h: int)
    requires Usable(s) && forall q | 0 <= q < |pages| :: pages[q].nent <= |pages[q].entries|
    ensures h in Matches(pages, p, n, j, s) <==> exists q: nat, k: nat :: MatchAt(pages, p, n, j, s, h, q, k)
    decreases |pages| - p, if p < |pages| then pages[p].nent - j else 0
  {
    hide MakeRndHandle, IsMatch;
    if p < |pages| {
      if j >= pages[p].nent {
        var p', n' := p + 1, n + 1;
        MatchesAre(pages, p', n', 0, s, h);
        if q: nat, k: nat :| MatchAt(pages, p', n', 0, s, h, q, k) { NextPageMatch(pages, p, n, j, s, h, q, k); }
        if q: nat, k: nat :| MatchAt(pages, p, n, j, s, h, q, k) { NextPageMatch(pages, p, n, j, s, h, q, k); }
      } else {
        var j' := j + 1;
        MatchesAre(pages, p, n, j', s, h);
        if q: nat, k: nat :| MatchAt(pages, p, n, j', s, h, q, k) { NextEntryMatch(pages, p, n, j, s, h, q, k); }
        if q: nat, k: nat :| MatchAt(pages, p, n, j, s, h, q, k) { NextEntryMatch(pages, p, n, j, s, h, q, k); }
        NextEntryMatch(pages, p, n, j, s, h, p, j);
      }
    }
  }

  lemma NextEntryMatch(pages: seq<Page>, p: nat, n: nat, j: nat, s: Search, h: int, q: nat, k: nat)
    requires Usable(s) && forall q | 0 <= q < |pages| :: pages[q].nent <= |pages[q].entries|
    requires p < |pages| && j < pages[p].nent
    ensures MatchAt(pages, p, n, j, s, h, q, k) <==>
      MatchAt(pages, p, n, j + 1, s, h, q, k) ||
        (q == p && k == j && IsMatch(pages[p], n, j, s) && h == MakeRndHandle(n, j, s.fileIndex))
  {
    hide MakeRndHandle, EntryMatches;
    assert n + (p - p) == n;
  }

  /** each once and in ascending order, as long as page numbers fit their field. */
  lemma {:induction false} MatchesAscend(pages: seq<Page>, p: nat, n: nat, j: nat, s: Search)
    requires Usable(s) && p <= |pages| && n + (|pages| - p) <= 0x1000 && 1 <= s.fileIndex < 0x400
    requires forall q | 0 <= q < |pages| :: pages[q].nent <= |pages[q].entries| <= 0x200
    ensures forall a, b | 0 <= a < b < |Matches(pages, p, n, j, s)| ::
      Matches(pages, p, n, j, s)[a] < Matches(pages, p, n, j, s)[b]
    ensures forall a | 0 <= a < |Matches(pages, p, n, j, s)| ::
      Matches(pages, p, n, j, s)[a] >= LowestHandle(n, j, s.fileIndex)
    decreases |pages| - p, if p < |pages| then pages[p].nent - j else 0
  {
    hide IsMatch;
    if p < |pages| {
      if j >= pages[p].nent { MatchesAscend(pages, p + 1, n + 1, 0, s); } else { MatchesAscend(pages, p, n, j + 1, s); }
    }
  }

  // ----- Matches after a handle -----

  /** The matches from entry j' of page p' on are the last of those from an earlier entry; the others are before
      that entry. */
  lemma {:induction false} LaterMatches(pages: seq<Page>, p: nat, j: nat, p': nat, j': nat, s: Search)
    requires Usable(s) && |pages| <= 0x1000 && 1 <= s.fileIndex < 0x400 && p <= p' < |pages| && (p == p' ==> j <= j')
    requires forall q | 0 <= q < |pages| :: pages[q].nent <= |pages[q].entries| <= 0x200
    ensures var all, rest := Matches(pages, p, p, j, s), Matches(pages, p', p', j', s);
      |rest| <= |all| && all[|all| - |rest|..] == rest &&
      forall a | 0 <= a < |all| - |rest| :: all[a] < LowestHandle(p', j', s.fileIndex)
    decreases |pages| - p, if p < |pages| then pages[p].nent - j else 0
  {
    hide IsMatch;
    if p == p' && j == j' {
    } else if j >= pages[p].nent {
      if p < p' { LaterMatches(pages, p + 1, 0, p', j', s); }
    } else {
      LaterMatches(pages, p, j + 1, p', j', s);
    }
  }

  /** The answer of a search after a handle: the least of the handles that is greater. */
  ghost predicate NextAfter(all: seq<int>, handle: int, ret: int)
  {
    if ret == ERR_NOT_FOUND then forall a | 0 <= a < |all| :: all[a] <= handle
    else ret > handle && ret in all && forall a | 0 <= a < |all| && all[a] > handle :: all[a] >= ret
  }

  /** The matches that come after a handle of this file, and the first of them. */
  lemma AfterHandle(pages: seq<Page>, handle: nat, s: Search, ret: int)
    requires Usable(s) && |pages| <= 0x1000 && 1 <= s.fileIndex < 0x400 && 0 < handle < 0x8000_0000
    requires forall q | 0 <= q < |pages| :: pages[q].nent <= |pages[q].entries| <= ENTRIES_PER_PAGE
    requires IndexFromHandle(handle) == s.fileIndex && PagenoFromHandle(handle) < |pages|
    requires var p := PagenoFromHandle(handle); var rest := Matches(pages, p, p, RecordFromHandle(handle) + 1, s);
      ret == if rest == [] then ERR_NOT_FOUND else rest[0]
    ensures NextAfter(Matches(pages, 0, 0, 0, s), handle, ret)
  {
    hide Matches, IndexFromHandle, PagenoFromHandle, RecordFromHandle;
    var p, j := PagenoFromHandle(handle), RecordFromHandle(handle) + 1;
    HandleIs(handle);
    LaterMatches(pages, 0, 0, p, j, s);
    MatchesAscend(pages, 0, 0, 0, s);
    MatchesAscend(pages, p, p, j, s);
    var all, rest := Matches(pages, 0, 0, 0, s), Matches(pages, p, p, j, s);
    forall a | 0 <= a < |all| - |rest| ensures all[a] <= handle {
      SameFile(pages, 0, 0, 0, s, a);
      NoneBetween(all[a], handle, p, j - 1, s.fileIndex);
    }
    forall a | |all| - |rest| <= a < |all| ensures all[a] > handle && all[a] >= rest[0] {
      assert all[a] == rest[a - (|all| - |rest|)];
    }
    if rest != [] { assert all[|all| - |rest|] == rest[0]; }
  }

  /** A handle by its fields. */
  lemma HandleIs(handle: nat)
    requires handle < 0x8000_0000
    ensures handle == IndexFromHandle(handle) + RecordFromHandle(handle) * 0x400 + PagenoFromHandle(handle) * 0x8_0000
    ensures RecordFromHandle(handle) < 0x200
  {
  }

  /** Every match is a handle of the file of the search. */
  lemma {:induction false} SameFile(pages: seq<Page>, p: nat, n: nat, j: nat, s: Search, a: nat)
    requires Usable(s) && 1 <= s.fileIndex < 0x400 && a < |Matches(pages, p, n, j, s)|
    ensures Matches(pages, p, n, j, s)[a] % 0x400 == s.fileIndex
    decreases |pages| - p, if p < |pages| then pages[p].nent - j else 0
  {
    hide IsMatch, MakeRndHandle;
    if j >= pages[p].nent || j >= |pages[p].entries| {
      SameFile(pages, p + 1, n + 1, 0, s, a);
    } else if !IsMatch(pages[p], n, j, s) {
      SameFile(pages, p, n, j + 1, s, a);
    } else if a > 0 {
      SameFile(pages, p, n, j + 1, s, a - 1);
    } else {
      FileOfHandle(n, j, s.fileIndex);
    }
  }

  lemma FileOfHandle(n: nat, j: nat, fileIndex: nat)
    requires 1 <= fileIndex < 0x400
    ensures MakeRndHandle(n, j, fileIndex) % 0x400 == fileIndex
  {
    ModUnique(0x400, j % 0x200 + n % 0x1000 * 0x200, fileIndex);
  }

  lemma NoneBetween(x: int, handle: nat, p: nat, k: nat, fileIndex: nat)
    requires k < 0x200 && fileIndex < 0x400 && handle == fileIndex + k * 0x400 + p * 0x8_0000
    requires x % 0x400 == fileIndex && x < LowestHandle(p, k + 1, fileIndex)
    ensures x <= handle
  {
    ModUnique(0x400, k + p * 0x200, fileIndex);
    DivModInt(x, 0x400);
  }

  // ----- Which entry a handle names -----

  /** Where the matches are: the page and the entry of each. */
  ghost function Found(pages: seq<Page>, p: nat, n: nat, j: nat, s: Search): seq<(nat, nat)>
    requires Usable(s)
    decreases |pages| - p, if p < |pages| then pages[p].nent - j else 0
  {
    if p >= |pages| then []
    else if j >= pages[p].nent || j >= |pages[p].entries| then Found(pages, p + 1, n + 1, 0, s)
    else
      var rest := Found(pages, p, n, j + 1, s);
      if IsMatch(pages[p], n, j, s) then [(p, j)] + rest else rest
  }

  /** The entry that a handle names. */
  function Named(handle: int): (nat, nat)
  {
    (PagenoFromHandle(handle), RecordFromHandle(handle))
  }

  /** Each match is an entry of the file, not deleted, and its handle has the number that its
      page is taken for. */
  lemma {:induction false} FoundAre(pages: seq<Page>, p: nat, n: nat, j: nat, s: Search, a: nat)
    requires Usable(s) && a < |Found(pages, p, n, j, s)|
    ensures |Matches(pages, p, n, j, s)| == |Found(pages, p, n, j, s)|
    ensures var (q, k) := Found(pages, p, n, j, s)[a];
      p <= q < |pages| && k < pages[q].nent && k < |pages[q].entries| && EntryMatches(pages[q].entries[k], s) &&
      Matches(pages, p, n, j, s)[a] == MakeRndHandle(n + (q - p), k, s.fileIndex)
    decreases |pages| - p, if p < |pages| then pages[p].nent - j else 0
  {
    hide EntryMatches, MakeRndHandle;
    if j >= pages[p].nent || j >= |pages[p].entries| {
      FoundAre(pages, p + 1, n + 1, 0, s, a);
    } else if !IsMatch(pages[p], n, j, s) {
      FoundAre(pages, p, n, j + 1, s, a);
    } else if a > 0 {
      FoundAre(pages, p, n, j + 1, s, a - 1);
    } else {
      AsMany(pages, p, n, j + 1, s);
    }
  }

  lemma {:induction false} AsMany(pages: seq<Page>, p: nat, n: nat, j: nat, s: Search)
    requires Usable(s)
    ensures |Matches(pages, p, n, j, s)| == |Found(pages, p, n, j, s)|
    decreases |pages| - p, if p < |pages| then pages[p].nent - j else 0
  {
    hide IsMatch, MakeRndHandle;
    if p < |pages| {
      if j >= pages[p].nent || j >= |pages[p].entries| {
        AsMany(pages, p + 1, n + 1, 0, s);
      } else {
        AsMany(pages, p, n, j + 1, s);
      }
    }
  }

  /** Every handle names the entry that it was found at if and only if the page is taken for the
      right number, or nothing is found. */
  lemma HandlesRightIff(pages: seq<Page>, p: nat, n: nat, j: nat, s: Search)
    requires Usable(s) && p < |pages| <= MAX_DIR_PAGES && 1 <= s.fileIndex < 0x400
    requires forall q | 0 <= q < |pages| :: pages[q].nent <= ENTRIES_PER_PAGE
    ensures |Matches(pages, p, n, j, s)| == |Found(pages, p, n, j, s)|
    ensures (forall a | 0 <= a < |Found(pages, p, n, j, s)| ::
      Named(Matches(pages, p, n, j, s)[a]) == Found(pages, p, n, j, s)[a]) <==>
      n % 0x1000 == p || Matches(pages, p, n, j, s) == []
  {
    hide Matches, Found, IsMatch, EntryMatches, Named;
    var m, found := Matches(pages, p, n, j, s), Found(pages, p, n, j, s);
    AsMany(pages, p, n, j, s);
    forall a | 0 <= a < |found| ensures Named(m[a]) == found[a] <==> n % 0x1000 == p {
      FoundAre(pages, p, n, j, s, a);
      NamedIs(n, p, found[a].0, found[a].1, s.fileIndex);
    }
    if m != [] { assert Named(m[0]) == found[0] <==> n % 0x1000 == p; }
  }

  lemma NamedIs(n: nat, p: nat, q: nat, k: nat, fileIndex: nat)
    requires p <= q < MAX_DIR_PAGES && k < ENTRIES_PER_PAGE && 1 <= fileIndex < 0x400
    ensures Named(MakeRndHandle(n + (q - p), k, fileIndex)) == (q, k) <==> n % 0x1000 == p
  {
    hide MakeRndHandle, PagenoFromHandle, RecordFromHandle;
    PageField(n + (q - p), k, fileIndex);
    ShiftedPage(n, p, q);
  }

  lemma PageField(n: nat, k: nat, fileIndex: nat)
    requires k < 0x200 && 1 <= fileIndex < 0x400
    ensures PagenoFromHandle(MakeRndHandle(n, k, fileIndex)) == n % 0x1000
    ensures RecordFromHandle(MakeRndHandle(n, k, fileIndex)) == k
  {
    HandleRoundTrip(n % 0x1000, k, fileIndex);
    assert MakeRndHandle(n % 0x1000, k, fileIndex) == MakeRndHandle(n, k, fileIndex) by { ModTwice(n); }
    hide *;
  }

  lemma ModTwice(n: nat)
    ensures n % 0x1000 % 0x1000 == n % 0x1000
  {
  }

  lemma ShiftedPage(n: nat, p: nat, q: nat)
    requires p <= q < 0x1000
    ensures (n + (q - p)) % 0x1000 == q <==> n % 0x1000 == p
  {
    var d, r := q - p, n % 0x1000;
    DivMod(n, 0x1000);
    if r + d < 0x1000 {
      ModUnique(0x1000, n / 0x1000, r + d);
    } else {
      ModUnique(0x1000, n / 0x1000 + 1, r + d - 0x1000);
    }
  }

  /** A search that goes on from the cursor gives right handles if and only if the number kept
      for the page is its own, or nothing is left to find. */
  lemma CursorRightIff(f: RandomFile, filter: int -> bool)
    requires f.Valid() && Usable(SearchOf(f, filter)) && !Lost(f) && f.curPageno >= 0
    ensures |Remaining(f, filter)| == |Found(f.pages, f.curDirPage, f.curPageno, f.pageRecord, SearchOf(f, filter))|
    ensures (forall a | 0 <= a < |Remaining(f, filter)| ::
        Named(Remaining(f, filter)[a]) ==
          Found(f.pages, f.curDirPage, f.curPageno, f.pageRecord, SearchOf(f, filter))[a]) <==>
      f.curPageno % 0x1000 == f.curDirPage || Remaining(f, filter) == []
  {
    hide FileSound, RandomFile.Sound, Matches, Found, Named;
    EntriesFit(f);
    HandlesRightIff(f.pages, f.curDirPage, f.curPageno, f.pageRecord, SearchOf(f, filter));
  }

  /** The handle of a position, were it a record. */
  function LowestHandle(p: nat, j: nat, fileIndex: nat): int
  {
    fileIndex + (if j < 0x200 then j else 0x200) * 0x400 + p * 0x8_0000
  }

  // ----- The cursor -----

  ghost predicate Lost(f: RandomFile)
    reads f
  {
    f.curDirPage < 0 || f.curEntry < 0 || f.curEntry != f.pageRecord
  }

  function SearchOf(f: RandomFile, filter: int -> bool): Search
    reads f
  {
    Search(f.fileIndex, f.target, f.curMask, 2 * f.header.lprm, filter)
  }

  /** What the following searches will find. */
  ghost function Remaining(f: RandomFile, filter: int -> bool): seq<int>
    requires Usable(SearchOf(f, filter))
    reads f
  {
    if Lost(f) || f.curPageno < 0 then []
    else Matches(f.pages, f.curDirPage, f.curPageno, f.pageRecord, SearchOf(f, filter))
  }

  /** The cursor when a search found nothing more. */
  ghost predicate Exhausted(f: RandomFile)
    reads f
  {
    f.curDirPage < 0 && f.pageRecord == 0
  }

  /** The comparison of an entry with the target. */
  method Compare(entry: seq<word>, s: Search) returns (found: bool)
    requires Usable(s) && |entry| == s.width && IdtypOf(entry[0]) < 127
    ensures found == EntryMatches(entry, s)
  {
    hide Or, And, Xor;
    var differs := 0;
    for i := 0 to s.width
      invariant differs == 0 <==> forall k | 0 <= k < i :: And(Xor(entry[k], s.target[k]), s.mask[k]) == 0
    {
      OrZero(differs, And(Xor(entry[i], s.target[i]), s.mask[i]));
      differs := Or(differs, And(Xor(entry[i], s.target[i]), s.mask[i]));
    }
    found := differs == 0;
  }

  lemma OrZero(a: nat, b: nat)
    ensures Or(a, b) == 0 <==> a == 0 && b == 0
  {
  }

  /** Moves the cursor to the next page, if there is one. */
  method NextPage(f: RandomFile, filter: int -> bool)
    requires Usable(SearchOf(f, filter)) && !Lost(f) && f.curDirPage < |f.pages| && f.curPageno >= 0
    requires f.pageRecord >= f.pages[f.curDirPage].nent
    modifies f`curDirPage, f`curEntry, f`curPageno, f`pageRecord, f`pageNrecords
    ensures Remaining(f, filter) == old(Remaining(f, filter)) && f.curPageno >= 0 && f.curEntry >= 0
    ensures f.curDirPage == if old(f.curDirPage) + 1 < |f.pages| then old(f.curDirPage) + 1 else -1
    ensures f.pageRecord == 0 && (f.curDirPage >= 0 ==> f.curEntry == 0 && f.pageNrecords == f.pages[f.curDirPage].nent)
  {
    hide IsMatch, MakeRndHandle;
    ghost var s := SearchOf(f, filter);
    if f.curDirPage + 1 == |f.pages| { NoMorePages(f.pages, f.curDirPage, f.curPageno, f.curEntry, s); }
    f.pageRecord, f.pageNrecords := 0, 0;
    f.curDirPage := if f.curDirPage + 1 < |f.pages| then f.curDirPage + 1 else -1;
    if f.curDirPage >= 0 {
      f.curPageno := f.curPageno + 1;
      f.pageNrecords := f.pages[f.curDirPage].nent;
      f.curEntry := 0;
    }
  }

  method TryEntry(page: Page, n: nat, j: nat, s: Search) returns (found: bool)
    requires Usable(s) && j < |page.entries| && |page.entries[j]| == s.width
    ensures found == IsMatch(page, n, j, s)
  {
    found := false;
    if IdtypOf(page.entries[j][0]) < 127 {
      found := Compare(page.entries[j], s);
      if found {
        var handle := MakeRndHandle(n, j, s.fileIndex);
        found := found && s.filter(handle);
      }
    }
  }

  /** `next_match`: the next match, with the cursor after it. */
  method NextMatch(f: RandomFile, filter: int -> bool) returns (ret: int)
    requires f.Valid() && f.validTarget && Usable(SearchOf(f, filter)) && (Lost(f) || f.curPageno >= 0)
    modifies f`curDirPage, f`curEntry, f`curPageno, f`pageRecord, f`pageNrecords
    ensures f.Valid() && (Lost(f) || f.curPageno >= 0)
    ensures old(Lost(f)) ==> ret == ERR_NO_POS && Lost(f)
    ensures !old(Lost(f)) ==> var all := old(Remaining(f, filter));
      if all == [] then ret == ERR_NOT_FOUND && Exhausted(f)
      else ret == all[0] && !Lost(f) && Remaining(f, filter) == all[1..]
  {
    hide FileSound, RandomFile.Sound, EntryMatches, MakeRndHandle, IsMatch;
    if f.curDirPage < 0 || f.curEntry < 0 || f.curEntry != f.pageRecord { return ERR_NO_POS; }
    ghost var all, s := Remaining(f, filter), SearchOf(f, filter);
    EntriesFit(f);
    f.pageNrecords := f.pages[f.curDirPage].nent;
    var found := false;
    while !found
      invariant 0 <= f.curDirPage < |f.pages| && f.curPageno >= 0 && f.curEntry == f.pageRecord
      invariant f.pageNrecords == f.pages[f.curDirPage].nent
      invariant if found then f.pageRecord >= 1 &&
        all == [MakeRndHandle(f.curPageno, f.pageRecord - 1, f.fileIndex)] + Remaining(f, filter)
        else all == Remaining(f, filter)
      decreases !found, |f.pages| - f.curDirPage, f.pageNrecords - f.pageRecord
    {
      if f.pageRecord >= f.pageNrecords {
        NextPage(f, filter);
        if f.curDirPage < 0 { break; }
      } else {
        found := TryEntry(f.pages[f.curDirPage], f.curPageno, f.pageRecord, SearchOf(f, filter));
        f.pageRecord := f.pageRecord + 1;
        f.curEntry := f.curEntry + 1;
      }
    }
    if !found { return ERR_NOT_FOUND; }
    ret := MakeRndHandle(f.curPageno, f.pageRecord - 1, f.fileIndex);
  }

  lemma NoMorePages(pages: seq<Page>, p: nat, n: nat, j: nat, s: Search)
    requires Usable(s) && p + 1 == |pages| && j >= pages[p].nent
    ensures Matches(pages, p, n, j, s) == []
  {
  }

  lemma EntriesFit(f: RandomFile)
    requires f.Valid()
    ensures |f.pages| <= MAX_DIR_PAGES && 2 <= f.header.lprm <= 16 && 1 <= f.fileIndex < 0x400
    ensures forall p: nat, j: nat {:trigger f.pages[p].entries[j]} | p < |f.pages| && j < f.pages[p].nent ::
      j < |f.pages[p].entries| && |f.pages[p].entries[j]| == 2 * f.header.lprm
    ensures forall p: nat {:trigger f.pages[p]} | p < |f.pages| ::
      f.pages[p].nent <= |f.pages[p].entries| == ENTRIES_PER_PAGE
  {
    hide FileSound, RandomFile.CursorSound;
    f.SoundRoom();
    forall p: nat, j: nat | p < |f.pages| && j < f.pages[p].nent
      ensures j < |f.pages[p].entries| && |f.pages[p].entries[j]| == 2 * f.header.lprm
    {
      f.SoundEntry(p, j);
    }
  }

  /** A new search target and its mask, as `build_primary` stores them. */
  datatype Request = Same | New(target: seq<word>, mask: seq<word>)

  ghost predicate RequestFits(r: Request)
  {
    r.New? ==> |r.target| == |r.mask| == MAX_PRIMARY_LNG
  }

  /** Where a search from a handle starts: from the beginning for 0, after the record for a
      handle, from the cursor for -1. */
  ghost function LocateError(f: RandomFile, handle: int, r: Request): int
    reads f
  {
    if handle > 0 && IndexFromHandle(handle) != f.fileIndex then ERR_BAD_HNDL
    else if handle == -1 && (f.curEntry < 0 || f.curPageno < 0) then ERR_NO_POS
    else if handle < -1 then ERR_BAD_HNDL
    else if handle > 0 && PagenoFromHandle(handle) != f.curPageno &&
      PagenoFromHandle(handle) >= |f.pages| then ERR_BAD_PAGENO
    else if r == Same && !f.validTarget then ERR_NO_TARGET
    else 0
  }

  /** -9 for the handle of another file or one below -1, -25 for -1 without a position, -8 for a page that is
      not there, unless the cursor is in it, and -31 when there is nothing to look for. */
  lemma LocateErrors(f: RandomFile, handle: int, r: Request)
    ensures var error, page := LocateError(f, handle, r), handle / 0x8_0000 % 0x1000;
      var elsewhere, lost := handle > 0 && handle % 0x400 != f.fileIndex, f.curEntry < 0 || f.curPageno < 0;
      (error == -9 <==> elsewhere || handle < -1) &&
      (error == -25 <==> handle == -1 && lost) &&
      (error == -8 <==> handle > 0 && !elsewhere && page != f.curPageno && page >= |f.pages|) &&
      (error == -31 <==> error !in {-8, -9, -25} && r == Same && !f.validTarget) &&
      error in {0, -8, -9, -25, -31}
  {
  }

  ghost function SearchAfter(f: RandomFile, r: Request, filter: int -> bool): Search
    reads f
  {
    match r
    case Same => SearchOf(f, filter)
    case New(target, mask) => Search(f.fileIndex, target, mask, 2 * f.header.lprm, filter)
  }

  /** What a search finds from then on. */
  ghost function Expected(f: RandomFile, handle: int, r: Request, filter: int -> bool): seq<int>
    requires Usable(SearchAfter(f, r, filter))
    reads f
  {
    var s := SearchAfter(f, r, filter);
    if handle == -1 then if Lost(f) then [] else Matches(f.pages, f.curDirPage, Natural(f.curPageno), f.pageRecord, s)
    else if handle == 0 then Matches(f.pages, 0, 0, 0, s)
    else Matches(f.pages, PagenoFromHandle(handle), PagenoFromHandle(handle), RecordFromHandle(handle) + 1, s)
  }

  function Natural(x: int): nat
  {
    if x < 0 then 0 else x
  }

  /** `c_xdfloc2`.  A handle that names a page past the end must not name the page the cursor
      believes to be in, for the source then does without the check. */
  method Locate(f: RandomFile, handle: int, r: Request, filter: int -> bool) returns (ret: int)
    requires f.Valid() && RequestFits(r)
    requires handle > 0 && PagenoFromHandle(handle) == f.curPageno ==> f.curPageno < |f.pages|
    modifies f`curDirPage, f`curEntry, f`curPageno, f`pageRecord, f`pageNrecords, f`target, f`curMask, f`validTarget
    ensures f.Valid()
    ensures old(LocateError(f, handle, r)) != 0 ==> ret == old(LocateError(f, handle, r))
    ensures old(LocateError(f, handle, r)) == 0 ==>
      f.validTarget && Usable(SearchOf(f, filter)) && SearchOf(f, filter) == old(SearchAfter(f, r, filter))
    ensures old(LocateError(f, handle, r)) == 0 ==> Usable(old(SearchAfter(f, r, filter)))
    ensures handle == -1 && r == Same && old(f.validTarget) ==>
      f.validTarget && SearchOf(f, filter) == old(SearchOf(f, filter))
    ensures handle == -1 && r == Same && old(f.validTarget) ==>
      Usable(SearchOf(f, filter)) && Usable(old(SearchOf(f, filter)))
    ensures handle == -1 && r == Same && old(f.validTarget) ==>
      Answers(old(Remaining(f, filter)), ret, Remaining(f, filter))
    ensures old(LocateError(f, handle, r)) == 0 ==>
      Answers(old(Expected(f, handle, r, filter)), ret, Remaining(f, filter))
    ensures old(LocateError(f, handle, r)) == 0 && 0 <= handle < 0x8000_0000 ==>
      NextAfter(Matches(f.pages, 0, 0, 0, SearchOf(f, filter)), handle, ret)
  {
    hide FileSound, RandomFile.Sound, Matches, MakeRndHandle, IndexFromHandle, RecordFromHandle, PagenoFromHandle;
    hide NextAfter;
    f.SoundRoom();
    EntriesFit(f);
    var record, pageno := 0, 0;
    if handle > 0 {
      record, pageno := RecordFromHandle(handle) + 1, PagenoFromHandle(handle);
      if IndexFromHandle(handle) != f.fileIndex { return ERR_BAD_HNDL; }
    } else if handle == 0 {
      f.curPageno := -1;
    } else if handle == -1 {
      if f.curEntry < 0 || f.curPageno < 0 { return ERR_NO_POS; }
    } else {
      return ERR_BAD_HNDL;
    }
    if r.New? { f.target, f.curMask, f.validTarget := r.target, r.mask, true; }
    if handle != -1 {
      var ok := PlaceCursor(f, pageno, record);
      if !ok { return ERR_BAD_PAGENO; }
    }
    if f.curEntry < 0 || f.curPageno < 0 { return ERR_NO_POS; }
    if !f.validTarget { return ERR_NO_TARGET; }
    ret := NextMatch(f, filter);
    if 0 <= handle < 0x8000_0000 { AfterPosition(f.pages, handle, SearchOf(f, filter), ret); }
  }

  lemma AfterPosition(pages: seq<Page>, handle: nat, s: Search, ret: int)
    requires Usable(s) && |pages| <= 0x1000 && 1 <= s.fileIndex < 0x400 && handle < 0x8000_0000
    requires forall q | 0 <= q < |pages| :: pages[q].nent <= |pages[q].entries| <= ENTRIES_PER_PAGE
    requires handle > 0 ==> IndexFromHandle(handle) == s.fileIndex && PagenoFromHandle(handle) < |pages|
    requires var p, j := PagenoFromHandle(handle), RecordFromHandle(handle) + 1;
      var rest := if handle == 0 then Matches(pages, 0, 0, 0, s) else Matches(pages, p, p, j, s);
      ret == if rest == [] then ERR_NOT_FOUND else rest[0]
    ensures NextAfter(Matches(pages, 0, 0, 0, s), handle, ret)
  {
    hide Matches, IndexFromHandle, PagenoFromHandle, RecordFromHandle;
    if handle == 0 { MatchesAscend(pages, 0, 0, 0, s); } else { AfterHandle(pages, handle, s, ret); }
  }

  /** Puts the cursor on a record of a page. */
  method PlaceCursor(f: RandomFile, pageno: nat, record: nat) returns (ok: bool)
    requires f.CursorSound() && (pageno == f.curPageno ==> pageno < |f.pages|)
    modifies f`curDirPage, f`curEntry, f`curPageno, f`pageRecord
    ensures f.CursorSound() && ok == (pageno < |f.pages|)
    ensures ok ==> f.curDirPage == f.curPageno == pageno && f.curEntry == f.pageRecord == record
  {
    if pageno != f.curPageno {
      if pageno >= |f.pages| {
        f.curEntry := -1;
        return false;
      }
      f.curDirPage, f.curPageno := pageno, pageno;
    } else {
      f.curDirPage := f.curPageno;
    }
    f.curEntry, f.pageRecord, ok := record, record, true;
  }

  /** The answers of a search: the next match, or that there is none or no position. */
  ghost predicate Answers(all: seq<int>, ret: int, remaining: seq<int>)
  {
    if all == [] then ret in {ERR_NOT_FOUND, ERR_NO_POS} && remaining == [] else ret == all[0] && remaining == all[1..]
  }

  // ----- Enumeration -----

  /** `c_fstsui` */
  method Next(f: RandomFile, filter: int -> bool) returns (ret: int)
    requires f.Valid() && f.validTarget && Usable(SearchOf(f, filter))
    modifies f`curDirPage, f`curEntry, f`curPageno, f`pageRecord, f`pageNrecords, f`target, f`curMask, f`validTarget
    ensures f.Valid() && f.validTarget && SearchOf(f, filter) == old(SearchOf(f, filter))
    ensures Answers(old(Remaining(f, filter)), ret, Remaining(f, filter))
  {
    hide FileSound, RandomFile.Sound, RandomFile.Valid, Matches, Lost;
    ret := Locate(f, -1, Same, filter);
  }

  lemma {:induction false} NonNegative(pages: seq<Page>, p: nat, n: nat, j: nat, s: Search)
    requires Usable(s)
    ensures forall a | 0 <= a < |Matches(pages, p, n, j, s)| :: Matches(pages, p, n, j, s)[a] >= 0
    decreases |pages| - p, if p < |pages| then pages[p].nent - j else 0
  {
    hide IsMatch, MakeRndHandle;
    if p < |pages| {
      if j >= pages[p].nent || j >= |pages[p].entries| {
        NonNegative(pages, p + 1, n + 1, 0, s);
      } else {
        NonNegative(pages, p, n, j + 1, s);
      }
    }
  }

  /** The state of an enumeration. */
  ghost predicate Ready(f: RandomFile, s: Search, filter: int -> bool)
    reads f
  {
    f.Valid() && f.validTarget && Usable(s) && SearchOf(f, filter) == s
  }

  /** Counts the matches that are left. */
  method CountRest(f: RandomFile, filter: int -> bool, ghost s: Search, ghost rest: seq<int>) returns (n: nat)
    requires Ready(f, s, filter) && Remaining(f, filter) == rest && forall a | 0 <= a < |rest| :: rest[a] >= 0
    modifies f`curDirPage, f`curEntry, f`curPageno, f`pageRecord, f`pageNrecords, f`target, f`curMask, f`validTarget
    ensures Ready(f, s, filter) && n == |rest|
  {
    hide FileSound, RandomFile.Sound, RandomFile.Valid, Matches, Lost, Remaining;
    n := 0;
    var handle := Next(f, filter);
    while handle >= 0
      invariant Ready(f, s, filter) && n <= |rest|
      invariant if n < |rest| then handle == rest[n] && Remaining(f, filter) == rest[n + 1..] else handle < 0
      decreases |rest| - n
    {
      n := n + 1;
      handle := Next(f, filter);
    }
  }

  /** `c_fstinl`: a search from the beginning, then further ones (`c_fstsui`) as long as they
      find something.  With no room in the list the first match goes uncounted. */
  method List(f: RandomFile, target: seq<word>, mask: seq<word>, filter: int -> bool, nmax: nat)
    returns (ret: int, liste: seq<int>)
    requires f.Valid() && |target| == |mask| == MAX_PRIMARY_LNG
    modifies f`curDirPage, f`curEntry, f`curPageno, f`pageRecord, f`pageNrecords, f`target, f`curMask, f`validTarget
    ensures f.Valid() && Usable(SearchOf(f, filter)) && f.target == target && f.curMask == mask
    ensures var all := Matches(f.pages, 0, 0, 0, SearchOf(f, filter));
      liste == (if |all| > nmax then all[..nmax] else all) &&
      ret == if |all| <= nmax then 0 else if nmax >= 1 then -|all| else -(|all| - 1)
  {
    hide FileSound, RandomFile.Sound, RandomFile.Valid, Matches, Lost, RandomFile.CursorSound, Remaining;
    EntriesFit(f);
    ghost var s := Search(f.fileIndex, target, mask, 2 * f.header.lprm, filter);
    ghost var all := Matches(f.pages, 0, 0, 0, s);
    NonNegative(f.pages, 0, 0, 0, s);
    var handle := Locate(f, 0, New(target, mask), filter);
    var nfound := 0;
    liste := [];
    while handle >= 0 && nfound < nmax
      invariant Ready(f, s, filter) && nfound == |liste| <= nmax && nfound <= |all| && liste == all[..nfound]
      invariant (nfound < nmax || nmax == 0)
      invariant if nfound < |all| then handle == all[nfound] && Remaining(f, filter) == all[nfound + 1..]
        else handle < 0 && Remaining(f, filter) == []
      decreases nmax - nfound
    {
      liste := liste + [handle];
      nfound := nfound + 1;
      assert liste == all[..nfound];
      if nfound >= nmax { break; }
      handle := Next(f, filter);
    }
    assert all[..|all|] == all;
    ghost var rest := Remaining(f, filter);
    var more := CountRest(f, filter, s, rest);
    nfound := nfound + more;
    ret := if nfound > nmax then -nfound else 0;
  }

  // ----- A search that goes on after a new page -----

  /** A buffer that a search looks for, whatever its address. */
  predicate Sought(data: seq<word>, s: Search)
    requires Usable(s)
  {
    s.width <= |data| && s.mask[0] == 0 && s.mask[1] == 0 && forall i | 2 <= i < s.width ::
      And(Xor(data[i], s.target[i]), s.mask[i]) == 0
  }

  /** After a search found nothing more in a file whose last page is full, a record is added that
      the search looks for.  Going on finds it, with the handle of the first record of the page
      before. */
  method StalePage(f: RandomFile, data: array<word>, nbits: nat, filter: int -> bool) returns (ret: int)
    requires f.Valid() && f.validTarget && Exhausted(f) && |f.extents| == STRIDE * |f.pages|
    requires |f.pages| < MAX_DIR_PAGES
    requires f.header.rwflg != RDMODE && !f.readOnly && f.header.neff + 1 < WORD_BASE
    requires nbits % 64 == 0 && IsBuffer(data[..], nbits / 32, f.header.lprm)
    requires f.header.fsiz + 1 + PageUnits(f.header.lprm) + nbits / 64 < 0x4000_0000
    requires Usable(SearchOf(f, filter)) && Sought(data[..], SearchOf(f, filter))
    requires filter(MakeRndHandle(|f.pages| - 1, 0, f.fileIndex))
    modifies f, data
    ensures f.Valid() && |f.pages| == |old(f.pages)| + 1 >= 2 && |f.extents| == |old(f.extents)| + 2
    ensures f.extents[|f.extents| - 1] == RecordAt(f.extents, |f.pages| - 1, 0)
    ensures RecordAt(f.extents, |f.pages| - 1, 0).body == old(data[2..nbits / 32])
    ensures ret >= 0 && IndexFromHandle(ret) == f.fileIndex && Named(ret) == (|f.pages| - 2, 0)
  {
    hide FileSound, RandomFile.Sound, Matches, MakeRndHandle, IndexFromHandle, RecordFromHandle, PagenoFromHandle;
    hide EntryMatches;
    ghost var s, n, body, idtyp := SearchOf(f, filter), |f.pages| - 1, data[2..nbits / 32], IdtypOf(data[0]);
    f.SoundRoom();
    FirstHandle(f.pages);
    ghost var buffer := data[..];
    var err := f.Put(0, data, nbits);
    assert RecordAt(f.extents, |f.pages| - 1, 0) == f.extents[|f.extents| - 1];
    NewestMatches(f, s, buffer, nbits / 32);
    FirstMatch(f.pages, n + 1, n, s);
    ret := Next(f, filter);
    EntriesFit(f);
    HandleRoundTrip(n, 0, f.fileIndex);
  }

  lemma FirstHandle(pages: seq<Page>)
    ensures InPage(0, pages) && Magnitude(0) == 0
  {
  }

  lemma NewestMatches(f: RandomFile, s: Search, data: seq<word>, nwords: nat)
    requires f.Valid() && Usable(s) && s.width == 2 * f.header.lprm && IsBuffer(data, nwords, f.header.lprm)
    requires Sought(data, s)
    requires |f.pages| >= 1 && f.pages[|f.pages| - 1].nent == 1
    requires var e := RecordAt(f.extents, |f.pages| - 1, 0);
      e.idtyp == IdtypOf(data[0]) && e.body == data[2..nwords] && !e.deleted && !e.erased
    ensures |f.pages[|f.pages| - 1].entries| >= 1 && EntryMatches(f.pages[|f.pages| - 1].entries[0], s)
  {
    hide FileSound, RandomFile.Sound, And, Xor, EntryOf, IsRecord, Sought;
    var p := |f.pages| - 1;
    var e := RecordAt(f.extents, p, 0);
    f.SoundEntry(p, 0);
    EntryTypeIs(e, f.header.lprm);
    NewestEntry(e, f.header.lprm, s, data, nwords);
  }

  lemma NewestEntry(e: Extent, lprm: nat, s: Search, data: seq<word>, nwords: nat)
    requires Usable(s) && s.width == 2 * lprm >= 4 && IsBuffer(data, nwords, lprm) && Sought(data, s)
    requires e.Record? && IsRecord(e, lprm) && e.addr < WORD_BASE && e.body == data[2..nwords]
    ensures |EntryOf(e, lprm)| == s.width
    ensures forall i | 0 <= i < s.width :: And(Xor(EntryOf(e, lprm)[i], s.target[i]), s.mask[i]) == 0
  {
    hide And, Xor, EntryOf, IsRecord;
    EntryWords(e, lprm);
    var entry := EntryOf(e, lprm);
    NoBits(Xor(entry[0], s.target[0]));
    NoBits(Xor(entry[1], s.target[1]));
    forall i | 2 <= i < s.width ensures And(Xor(entry[i], s.target[i]), s.mask[i]) == 0 {
      assert entry[i] == e.body[i - 2] == data[i];
    }
  }

  lemma NoBits(x: nat)
    ensures And(x, 0) == 0
  {
  }

  lemma EntryWords(e: Extent, lprm: nat)
    requires IsRecord(e, lprm) && lprm >= 1 && e.addr < WORD_BASE
    ensures |EntryOf(e, lprm)| == 2 * lprm && 2 * lprm - 2 <= |e.body|
    ensures forall i | 2 <= i < 2 * lprm :: EntryOf(e, lprm)[i] == e.body[i - 2]
  {
    EntryLength(e, lprm);
  }

  lemma FirstMatch(pages: seq<Page>, p: nat, n: nat, s: Search)
    requires Usable(s) && p < |pages| && pages[p].nent >= 1 && |pages[p].entries| >= 1 && IsMatch(pages[p], n, 0, s)
    ensures Matches(pages, p, n, 0, s) != [] && Matches(pages, p, n, 0, s)[0] == MakeRndHandle(n, 0, s.fileIndex)
  {
    hide IsMatch, MakeRndHandle;
  }

  // ----- Searching, then reading -----

  /** The handle of a match is one that `Get` accepts, unless the record has type 126. */
  lemma MatchIsReadable(f: RandomFile, s: Search, a: nat)
    requires f.Valid() && Usable(s) && s.fileIndex == f.fileIndex && a < |Matches(f.pages, 0, 0, 0, s)|
    ensures var h := Matches(f.pages, 0, 0, 0, s)[a];
      var e := RecordAt(f.extents, PagenoFromHandle(h), RecordFromHandle(h));
      InPage(h, f.pages) && !Leftover(h, f.pages) && !e.deleted && !e.erased &&
      HandleError(h, f.fileIndex, f.pages, f.extents) == if e.idtyp == 126 then ERR_DELETED else 0
  {
    hide FileSound, RandomFile.Sound, Matches, Found, MakeRndHandle, IndexFromHandle, RecordFromHandle;
    hide PagenoFromHandle;
    EntriesFit(f);
    AsMany(f.pages, 0, 0, 0, s);
    FoundAre(f.pages, 0, 0, 0, s, a);
    var (q, k) := Found(f.pages, 0, 0, 0, s)[a];
    HandleRoundTrip(q, k, f.fileIndex);
    f.SoundEntry(q, k);
    EntryTypeIs(RecordAt(f.extents, q, k), f.header.lprm);
    hide RecordAt, EntryOf;
  }
}
