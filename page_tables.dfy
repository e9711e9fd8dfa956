/**
 * Per-process page tables: one entry per logical page, holding the frame the
 * page sits in (if any) and its present/use/modified bits.
 *
 * The query and update operations are functions on the table's value; the
 * operations the source performs in place on a table array are methods on
 * `array<PageEntry>` whose effect is stated by those functions.
 */
module PageTables {
  import opened Common

  /** One page-table entry. `pageNumber` is its index in a table made by CreatePageTable. */
  datatype PageEntry = PageEntry(
    pageNumber: int,
    frameNumber: Option<int>,
    present: Bit,
    use: Bit,
    modified: Bit)

  /**
   * The fields an updatePageEntry call supplies; None stands for a field left
   * undefined. For the frame number, Some(None) sets it to null.
   */
  datatype EntryUpdate = EntryUpdate(
    frameNumber: Option<Option<int>>,
    present: Option<Bit>,
    use: Option<Bit>,
    modified: Option<Bit>)

  /** Entry `i` of a fresh table: not in memory, every bit 0. */
  function AbsentEntry(i: int): PageEntry {
    PageEntry(i, None, 0, 0, 0)
  }

  /** `page` names an entry of `t`. */
  predicate InRange(t: seq<PageEntry>, page: int) {
    0 <= page < |t|
  }

  /** Every entry stands at the index equal to its page number, and has a frame exactly when present. */
  ghost predicate Shaped(t: seq<PageEntry>) {
    forall i :: 0 <= i < |t| ==> t[i].pageNumber == i && (t[i].present == 1 <==> t[i].frameNumber.Some?)
  }

  /** createPageTable: `numPages` absent entries numbered from 0 (none for a negative count). */
  function CreatePageTable(numPages: int): (t: seq<PageEntry>)
    ensures |t| == if numPages < 0 then 0 else numPages
    ensures forall i :: 0 <= i < |t| ==> t[i].pageNumber == i && t[i].frameNumber.None?
    ensures forall i :: 0 <= i < |t| ==> t[i].present == 0 && t[i].use == 0 && t[i].modified == 0
  {
    seq(if numPages < 0 then 0 else numPages, i => AbsentEntry(i))
  }

  /** A fresh table is shaped and holds no present page. */
  lemma CreatedIsShaped(numPages: int)
    ensures Shaped(CreatePageTable(numPages))
    ensures CountPresentPages(CreatePageTable(numPages)) == 0
  {
    var t := CreatePageTable(numPages);
    PresentCountZero(t);
  }

  /** A table with no present entry counts zero present pages. */
  lemma {:induction false} PresentCountZero(t: seq<PageEntry>)
    requires forall i :: 0 <= i < |t| ==> t[i].present == 0
    ensures CountPresentPages(t) == 0
  {
    if |t| > 0 {
      PresentCountZero(t[1..]);
    }
  }

  /** The entry `e` with the supplied fields of `u` written over it. */
  function ApplyUpdate(e: PageEntry, u: EntryUpdate): PageEntry {
    e.(frameNumber := if u.frameNumber.Some? then u.frameNumber.value else e.frameNumber,
       present := if u.present.Some? then u.present.value else e.present,
       use := if u.use.Some? then u.use.value else e.use,
       modified := if u.modified.Some? then u.modified.value else e.modified)
  }

  /**
   * The table after updatePageEntry(t, page, u): unchanged for a page out of
   * range, otherwise only the supplied fields of that one entry change.
   */
  function Updated(t: seq<PageEntry>, page: int, u: EntryUpdate): (r: seq<PageEntry>)
    ensures |r| == |t|
    ensures forall i :: 0 <= i < |t| && i != page ==> r[i] == t[i]
    ensures !InRange(t, page) ==> r == t
    ensures InRange(t, page) ==> r[page].pageNumber == t[page].pageNumber
    ensures InRange(t, page) && u.frameNumber.Some? ==> r[page].frameNumber == u.frameNumber.value
    ensures InRange(t, page) && u.frameNumber.None? ==> r[page].frameNumber == t[page].frameNumber
    ensures InRange(t, page) && u.present.Some? ==> r[page].present == u.present.value
    ensures InRange(t, page) && u.present.None? ==> r[page].present == t[page].present
    ensures InRange(t, page) && u.use.Some? ==> r[page].use == u.use.value
    ensures InRange(t, page) && u.use.None? ==> r[page].use == t[page].use
    ensures InRange(t, page) && u.modified.Some? ==> r[page].modified == u.modified.value
    ensures InRange(t, page) && u.modified.None? ==> r[page].modified == t[page].modified
  {
    if InRange(t, page) then t[page := ApplyUpdate(t[page], u)] else t
  }

  /** The update markPagePresent supplies. */
  function PresentUpdate(frameNumber: int): EntryUpdate {
    EntryUpdate(Some(Some(frameNumber)), Some(1), Some(1), None)
  }

  /** The update markPageAbsent supplies: the modified bit is not among its fields. */
  function AbsentUpdate(): EntryUpdate {
    EntryUpdate(Some(None), Some(0), Some(0), None)
  }

  /** The update markPageModified supplies. */
  function ModifiedUpdate(): EntryUpdate {
    EntryUpdate(None, None, None, Some(1))
  }

  /** The update markPageUsed supplies. */
  function UsedUpdate(): EntryUpdate {
    EntryUpdate(None, None, Some(1), None)
  }

  /** The update clearPageUseBit supplies. */
  function ClearUseUpdate(): EntryUpdate {
    EntryUpdate(None, None, Some(0), None)
  }

  /** The table after markPagePresent: frame set, present and used; the modified bit is kept. */
  function MarkedPresent(t: seq<PageEntry>, page: int, frameNumber: int): (r: seq<PageEntry>)
    ensures |r| == |t| && forall i :: 0 <= i < |t| && i != page ==> r[i] == t[i]
    ensures InRange(t, page) ==>
      r[page] == PageEntry(t[page].pageNumber, Some(frameNumber), 1, 1, t[page].modified)
    ensures !InRange(t, page) ==> r == t
  {
    Updated(t, page, PresentUpdate(frameNumber))
  }

  /** Marking a page present keeps a table well shaped. */
  lemma PresentKeepsShape(t: seq<PageEntry>, page: int, frameNumber: int)
    requires Shaped(t)
    ensures Shaped(MarkedPresent(t, page, frameNumber))
  {
  }

  /** The table after markPageAbsent: no frame, not present, not used; the modified bit is kept. */
  function MarkedAbsent(t: seq<PageEntry>, page: int): (r: seq<PageEntry>)
    ensures |r| == |t| && forall i :: 0 <= i < |t| && i != page ==> r[i] == t[i]
    ensures InRange(t, page) ==>
      r[page] == PageEntry(t[page].pageNumber, None, 0, 0, t[page].modified)
    ensures !InRange(t, page) ==> r == t
  {
    Updated(t, page, AbsentUpdate())
  }

  /** The table after markPageModified: only the modified bit of that entry is set. */
  function MarkedModified(t: seq<PageEntry>, page: int): (r: seq<PageEntry>)
    ensures |r| == |t| && forall i :: 0 <= i < |t| && i != page ==> r[i] == t[i]
    ensures InRange(t, page) ==> r[page] == t[page].(modified := 1)
    ensures !InRange(t, page) ==> r == t
  {
    Updated(t, page, ModifiedUpdate())
  }

  /** The table after markPageUsed: only the use bit of that entry is set. */
  function MarkedUsed(t: seq<PageEntry>, page: int): (r: seq<PageEntry>)
    ensures |r| == |t| && forall i :: 0 <= i < |t| && i != page ==> r[i] == t[i]
    ensures InRange(t, page) ==> r[page] == t[page].(use := 1)
    ensures !InRange(t, page) ==> r == t
  {
    Updated(t, page, UsedUpdate())
  }

  /** The table after clearPageUseBit: only the use bit of that entry is cleared. */
  function UseBitCleared(t: seq<PageEntry>, page: int): (r: seq<PageEntry>)
    ensures |r| == |t| && forall i :: 0 <= i < |t| && i != page ==> r[i] == t[i]
    ensures InRange(t, page) ==> r[page] == t[page].(use := 0)
    ensures !InRange(t, page) ==> r == t
  {
    Updated(t, page, ClearUseUpdate())
  }

  /** Marking a page present and then absent gives back the entry as it was, save for the use bit. */
  lemma PresentThenAbsent(t: seq<PageEntry>, page: int, frameNumber: int)
    requires InRange(t, page) && t[page].present == 0 && t[page].frameNumber.None?
    ensures MarkedAbsent(MarkedPresent(t, page, frameNumber), page) == t[page := t[page].(use := 0)]
  {
  }

  /** getPageEntry: a copy of the entry, or None out of range. */
  function GetPageEntry(t: seq<PageEntry>, page: int): (r: Option<PageEntry>)
    ensures r.Some? <==> InRange(t, page)
    ensures r.Some? ==> r.value == t[page]
  {
    if InRange(t, page) then Some(t[page]) else None
  }

  /** isPagePresent: false for every page out of range. */
  function IsPagePresent(t: seq<PageEntry>, page: int): (b: bool)
    ensures b <==> InRange(t, page) && t[page].present == 1
  {
    if !InRange(t, page) then false else t[page].present == 1
  }

  /** getFrameNumber: the entry's frame, and None unless the page is present. */
  function GetFrameNumber(t: seq<PageEntry>, page: int): (r: Option<int>)
    ensures !IsPagePresent(t, page) ==> r.None?
    ensures IsPagePresent(t, page) ==> r == t[page].frameNumber
  {
    match GetPageEntry(t, page)
    case Some(e) => if e.present == 1 then e.frameNumber else None
    case None => None
  }

  /** countPresentPages. */
  function CountPresentPages(t: seq<PageEntry>): nat {
    if |t| == 0 then 0
    else (if t[0].present == 1 then 1 else 0) + CountPresentPages(t[1..])
  }

  /** getPresentPages: the present entries, in page order (what it lists: PresentPagesExact). */
  function GetPresentPages(t: seq<PageEntry>): seq<PageEntry> {
    if |t| == 0 then []
    else if t[0].present == 1 then [t[0]] + GetPresentPages(t[1..])
    else GetPresentPages(t[1..])
  }

  /**
   * The entries getPresentPages lists are exactly the present entries of
   * the table. Kept out of the function's own contract so that a caller
   * that only iterates over the list does not carry the quantifier.
   */
  lemma {:induction false} PresentPagesExact(t: seq<PageEntry>)
    ensures forall e :: e in GetPresentPages(t) <==> e in t && e.present == 1
  {
    if |t| > 0 {
      PresentPagesExact(t[1..]);
      assert t == [t[0]] + t[1..];
    }
  }

  /** In a table numbered from `base`, each listed present entry is the table's entry at its own page. */
  lemma {:induction false} PresentPagesAtOwnPage(t: seq<PageEntry>, base: int)
    requires forall i :: 0 <= i < |t| ==> t[i].pageNumber == base + i
    ensures forall e :: e in GetPresentPages(t) ==> base <= e.pageNumber < base + |t| && e == t[e.pageNumber - base]
  {
    if |t| > 0 {
      PresentPagesAtOwnPage(t[1..], base + 1);
      forall e | e in GetPresentPages(t) ensures base <= e.pageNumber < base + |t| && e == t[e.pageNumber - base] {
        if e != t[0] {
          assert e in GetPresentPages(t[1..]);
        }
      }
    }
  }

  /** In a table numbered from `base`, the listed present entries have pages within the table's range. */
  lemma {:induction false} PresentPagesBounded(t: seq<PageEntry>, base: int)
    requires forall i :: 0 <= i < |t| ==> t[i].pageNumber == base + i
    ensures forall a :: 0 <= a < |GetPresentPages(t)| ==> base <= GetPresentPages(t)[a].pageNumber < base + |t|
  {
    if |t| > 0 {
      PresentPagesBounded(t[1..], base + 1);
    }
  }

  /** In a table numbered from `base`, the present entries are listed in strictly increasing page order. */
  lemma {:induction false} PresentPagesInOrder(t: seq<PageEntry>, base: int)
    requires forall i :: 0 <= i < |t| ==> t[i].pageNumber == base + i
    ensures forall a, b :: 0 <= a < b < |GetPresentPages(t)| ==> GetPresentPages(t)[a].pageNumber < GetPresentPages(t)[b].pageNumber
  {
    if |t| > 0 {
      PresentPagesInOrder(t[1..], base + 1);
      PresentPagesBounded(t[1..], base + 1);
      var rest := GetPresentPages(t[1..]);
      if t[0].present == 1 {
        var r := GetPresentPages(t);
        forall a, b | 0 <= a < b < |r| ensures r[a].pageNumber < r[b].pageNumber {
          assert r[b] == rest[b - 1];
          if a > 0 {
            assert r[a] == rest[a - 1];
          }
        }
      }
    }
  }

  /** The present count is the number of present entries listed, and never exceeds the table length. */
  lemma {:induction false} CountIsPresentLength(t: seq<PageEntry>)
    ensures CountPresentPages(t) == |GetPresentPages(t)| <= |t|
  {
    if |t| > 0 {
      CountIsPresentLength(t[1..]);
    }
  }

  /** Entry `e` is present and held in frame `frameNumber`. */
  predicate HoldsFrame(e: PageEntry, frameNumber: int) {
    e.frameNumber == Some(frameNumber) && e.present == 1
  }

  /** findPageByFrame: the page number of the first present entry held in frame `frameNumber`. */
  function FindPageByFrame(t: seq<PageEntry>, frameNumber: int): (r: Option<int>)
    ensures r.None? <==> forall i :: 0 <= i < |t| ==> !HoldsFrame(t[i], frameNumber)
    ensures r.Some? ==> exists i :: 0 <= i < |t| && HoldsFrame(t[i], frameNumber) && t[i].pageNumber == r.value
                                    && forall j :: 0 <= j < i ==> !HoldsFrame(t[j], frameNumber)
  {
    if |t| == 0 then None
    else if HoldsFrame(t[0], frameNumber) then Some(t[0].pageNumber)
    else
      var r := FindPageByFrame(t[1..], frameNumber);
      assert forall i :: 1 <= i < |t| ==> t[i] == t[1..][i - 1];
      if r.Some? then
        var i :| 0 <= i < |t[1..]| && HoldsFrame(t[1..][i], frameNumber) && t[1..][i].pageNumber == r.value
                 && forall j :: 0 <= j < i ==> !HoldsFrame(t[1..][j], frameNumber);
        assert HoldsFrame(t[i + 1], frameNumber) && t[i + 1].pageNumber == r.value;
        assert forall j :: 0 <= j < i + 1 ==> !HoldsFrame(t[j], frameNumber);
        r
      else
        r
  }

  /** After a page is marked present in a frame no other present entry uses, that frame leads back to the page. */
  lemma FindAfterMarkPresent(t: seq<PageEntry>, page: int, frameNumber: int)
    requires Shaped(t) && InRange(t, page)
    requires forall i :: 0 <= i < |t| && t[i].present == 1 ==> t[i].frameNumber != Some(frameNumber)
    ensures FindPageByFrame(MarkedPresent(t, page, frameNumber), frameNumber) == Some(page)
  {
    var r := MarkedPresent(t, page, frameNumber);
    var found := FindPageByFrame(r, frameNumber);
    var i :| 0 <= i < |r| && HoldsFrame(r[i], frameNumber) && r[i].pageNumber == found.value;
    assert i == page;
  }

  /** updatePageEntry on a table array: the array afterwards is Updated of its old contents. */
  method UpdatePageEntry(t: array<PageEntry>, page: int, u: EntryUpdate) returns (ok: bool)
    modifies t
    ensures ok <==> InRange(old(t[..]), page)
    ensures t[..] == Updated(old(t[..]), page, u)
  {
    if page < 0 || page >= t.Length {
      return false;
    }
    var entry := t[page];
    if u.frameNumber.Some? {
      entry := entry.(frameNumber := u.frameNumber.value);
    }
    if u.present.Some? {
      entry := entry.(present := u.present.value);
    }
    if u.use.Some? {
      entry := entry.(use := u.use.value);
    }
    if u.modified.Some? {
      entry := entry.(modified := u.modified.value);
    }
    t[page] := entry;
    return true;
  }

  /** markPagePresent on a table array. */
  method MarkPagePresent(t: array<PageEntry>, page: int, frameNumber: int) returns (ok: bool)
    modifies t
    ensures ok <==> InRange(old(t[..]), page)
    ensures t[..] == MarkedPresent(old(t[..]), page, frameNumber)
  {
    ok := UpdatePageEntry(t, page, PresentUpdate(frameNumber));
  }

  /** markPageAbsent on a table array. */
  method MarkPageAbsent(t: array<PageEntry>, page: int) returns (ok: bool)
    modifies t
    ensures ok <==> InRange(old(t[..]), page)
    ensures t[..] == MarkedAbsent(old(t[..]), page)
  {
    ok := UpdatePageEntry(t, page, AbsentUpdate());
  }

  /** markPageModified on a table array. */
  method MarkPageModified(t: array<PageEntry>, page: int) returns (ok: bool)
    modifies t
    ensures ok <==> InRange(old(t[..]), page)
    ensures t[..] == MarkedModified(old(t[..]), page)
  {
    ok := UpdatePageEntry(t, page, ModifiedUpdate());
  }

  /** markPageUsed on a table array. */
  method MarkPageUsed(t: array<PageEntry>, page: int) returns (ok: bool)
    modifies t
    ensures ok <==> InRange(old(t[..]), page)
    ensures t[..] == MarkedUsed(old(t[..]), page)
  {
    ok := UpdatePageEntry(t, page, UsedUpdate());
  }

  /** clearPageUseBit on a table array. */
  method ClearPageUseBit(t: array<PageEntry>, page: int) returns (ok: bool)
    modifies t
    ensures ok <==> InRange(old(t[..]), page)
    ensures t[..] == UseBitCleared(old(t[..]), page)
  {
    ok := UpdatePageEntry(t, page, ClearUseUpdate());
  }

  /** resetPageTable: every entry goes back to what createPageTable makes, in place. */
  method ResetPageTable(t: array<PageEntry>)
    modifies t
    ensures t[..] == CreatePageTable(t.Length)
  {
    var i := 0;
    while i < t.Length
      invariant 0 <= i <= t.Length
      invariant forall j :: 0 <= j < i ==> t[j] == AbsentEntry(j)
    {
      t[i] := AbsentEntry(i);
      i := i + 1;
    }
  }
}
