/*
 * HeapFile: unordered records, first-fit insertion over the directory's
 * advertised free-slot counts, linear search, delete and range search.
 */
module Heap {
  import opened Pages
  import opened Storage

  /**
   * Entry p takes a new record: it advertises a free slot and its page
   * really has one. An entry that advertises space its page does not have is
   * read and passed over.
   */
  predicate Fits(st: Store, p: nat)
    requires WellFormed(st) && p < |st.directory|
  {
    st.directory[p].freeSlots > 0 && FirstFree(st.dataFile[p]) < SLOT_COUNT
  }

  /** The first entry, at position p or later, that takes a new record (|directory| if none). */
  function FirstFitFrom(st: Store, p: nat): (f: nat)
    requires WellFormed(st) && p <= |st.directory|
    decreases |st.directory| - p
    ensures p <= f <= |st.directory|
    ensures f < |st.directory| ==> Fits(st, f)
    ensures forall q :: p <= q < f ==> !Fits(st, q)
  {
    if p == |st.directory| then p
    else if Fits(st, p) then p
    else FirstFitFrom(st, p + 1)
  }

  /**
   * The store after `insertRecord(r)`: the record goes into the lowest unused
   * slot of the first entry that takes it, whose count drops by one; when no
   * entry takes it, a new entry at `offset` with one record is appended.
   */
  function Insert(st: Store, r: Record, offset: int): (st': Store)
    requires WellFormed(st)
    ensures WellFormed(st')
  {
    var p := FirstFitFrom(st, 0);
    if p < |st.directory| then
      var i := FirstFree(st.dataFile[p]);
      Store(Adjust(st.directory, p, -1), st.dataFile[p := st.dataFile[p][i := Used(r)]])
    else
      Store(st.directory + [PageInfo(offset, SLOT_COUNT - 1)], st.dataFile + [NewPage(r)])
  }

  /**
   * `deleteRecord(key)`: whether a record was removed, and the store after.
   * The first used slot with the key is cleared and its entry's count rises.
   */
  function Delete(st: Store, key: int): (res: (bool, Store))
    requires WellFormed(st)
    ensures WellFormed(res.1)
  {
    match Locate(st.dataFile, key)
    case None => (false, st)
    case Some(l) =>
      (true, Store(Adjust(st.directory, l.page, 1),
                   st.dataFile[l.page := st.dataFile[l.page][l.slot := Free]]))
  }

  /** Under the accounting invariant an entry takes a record exactly when it advertises a free slot. */
  lemma {:induction false} FitsIffAdvertised(st: Store, p: nat)
    requires Accounted(st) && p < |st.directory|
    ensures Fits(st, p) <==> st.directory[p].freeSlots > 0
  {
    UsedCountFull(st.dataFile[p]);
  }

  /** insertRecord keeps every entry's free-slot count equal to its page's unused slots. */
  lemma {:induction false} InsertKeepsAccounting(st: Store, r: Record, offset: int)
    requires Accounted(st)
    ensures Accounted(Insert(st, r, offset))
  {
    var p := FirstFitFrom(st, 0);
    if p < |st.directory| {
      var s := st.dataFile[p];
      PageRecordsUpdate(s, FirstFree(s), Used(r));
    } else {
      NewPageHoldsRecord(r);
    }
  }

  /** insertRecord adds the record to the store and removes or alters nothing else. */
  lemma {:induction false} InsertAddsRecord(st: Store, r: Record, offset: int)
    requires WellFormed(st)
    ensures multiset(Records(Insert(st, r, offset).dataFile)) == multiset(Records(st.dataFile)) + multiset{r}
  {
    var p := FirstFitFrom(st, 0);
    if p < |st.directory| {
      var s := st.dataFile[p];
      var i := FirstFree(s);
      RecordsSplit(st.dataFile, p);
      RecordsUpdate(st.dataFile, p, s[i := Used(r)]);
      PageRecordsUpdate(s, i, Used(r));
      PageRecordsSplit(s, i);
    } else {
      RecordsAppend(st.dataFile, NewPage(r));
      NewPageHoldsRecord(r);
    }
  }

  /**
   * With accurate accounting, the record goes into the first entry that
   * advertises a free slot, at that page's lowest unused slot; that entry's
   * count drops by one and no other slot or entry changes.
   */
  lemma {:induction false} InsertFirstFit(st: Store, r: Record, offset: int, p: nat)
    requires Accounted(st) && p < |st.directory|
    requires st.directory[p].freeSlots > 0
    requires forall q :: 0 <= q < p ==> st.directory[q].freeSlots <= 0
    ensures FirstFree(st.dataFile[p]) < SLOT_COUNT
    ensures Insert(st, r, offset) ==
      Store(Adjust(st.directory, p, -1),
            st.dataFile[p := st.dataFile[p][FirstFree(st.dataFile[p]) := Used(r)]])
  {
    FitsIffAdvertised(st, p);
  }

  /** An entry that advertises a free slot its page does not have is passed over untouched. */
  lemma {:induction false} InsertPassesOverStaleEntry(st: Store, r: Record, offset: int, q: nat)
    requires WellFormed(st) && q < |st.directory|
    requires FirstFree(st.dataFile[q]) == SLOT_COUNT
    ensures q < |Insert(st, r, offset).directory|
    ensures Insert(st, r, offset).directory[q] == st.directory[q]
    ensures Insert(st, r, offset).dataFile[q] == st.dataFile[q]
  {
  }

  /**
   * When no entry advertises a free slot, exactly one entry is appended, with
   * SLOT_COUNT - 1 free slots and the record in slot 0 of a fresh page.
   */
  lemma {:induction false} InsertAppendsWhenNoSpace(st: Store, r: Record, offset: int)
    requires WellFormed(st)
    requires forall q :: 0 <= q < |st.directory| ==> st.directory[q].freeSlots <= 0
    ensures Insert(st, r, offset) ==
      Store(st.directory + [PageInfo(offset, SLOT_COUNT - 1)], st.dataFile + [NewPage(r)])
  {
  }

  /** Clearing slot l.slot of page l.page: the scan is the same with that slot's record left out. */
  lemma {:induction false} ClearScanOrder(file: seq<seq<Slot>>, l: Loc)
    requires l.page < |file| && l.slot < |file[l.page]| && file[l.page][l.slot].Used?
    ensures var s := file[l.page];
      var A, P, Q, C := Records(file[..l.page]), PageRecords(s[..l.slot]), PageRecords(s[l.slot + 1..]), Records(file[l.page + 1..]);
      Records(file) == A + (P + [s[l.slot].rec] + Q) + C &&
      Records(file[l.page := s[l.slot := Free]]) == A + (P + Q) + C
  {
    var s := file[l.page];
    RecordsSplit(file, l.page);
    RecordsUpdate(file, l.page, s[l.slot := Free]);
    PageRecordsSplit(s, l.slot);
    PageRecordsUpdate(s, l.slot, Free);
    var P, Q := PageRecords(s[..l.slot]), PageRecords(s[l.slot + 1..]);
    assert Held(s[l.slot]) == [s[l.slot].rec];
    assert Held(Free) == [] && P + [] == P;
    assert PageRecords(s[l.slot := Free]) == P + Q;
  }

  /** Clearing a used slot takes one occurrence of its record out of the store's contents. */
  lemma {:induction false} ClearScan(file: seq<seq<Slot>>, l: Loc)
    requires l.page < |file| && l.slot < |file[l.page]| && file[l.page][l.slot].Used?
    ensures var s := file[l.page];
      multiset(Records(file[l.page := s[l.slot := Free]])) == multiset(Records(file)) - multiset{s[l.slot].rec}
  {
    var s := file[l.page];
    ClearScanOrder(file, l);
    Splice(Records(file), Records(file[l.page := s[l.slot := Free]]),
           Records(file[..l.page]), PageRecords(s[..l.slot]), PageRecords(s[l.slot + 1..]), Records(file[l.page + 1..]),
           s[l.slot].rec);
  }


  /**
   * deleteRecord succeeds exactly when searchRecord finds the key; it then
   * removes that very record, one occurrence, and raises its entry's count.
   */
  lemma {:induction false} DeleteRemovesFirstMatch(st: Store, key: int)
    requires WellFormed(st)
    ensures Delete(st, key).0 <==> Lookup(st.dataFile, key).Some?
    ensures Lookup(st.dataFile, key).Some? ==>
      multiset(Records(Delete(st, key).1.dataFile)) ==
        multiset(Records(st.dataFile)) - multiset{Lookup(st.dataFile, key).value}
    ensures Locate(st.dataFile, key).Some? ==>
      Delete(st, key).1.directory == Adjust(st.directory, Locate(st.dataFile, key).value.page, 1)
  {
    if Locate(st.dataFile, key).Some? {
      ClearScan(st.dataFile, Locate(st.dataFile, key).value);
    }
  }

  /**
   * When exactly one record holds the key, deleteRecord succeeds and a later
   * searchRecord for the key finds nothing. With duplicate keys only the
   * first is cleared, and search then finds the next one.
   */
  lemma {:induction false} DeleteUniqueThenAbsent(st: Store, key: int, x: Record)
    requires WellFormed(st) && x.key == key && multiset(Records(st.dataFile))[x] == 1
    requires forall y :: y in Records(st.dataFile) && y.key == key ==> y == x
    ensures Delete(st, key).0
    ensures Lookup(Delete(st, key).1.dataFile, key) == None
  {
    var after := Delete(st, key).1;
    DeleteRemovesFirstMatch(st, key);
    LookupScansInOrder(st.dataFile, key);
    LookupScansInOrder(after.dataFile, key);
    assert x in Records(st.dataFile);
    assert Lookup(st.dataFile, key) == Some(x);
    assert multiset(Records(after.dataFile))[x] == 0;
    forall y | y in Records(after.dataFile)
      ensures y.key != key
    {
      assert y in multiset(Records(after.dataFile));
      assert y in Records(st.dataFile);
    }
  }

  /** deleteRecord on a key no record has returns false and changes no page and no entry. */
  lemma {:induction false} DeleteAbsentChangesNothing(st: Store, key: int)
    requires WellFormed(st)
    requires forall x :: x in Records(st.dataFile) ==> x.key != key
    ensures Delete(st, key) == (false, st)
  {
    LookupScansInOrder(st.dataFile, key);
  }

  /** deleteRecord keeps every entry's free-slot count equal to its page's unused slots. */
  lemma {:induction false} DeleteKeepsAccounting(st: Store, key: int)
    requires Accounted(st)
    ensures Accounted(Delete(st, key).1)
  {
    match Locate(st.dataFile, key)
    case None =>
    case Some(l) =>
      PageRecordsUpdate(st.dataFile[l.page], l.slot, Free);
  }

  /**
   * A slot freed by deleteRecord is reused first-fit: when no earlier entry
   * advertises space, the next insert goes into that page, at the freed slot
   * or a lower free one, and no page is appended.
   */
  lemma {:induction false} DeleteThenInsertReusesPage(st: Store, key: int, r: Record, offset: int)
    requires Accounted(st)
    requires Locate(st.dataFile, key).Some?
    requires forall q :: 0 <= q < Locate(st.dataFile, key).value.page ==> st.directory[q].freeSlots <= 0
    ensures var l := Locate(st.dataFile, key).value;
      var st1 := Delete(st, key).1;
      var i := FirstFree(st1.dataFile[l.page]);
      i <= l.slot &&
      Insert(st1, r, offset) ==
        Store(Adjust(st1.directory, l.page, -1), st1.dataFile[l.page := st1.dataFile[l.page][i := Used(r)]]) &&
      ((forall j :: 0 <= j < l.slot ==> st.dataFile[l.page][j].Used?) ==> i == l.slot)
  {
    var l := Locate(st.dataFile, key).value;
    var s := st.dataFile[l.page];
    var s' := s[l.slot := Free];
    var st1 := Store(Adjust(st.directory, l.page, 1), st.dataFile[l.page := s']);
    assert Delete(st, key).1 == st1;
    DeleteKeepsAccounting(st, key);
    UsedCountFull(s);
    assert st1.directory[l.page].freeSlots > 0;
    assert forall q :: 0 <= q < l.page ==> st1.directory[q] == st.directory[q];
    InsertFirstFit(st1, r, offset, l.page);
    var i := FirstFree(s');
    assert st1.dataFile[l.page] == s';
    assert s'[l.slot] == Free;
    assert i <= l.slot;
    if forall j :: 0 <= j < l.slot ==> s[j].Used? {
      assert forall j :: 0 <= j < l.slot ==> s'[j] == s[j];
    }
  }

  /**
   * A store filled by inserts alone: accurate accounting, every page's used
   * slots form a prefix, every page but the last is full, the last is not
   * empty, and the pages hold (entries - 1) * SLOT_COUNT plus the last
   * page's records.
   */
  ghost predicate Packed(st: Store)
  {
    Accounted(st) &&
    (forall p :: 0 <= p < |st.dataFile| ==> Compact(st.dataFile[p])) &&
    (forall p :: 0 <= p < |st.directory| - 1 ==> st.directory[p].freeSlots == 0) &&
    (|st.dataFile| > 0 ==>
      var last := st.dataFile[|st.dataFile| - 1];
      0 < UsedCount(last) &&
      |Records(st.dataFile)| == Capacity(|st.dataFile| - 1) + UsedCount(last))
  }

  /** Number of slots in n pages, n * SLOT_COUNT, built by addition. */
  function Capacity(n: nat): nat
  {
    if n == 0 then 0 else Capacity(n - 1) + SLOT_COUNT
  }

  lemma {:induction false} CapacityIsProduct(n: nat)
    ensures Capacity(n) == n * SLOT_COUNT
  {
    if n > 0 {
      CapacityIsProduct(n - 1);
    }
  }

  /** On a compact page every slot from the population count on is free. */
  lemma {:induction false} CompactTailFree(s: seq<Slot>)
    requires Compact(s)
    ensures forall j :: UsedCount(s) <= j < |s| ==> s[j] == Free
  {
    CompactScan(s);
  }

  /** Filling the lowest free slot of a compact page appends the record to the page's scan. */
  lemma {:induction false} FillCompactPage(s: seq<Slot>, r: Record)
    requires Compact(s) && UsedCount(s) < |s|
    ensures FirstFree(s) == UsedCount(s)
    ensures Compact(s[UsedCount(s) := Used(r)])
    ensures PageRecords(s[UsedCount(s) := Used(r)]) == PageRecords(s) + [r]
  {
    var k := UsedCount(s);
    CompactScan(s);
    CompactTailFree(s);
    var s' := s[k := Used(r)];
    assert Compact(s') by {
      forall a, b | 0 <= a < b < |s'| && s'[b].Used? ensures s'[a].Used? {
        assert b <= k;
      }
    }
    PageRecordsUpdate(s, k, Used(r));
    AllFreeHoldsNothing(s[k + 1..]);
    PageRecordsSplit(s, k);
  }

  /** A packed store whose last entry advertises space takes the record into that last page, after its records. */
  lemma {:induction false} PackedInsertIntoLast(st: Store, r: Record, offset: int)
    requires Packed(st) && |st.directory| > 0
    requires st.directory[|st.directory| - 1].freeSlots > 0
    ensures Packed(Insert(st, r, offset))
    ensures Records(Insert(st, r, offset).dataFile) == Records(st.dataFile) + [r]
  {
    var L := |st.dataFile| - 1;
    var s := st.dataFile[L];
    InsertFirstFit(st, r, offset, L);
    InsertKeepsAccounting(st, r, offset);
    FillCompactPage(s, r);
    var s' := s[UsedCount(s) := Used(r)];
    var st' := Store(Adjust(st.directory, L, -1), st.dataFile[L := s']);
    assert Insert(st, r, offset) == st';
    RecordsLastPage(st.dataFile, s');
    AppendToLast(Records(st.dataFile[..L]), PageRecords(s), r);
    assert forall p :: 0 <= p < L ==> st'.directory[p] == st.directory[p] && st'.dataFile[p] == st.dataFile[p];
    assert st'.dataFile[L] == s';
    assert Records(st'.dataFile) == Records(st.dataFile) + [r];
    assert UsedCount(s') == UsedCount(s) + 1;
    assert |Records(st'.dataFile)| == Capacity(L) + UsedCount(s');
    assert forall p :: 0 <= p < |st'.dataFile| ==> Compact(st'.dataFile[p]);
    assert forall p :: 0 <= p < |st'.directory| - 1 ==> st'.directory[p].freeSlots == 0;
  }

  /** A packed store whose entries all advertise no space gets a new last page holding just the record. */
  lemma {:induction false} PackedInsertAppend(st: Store, r: Record, offset: int)
    requires Packed(st)
    requires |st.directory| == 0 || st.directory[|st.directory| - 1].freeSlots <= 0
    ensures Packed(Insert(st, r, offset))
    ensures Records(Insert(st, r, offset).dataFile) == Records(st.dataFile) + [r]
  {
    var n := |st.directory|;
    InsertAppendsWhenNoSpace(st, r, offset);
    InsertKeepsAccounting(st, r, offset);
    NewPageHoldsRecord(r);
    RecordsAppend(st.dataFile, NewPage(r));
    var st' := Insert(st, r, offset);
    assert st'.dataFile[n] == NewPage(r);
    if n > 0 {
      UsedCountFull(st.dataFile[n - 1]);
      assert UsedCount(st.dataFile[n - 1]) == SLOT_COUNT;
    }
  }

  /** Inserting into a packed store appends the record to the scan order and keeps the store packed. */
  lemma {:induction false} InsertKeepsPacked(st: Store, r: Record, offset: int)
    requires Packed(st)
    ensures Packed(Insert(st, r, offset))
    ensures Records(Insert(st, r, offset).dataFile) == Records(st.dataFile) + [r]
  {
    if |st.directory| > 0 && st.directory[|st.directory| - 1].freeSlots > 0 {
      PackedInsertIntoLast(st, r, offset);
    } else {
      PackedInsertAppend(st, r, offset);
    }
  }

  /** The store after inserting each record in turn; insert k is given offsets[k] for a new page. */
  function InsertEach(st: Store, rs: seq<Record>, offsets: seq<int>): (st': Store)
    requires WellFormed(st) && |offsets| == |rs|
    ensures WellFormed(st')
    decreases |rs|
  {
    if rs == [] then st else InsertEach(Insert(st, rs[0], offsets[0]), rs[1..], offsets[1..])
  }

  lemma {:induction false} InsertEachKeepsPacked(st: Store, rs: seq<Record>, offsets: seq<int>)
    requires Packed(st) && |offsets| == |rs|
    ensures Packed(InsertEach(st, rs, offsets))
    decreases |rs|
  {
    if rs != [] {
      InsertKeepsPacked(st, rs[0], offsets[0]);
      InsertEachKeepsPacked(Insert(st, rs[0], offsets[0]), rs[1..], offsets[1..]);
    }
  }

  /** Inserts into a packed store append the records to the scan, in order. */
  lemma {:induction false} InsertEachAppends(st: Store, rs: seq<Record>, offsets: seq<int>)
    requires Packed(st) && |offsets| == |rs|
    ensures Records(InsertEach(st, rs, offsets).dataFile) == Records(st.dataFile) + rs
    decreases |rs|
  {
    if rs != [] {
      var st1 := Insert(st, rs[0], offsets[0]);
      InsertKeepsPacked(st, rs[0], offsets[0]);
      InsertEachAppends(st1, rs[1..], offsets[1..]);
      AppendChain(Records(st.dataFile), Records(st1.dataFile),
                  Records(InsertEach(st1, rs[1..], offsets[1..]).dataFile), rs[0], rs[1..]);
      assert [rs[0]] + rs[1..] == rs;
    }
  }


  /**
   * From an empty store with no deletes, n inserts fill the pages in
   * directory order: the scan returns the records in insertion order, every
   * entry but the last advertises no free slot, and there are exactly
   * ceil(n / SLOT_COUNT) entries.
   */
  lemma {:induction false} FillFromEmpty(rs: seq<Record>, offsets: seq<int>)
    requires |offsets| == |rs|
    ensures var st := InsertEach(Store([], []), rs, offsets);
      Accounted(st) &&
      Records(st.dataFile) == rs &&
      (forall p :: 0 <= p < |st.directory| - 1 ==> st.directory[p].freeSlots == 0) &&
      (rs == [] ==> st.directory == []) &&
      (rs != [] ==> (|st.directory| - 1) * SLOT_COUNT < |rs| <= |st.directory| * SLOT_COUNT)
  {
    var st := InsertEach(Store([], []), rs, offsets);
    InsertEachKeepsPacked(Store([], []), rs, offsets);
    InsertEachAppends(Store([], []), rs, offsets);
    var n := |st.dataFile|;
    if n > 0 {
      UsedCountFull(st.dataFile[n - 1]);
      CapacityIsProduct(n - 1);
      CapacityIsProduct(n);
    } else {
      assert Records(st.dataFile) == [];
    }
  }

  /** With SLOT_COUNT = 2, three inserts into an empty store give two entries advertising 0 and 1 free slots. */
  lemma {:induction false} ThreeInsertsTwoSlots(rs: seq<Record>, offsets: seq<int>)
    requires SLOT_COUNT == 2
    requires |rs| == 3 && |offsets| == 3
    ensures var st := InsertEach(Store([], []), rs, offsets);
      |st.directory| == 2 && st.directory[0].freeSlots == 0 && st.directory[1].freeSlots == 1
  {
    var st := InsertEach(Store([], []), rs, offsets);
    FillFromEmpty(rs, offsets);
    InsertEachKeepsPacked(Store([], []), rs, offsets);
    InsertEachAppends(Store([], []), rs, offsets);
    var n := |st.directory|;
    assert (n - 1) * SLOT_COUNT == 2 * n - 2 && n * SLOT_COUNT == 2 * n;
    assert Capacity(1) == 2;
    assert |Records(st.dataFile)| == 2 + UsedCount(st.dataFile[1]);
  }

  /** With distinct keys, the first record with a given key in a sequence is the one holding it. */
  lemma {:induction false} FirstWithKeyDistinct(rs: seq<Record>, k: nat)
    requires k < |rs|
    requires forall a, b :: 0 <= a < b < |rs| ==> rs[a].key != rs[b].key
    ensures FirstWithKey(rs, rs[k].key) == Some(rs[k])
  {
    if k > 0 {
      FirstWithKeyDistinct(rs[1..], k - 1);
    }
  }

  /** Inserting records with distinct keys into an empty store, every one is found again by its key. */
  lemma {:induction false} InsertedRecordsAreFound(rs: seq<Record>, offsets: seq<int>, k: nat)
    requires |offsets| == |rs| && k < |rs|
    requires forall a, b :: 0 <= a < b < |rs| ==> rs[a].key != rs[b].key
    ensures Lookup(InsertEach(Store([], []), rs, offsets).dataFile, rs[k].key) == Some(rs[k])
  {
    var st := InsertEach(Store([], []), rs, offsets);
    FillFromEmpty(rs, offsets);
    LookupScansInOrder(st.dataFile, rs[k].key);
    FirstWithKeyDistinct(rs, k);
  }

  /** A record whose key the store does not yet hold is found by search right after it is inserted. */
  lemma {:induction false} InsertThenSearch(st: Store, r: Record, offset: int)
    requires WellFormed(st)
    requires forall x :: x in Records(st.dataFile) ==> x.key != r.key
    ensures Lookup(Insert(st, r, offset).dataFile, r.key) == Some(r)
  {
    var file' := Insert(st, r, offset).dataFile;
    InsertAddsRecord(st, r, offset);
    LookupScansInOrder(file', r.key);
    assert r in multiset(Records(file'));
    var found := FirstWithKey(Records(file'), r.key);
    assert found.value in multiset(Records(file'));
    assert found.value !in multiset(Records(st.dataFile));
  }

  /**
   * A heap file (`HeapFile`): the resident page directory and the data file
   * it describes. Every call re-reads the pages it needs into fresh Page
   * objects and writes back the one it changes.
   */
  class HeapFile {
    var directory: seq<PageInfo>
    var dataFile: seq<seq<Slot>>

    ghost predicate Valid()
      reads this
    {
      WellFormed(State())
    }

    function State(): Store
      reads this
    {
      Store(directory, dataFile)
    }

    /** Opening a store: a missing directory file means an empty store. */
    constructor (saved: Option<Store>)
      requires saved.Some? ==> WellFormed(saved.value)
      ensures Valid()
      ensures State() == if saved.Some? then saved.value else Store([], [])
    {
      if saved.Some? {
        directory, dataFile := saved.value.directory, saved.value.dataFile;
      } else {
        directory, dataFile := [], [];
      }
    }

    /** `insertRecord(record)`; a new page, if one is needed, is placed at `newOffset`. */
    method InsertRecord(r: Record, newOffset: int)
      requires Valid()
      modifies this
      ensures Valid()
      ensures State() == Insert(old(State()), r, newOffset)
    {
      ghost var st := State();
      var p := 0;
      while p < |directory|
        invariant 0 <= p <= |directory|
        invariant directory == st.directory && dataFile == st.dataFile
        invariant forall q :: 0 <= q < p ==> !Fits(st, q)
      {
        if directory[p].freeSlots > 0 {
          var page := new Page.Load(dataFile[p]);
          var i := 0;
          while i < SLOT_COUNT
            invariant 0 <= i <= SLOT_COUNT
            invariant directory == st.directory && dataFile == st.dataFile
            invariant page.Valid() && page.Contents() == dataFile[p]
            invariant forall j :: 0 <= j < i ==> dataFile[p][j].Used?
          {
            if !page.IsSlotUsed(i) {
              assert FirstFree(dataFile[p]) == i;
              assert Fits(st, p);
              assert FirstFitFrom(st, 0) == p;
              page.InsertRecord(i, r);
              directory := Adjust(directory, p, -1);
              dataFile := dataFile[p := page.Contents()];
              return;
            }
            i := i + 1;
          }
        }
        p := p + 1;
      }
      assert FirstFitFrom(st, 0) == |st.directory|;
      var newPage := new Page();
      newPage.InsertRecord(0, r);
      directory := directory + [PageInfo(newOffset, SLOT_COUNT - 1)];
      dataFile := dataFile + [newPage.Contents()];
    }

    /** `searchRecord(key)`: the first used record with the key in directory-then-slot order, or None. */
    method SearchRecord(key: int) returns (found: Option<Record>)
      requires Valid()
      ensures found == FirstWithKey(Records(dataFile), key)
    {
      LookupScansInOrder(dataFile, key);
      var p := 0;
      while p < |directory|
        invariant 0 <= p <= |directory|
        invariant forall q, j :: 0 <= q < p && 0 <= j < SLOT_COUNT ==> !HasKey(dataFile[q][j], key)
      {
        var page := new Page.Load(dataFile[p]);
        var i := 0;
        while i < SLOT_COUNT
          invariant 0 <= i <= SLOT_COUNT
          invariant page.Valid() && page.Contents() == dataFile[p]
          invariant forall j :: 0 <= j < i ==> !HasKey(dataFile[p][j], key)
        {
          if page.IsSlotUsed(i) && page.GetRecord(i).key == key {
            found := Some(page.GetRecord(i));
            LocateAt(dataFile, key, Loc(p, i));
            return;
          }
          i := i + 1;
        }
        p := p + 1;
      }
      LocateNone(dataFile, key);
      found := None;
    }

    /** `deleteRecord(key)`: clear the first used slot with the key; false, and nothing written, if none. */
    method DeleteRecord(key: int) returns (deleted: bool)
      requires Valid()
      modifies this
      ensures Valid()
      ensures (deleted, State()) == Delete(old(State()), key)
    {
      var p := 0;
      while p < |directory|
        invariant 0 <= p <= |directory|
        invariant directory == old(directory) && dataFile == old(dataFile)
        invariant forall q, j :: 0 <= q < p && 0 <= j < SLOT_COUNT ==> !HasKey(dataFile[q][j], key)
      {
        var page := new Page.Load(dataFile[p]);
        var i := 0;
        while i < SLOT_COUNT
          invariant 0 <= i <= SLOT_COUNT
          invariant directory == old(directory) && dataFile == old(dataFile)
          invariant page.Valid() && page.Contents() == dataFile[p]
          invariant forall j :: 0 <= j < i ==> !HasKey(dataFile[p][j], key)
        {
          if page.IsSlotUsed(i) && page.GetRecord(i).key == key {
            LocateAt(dataFile, key, Loc(p, i));
            page.DeleteRecord(i);
            directory := Adjust(directory, p, 1);
            dataFile := dataFile[p := page.Contents()];
            return true;
          }
          i := i + 1;
        }
        p := p + 1;
      }
      return false;
    }

    /** `rangeSearch(lowerBound, upperBound)`: the used records with lowerBound <= key <= upperBound, in scan order. */
    method RangeSearch(lowerBound: int, upperBound: int) returns (result: seq<Record>)
      requires Valid()
      ensures result == InRange(Records(dataFile), lowerBound, upperBound)
    {
      result := [];
      var p := 0;
      while p < |directory|
        invariant 0 <= p <= |directory|
        invariant result == InRange(Records(dataFile[..p]), lowerBound, upperBound)
      {
        var page := new Page.Load(dataFile[p]);
        var i := 0;
        while i < SLOT_COUNT
          invariant 0 <= i <= SLOT_COUNT
          invariant page.Valid() && page.Contents() == dataFile[p]
          invariant result == InRange(Records(dataFile[..p]), lowerBound, upperBound) +
                              InRange(PageRecords(dataFile[p][..i]), lowerBound, upperBound)
        {
          InRangeSlotStep(dataFile[p], i, lowerBound, upperBound);
          if page.IsSlotUsed(i) {
            var record := page.GetRecord(i);
            if record.key >= lowerBound && record.key <= upperBound {
              result := result + [record];
            }
          }
          i := i + 1;
        }
        InRangePageStep(dataFile, p, lowerBound, upperBound);
        p := p + 1;
      }
      assert dataFile[..p] == dataFile;
    }
  }
}
