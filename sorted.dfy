/*
 * SortedFile: records kept in key order inside each page by shifting slots;
 * overflow pages are appended at the end of the directory, so there is no
 * order between pages. Search, delete and range search scan linearly.
 */
module Sorted {
  import opened Pages
  import opened Storage

  /** Keys never decrease from a used slot to a later used slot. */
  ghost predicate KeysOrdered(s: seq<Slot>)
  {
    forall a, b :: 0 <= a < b < |s| && s[a].Used? && s[b].Used? ==> s[a].rec.key <= s[b].rec.key
  }

  /** The page invariant of a sorted file: used slots form a prefix with non-decreasing keys. */
  ghost predicate SortedPage(s: seq<Slot>)
  {
    Compact(s) && KeysOrdered(s)
  }

  /** Every page of the store is a sorted page. */
  ghost predicate Ordered(st: Store)
  {
    WellFormed(st) && forall p :: 0 <= p < |st.dataFile| ==> SortedPage(st.dataFile[p])
  }

  /** The first slot that is empty or holds a strictly greater key (|s| if none): where a record with this key goes. */
  function InsertPoint(s: seq<Slot>, key: int): (i: nat)
    ensures i <= |s|
    ensures i < |s| ==> s[i] == Free || s[i].rec.key > key
    ensures forall j :: 0 <= j < i ==> s[j].Used? && s[j].rec.key <= key
  {
    if s == [] then 0
    else if s[0] == Free || s[0].rec.key > key then 0
    else 1 + InsertPoint(s[1..], key)
  }

  /** A page accepts a record only when its last slot is empty. */
  predicate HasRoom(s: seq<Slot>)
    requires |s| == SLOT_COUNT
  {
    s[SLOT_COUNT - 1] == Free
  }

  /** The first page, at position p or later, whose last slot is empty (|dataFile| if none). */
  function FirstWithRoomFrom(st: Store, p: nat): (f: nat)
    requires WellFormed(st) && p <= |st.dataFile|
    decreases |st.dataFile| - p
    ensures p <= f <= |st.dataFile|
    ensures f < |st.dataFile| ==> HasRoom(st.dataFile[f])
    ensures forall q :: p <= q < f ==> !HasRoom(st.dataFile[q])
  {
    if p == |st.dataFile| then p
    else if HasRoom(st.dataFile[p]) then p
    else FirstWithRoomFrom(st, p + 1)
  }

  /** The first page with room is p when p has room and no page before it has. */
  lemma {:induction false} FirstWithRoomIs(st: Store, p: nat)
    requires WellFormed(st) && p <= |st.dataFile|
    requires p < |st.dataFile| ==> HasRoom(st.dataFile[p])
    requires forall q :: 0 <= q < p ==> !HasRoom(st.dataFile[q])
    ensures FirstWithRoomFrom(st, 0) == p
  {
    var f := FirstWithRoomFrom(st, 0);
    assert !(f < p) && !(p < f);
  }

  /** Slots i .. SLOT_COUNT-2 move one place right and the record goes into slot i. */
  function ShiftIn(s: seq<Slot>, i: nat, r: Record): (t: seq<Slot>)
    requires i < |s|
    ensures |t| == |s| && t[i] == Used(r)
  {
    s[..i] + [Used(r)] + s[i..|s| - 1]
  }

  /** Slot i is dropped, later slots move one place left and the last slot becomes free. */
  function ShiftOut(s: seq<Slot>, i: nat): (t: seq<Slot>)
    requires i < |s|
    ensures |t| == |s| && t[|t| - 1] == Free
  {
    s[..i] + s[i + 1..] + [Free]
  }

  /**
   * The store after `insertRecord(r)`: the first page whose last slot is
   * empty takes the record at its insertion point, shifting the slots from
   * there one place right, and its entry's count drops by one; when no page
   * has room a new entry at `offset` holding only the record is appended.
   */
  function Insert(st: Store, r: Record, offset: int): (st': Store)
    requires WellFormed(st)
    ensures WellFormed(st')
  {
    var p := FirstWithRoomFrom(st, 0);
    if p < |st.dataFile| then
      var s := st.dataFile[p];
      var i := InsertPoint(s, r.key);
      assert i < SLOT_COUNT by { assert s[SLOT_COUNT - 1] == Free; }
      Store(Adjust(st.directory, p, -1), st.dataFile[p := ShiftIn(s, i, r)])
    else
      Store(st.directory + [PageInfo(offset, SLOT_COUNT - 1)], st.dataFile + [NewPage(r)])
  }

  /**
   * `deleteRecord(key)`: whether a record was removed, and the store after.
   * The first used slot with the key is removed, the later slots of its page
   * move one place left, and its entry's count rises by one.
   */
  function Delete(st: Store, key: int): (res: (bool, Store))
    requires WellFormed(st)
    ensures WellFormed(res.1)
  {
    match Locate(st.dataFile, key)
    case None => (false, st)
    case Some(l) =>
      (true, Store(Adjust(st.directory, l.page, 1),
                   st.dataFile[l.page := ShiftOut(st.dataFile[l.page], l.slot)]))
  }

  /** The slots before the insertion point are all used, so the page's scan splits there. */
  lemma {:induction false} InsertPointSplit(s: seq<Slot>, key: int)
    ensures var i := InsertPoint(s, key);
      UsedCount(s[..i]) == i && PageRecords(s) == PageRecords(s[..i]) + PageRecords(s[i..]) &&
      forall k :: 0 <= k < i ==> PageRecords(s[..i])[k] == s[k].rec
  {
    var i := InsertPoint(s, key);
    assert Compact(s[..i]);
    CompactScan(s[..i]);
    UsedCountFull(s[..i]);
    assert s == s[..i] + s[i..];
    PageRecordsConcat(s[..i], s[i..]);
  }

  /** Shifting in at slot i: the scan sees the slots before i, the record, then slots i .. |s|-2. */
  lemma {:induction false} ShiftInScan(s: seq<Slot>, i: nat, r: Record)
    requires i < |s|
    ensures PageRecords(ShiftIn(s, i, r)) == PageRecords(s[..i]) + [r] + PageRecords(s[i..|s| - 1])
  {
    PageRecordsConcat(s[..i] + [Used(r)], s[i..|s| - 1]);
    PageRecordsConcat(s[..i], [Used(r)]);
    assert [Used(r)][1..] == [];
    assert PageRecords([Used(r)]) == [r];
  }

  /** A free last slot adds nothing to the scan of any suffix that contains it. */
  lemma {:induction false} FreeLastSlot(s: seq<Slot>, i: nat)
    requires i < |s| && s[|s| - 1] == Free
    ensures PageRecords(s[i..]) == PageRecords(s[i..|s| - 1])
  {
    var last := |s| - 1;
    assert s[i..] == s[i..last] + [s[last]];
    PageRecordsConcat(s[i..last], [s[last]]);
    assert [s[last]][1..] == [];
    assert PageRecords([s[last]]) == [];
  }

  /**
   * Inserting into a page with an empty last slot: the page's records are its
   * old records with the new one spliced in at the insertion point, every
   * record before it has a key not greater than the new one, and the page
   * holds one more record. (That every later record has a greater key needs
   * a sorted page: see ShiftInKeepsSorted.)
   */
  lemma {:induction false} ShiftInRecords(s: seq<Slot>, r: Record)
    requires |s| == SLOT_COUNT && HasRoom(s)
    ensures var i := InsertPoint(s, r.key);
      var before := PageRecords(s);
      i < |s| && i <= |before| &&
      PageRecords(ShiftIn(s, i, r)) == before[..i] + [r] + before[i..] &&
      UsedCount(ShiftIn(s, i, r)) == UsedCount(s) + 1 &&
      forall k :: 0 <= k < i ==> before[k].key <= r.key
  {
    var i := InsertPoint(s, r.key);
    assert i < |s| by { assert s[|s| - 1] == Free; }
    InsertPointSplit(s, r.key);
    FreeLastSlot(s, i);
    ShiftInScan(s, i, r);
    var before := PageRecords(s);
    var head := PageRecords(s[..i]);
    var tail := PageRecords(s[i..]);
    assert before == head + tail;
    assert |head| == i;
    assert before[..i] == head;
    assert before[i..] == tail;
  }

  /** The insertion point is i when slot i is empty or greater and every slot below is used and not greater. */
  lemma {:induction false} InsertPointIs(s: seq<Slot>, key: int, i: nat)
    requires i < |s| && (s[i] == Free || s[i].rec.key > key)
    requires forall j :: 0 <= j < i ==> s[j].Used? && s[j].rec.key <= key
    ensures InsertPoint(s, key) == i
  {
    var k := InsertPoint(s, key);
    assert !(k < i) && !(i < k);
  }

  /** Opening a gap at slot i and filling it is shifting the record in. */
  lemma {:induction false} FillGap(s: seq<Slot>, i: nat, r: Record)
    requires i < |s|
    ensures (s[..i] + [Free] + s[i..|s| - 1])[i := Used(r)] == ShiftIn(s, i, r)
  {
    var g := s[..i] + [Free] + s[i..|s| - 1];
    assert g[i := Used(r)] == s[..i] + [Used(r)] + s[i..|s| - 1];
  }

  /** Where each slot of the shifted page comes from. */
  lemma {:induction false} ShiftInSlots(s: seq<Slot>, i: nat, r: Record)
    requires i < |s|
    ensures var t := ShiftIn(s, i, r);
      |t| == |s| && t[i] == Used(r) &&
      (forall k :: 0 <= k < i ==> t[k] == s[k]) &&
      (forall k :: i < k < |t| ==> t[k] == s[k - 1])
  {
  }

  /** Shifting in at a slot below which every slot is used keeps the used slots a prefix. */
  lemma {:induction false} ShiftInCompact(s: seq<Slot>, i: nat, r: Record)
    requires i < |s| && Compact(s)
    requires forall j :: 0 <= j < i ==> s[j].Used?
    ensures Compact(ShiftIn(s, i, r))
  {
    var t := ShiftIn(s, i, r);
    ShiftInSlots(s, i, r);
    forall a, b | 0 <= a < b < |t| && t[b].Used? ensures t[a].Used? {
      if a > i {
        assert t[a] == s[a - 1] && t[b] == s[b - 1];
      }
    }
  }

  /** Shifting in at the insertion point keeps keys non-decreasing. */
  lemma {:induction false} ShiftInOrdered(s: seq<Slot>, i: nat, r: Record)
    requires i < |s| && KeysOrdered(s)
    requires forall j :: 0 <= j < i ==> s[j].Used? && s[j].rec.key <= r.key
    requires forall k :: i <= k < |s| && s[k].Used? ==> s[k].rec.key > r.key
    ensures KeysOrdered(ShiftIn(s, i, r))
  {
    var t := ShiftIn(s, i, r);
    ShiftInSlots(s, i, r);
    forall a, b | 0 <= a < b < |t| && t[a].Used? && t[b].Used? ensures t[a].rec.key <= t[b].rec.key {
      if b <= i {
      } else if a <= i {
        assert t[b] == s[b - 1];
      } else {
        assert t[a] == s[a - 1] && t[b] == s[b - 1];
      }
    }
  }

  /** On a sorted page every used slot from the insertion point on holds a strictly greater key. */
  lemma {:induction false} AfterInsertPointGreater(s: seq<Slot>, key: int)
    requires SortedPage(s)
    ensures forall k :: InsertPoint(s, key) <= k < |s| && s[k].Used? ==> s[k].rec.key > key
  {
    var i := InsertPoint(s, key);
    forall k | i <= k < |s| && s[k].Used? ensures s[k].rec.key > key {
      assert s[i].Used?;
    }
  }

  /**
   * On a sorted page the insertion point keeps the page sorted, and every
   * record from the insertion point on has a strictly greater key, so equal
   * keys stay in insertion order.
   */
  lemma {:induction false} ShiftInKeepsSorted(s: seq<Slot>, r: Record)
    requires |s| == SLOT_COUNT && HasRoom(s) && SortedPage(s)
    ensures var i := InsertPoint(s, r.key);
      i < |s| && SortedPage(ShiftIn(s, i, r)) &&
      forall k :: i <= k < |PageRecords(s)| ==> PageRecords(s)[k].key > r.key
  {
    var i := InsertPoint(s, r.key);
    assert i < |s| by { assert s[|s| - 1] == Free; }
    AfterInsertPointGreater(s, r.key);
    ShiftInCompact(s, i, r);
    ShiftInOrdered(s, i, r);
    CompactScan(s);
    UsedCountFull(s);
    var rs := PageRecords(s);
    forall k | i <= k < |rs| ensures rs[k].key > r.key {
      assert s[k] == Used(rs[k]);
    }
  }

  /** Deleting slot i of any page: the page's scan loses exactly that slot's record. */
  lemma {:induction false} ShiftOutRecords(s: seq<Slot>, i: nat)
    requires i < |s|
    ensures PageRecords(ShiftOut(s, i)) == PageRecords(s[..i]) + PageRecords(s[i + 1..])
    ensures PageRecords(s) == PageRecords(s[..i]) + Held(s[i]) + PageRecords(s[i + 1..])
    ensures s[i].Used? ==> UsedCount(ShiftOut(s, i)) == UsedCount(s) - 1
  {
    PageRecordsSplit(s, i);
    PageRecordsConcat(s[..i] + s[i + 1..], [Free]);
    PageRecordsConcat(s[..i], s[i + 1..]);
    assert PageRecords([Free]) == [];
  }

  /** Removing a slot and shifting the rest left keeps a sorted page sorted. */
  lemma {:induction false} ShiftOutKeepsSorted(s: seq<Slot>, i: nat)
    requires i < |s| && SortedPage(s)
    ensures SortedPage(ShiftOut(s, i))
  {
    var t := ShiftOut(s, i);
    assert |t| == |s|;
    assert forall k :: 0 <= k < i ==> t[k] == s[k];
    assert forall k :: i <= k < |s| - 1 ==> t[k] == s[k + 1];
    assert t[|s| - 1] == Free;
    assert Compact(t) by {
      forall a, b | 0 <= a < b < |t| && t[b].Used? ensures t[a].Used? {
        if a >= i {
          assert t[a] == s[a + 1] && t[b] == s[b + 1];
        } else if b >= i {
          assert t[b] == s[b + 1];
        }
      }
    }
    assert KeysOrdered(t) by {
      forall a, b | 0 <= a < b < |t| && t[a].Used? && t[b].Used? ensures t[a].rec.key <= t[b].rec.key {
        if a >= i {
          assert t[a] == s[a + 1] && t[b] == s[b + 1];
        } else if b >= i {
          assert t[b] == s[b + 1];
        }
      }
    }
  }

  /** Keys never decrease along a sequence of records. */
  ghost predicate KeySorted(rs: seq<Record>)
  {
    forall a, b :: 0 <= a < b < |rs| ==> rs[a].key <= rs[b].key
  }

  /** A sorted page lists its records in non-decreasing key order. */
  lemma {:induction false} SortedPageScan(s: seq<Slot>)
    requires SortedPage(s)
    ensures KeySorted(PageRecords(s))
  {
    CompactScan(s);
    UsedCountFull(s);
    var rs := PageRecords(s);
    forall a, b | 0 <= a < b < |rs| ensures rs[a].key <= rs[b].key {
      assert s[a] == Used(rs[a]) && s[b] == Used(rs[b]);
    }
  }

  /** On a page whose used slots form a prefix, the last slot is empty exactly when some slot is. */
  lemma {:induction false} RoomIffNotFull(s: seq<Slot>)
    requires |s| == SLOT_COUNT && Compact(s)
    ensures HasRoom(s) <==> UsedCount(s) < SLOT_COUNT
  {
    CompactScan(s);
    UsedCountFull(s);
    if UsedCount(s) < SLOT_COUNT {
      assert s[FirstFree(s)] == Free;
    }
  }

  /** With accurate accounting on an ordered store, a page has room exactly when its entry advertises a free slot. */
  lemma {:induction false} RoomIffAdvertised(st: Store, p: nat)
    requires Accounted(st) && Ordered(st) && p < |st.directory|
    ensures HasRoom(st.dataFile[p]) <==> st.directory[p].freeSlots > 0
  {
    RoomIffNotFull(st.dataFile[p]);
  }

  /** A fresh page holding one record is a sorted page. */
  lemma {:induction false} NewPageSorted(r: Record)
    ensures SortedPage(NewPage(r))
  {
    NewPageHoldsRecord(r);
    var s := NewPage(r);
    assert forall b :: 0 < b < |s| ==> s[b] == Free;
  }

  /**
   * insertRecord keeps every page sorted: the chosen page by the shift, an
   * appended page because it holds one record, the others untouched.
   */
  lemma {:induction false} InsertKeepsOrder(st: Store, r: Record, offset: int)
    requires Ordered(st)
    ensures Ordered(Insert(st, r, offset))
  {
    var p := FirstWithRoomFrom(st, 0);
    if p < |st.dataFile| {
      ShiftInKeepsSorted(st.dataFile[p], r);
    } else {
      NewPageSorted(r);
    }
  }

  /** insertRecord keeps every entry's free-slot count equal to its page's unused slots. */
  lemma {:induction false} InsertKeepsAccounting(st: Store, r: Record, offset: int)
    requires Accounted(st)
    ensures Accounted(Insert(st, r, offset))
  {
    var p := FirstWithRoomFrom(st, 0);
    if p < |st.dataFile| {
      ShiftInRecords(st.dataFile[p], r);
    } else {
      NewPageHoldsRecord(r);
    }
  }

  /** insertRecord adds the record to the store and removes or alters nothing else. */
  lemma {:induction false} InsertAddsRecord(st: Store, r: Record, offset: int)
    requires WellFormed(st)
    ensures multiset(Records(Insert(st, r, offset).dataFile)) == multiset(Records(st.dataFile)) + multiset{r}
  {
    var p := FirstWithRoomFrom(st, 0);
    if p < |st.dataFile| {
      var s := st.dataFile[p];
      var i := InsertPoint(s, r.key);
      var before := PageRecords(s);
      ShiftInRecords(s, r);
      assert before == before[..i] + before[i..];
      RecordsSplit(st.dataFile, p);
      RecordsUpdate(st.dataFile, p, ShiftIn(s, i, r));
      Splice(Records(st.dataFile[p := ShiftIn(s, i, r)]), Records(st.dataFile),
             Records(st.dataFile[..p]), before[..i], before[i..], Records(st.dataFile[p + 1..]), r);
    } else {
      RecordsAppend(st.dataFile, NewPage(r));
      NewPageHoldsRecord(r);
    }
  }

  /**
   * On an ordered store with accurate accounting, the record goes into the
   * first entry that advertises a free slot, at the first slot that is empty
   * or holds a greater key; the page's records become the old ones with the
   * new record after every key not greater than its own and before every
   * greater one; that entry's count drops by one and no other page or entry
   * changes.
   */
  lemma {:induction false} InsertIntoFirstPageWithRoom(st: Store, r: Record, offset: int, p: nat)
    requires Accounted(st) && Ordered(st) && p < |st.directory|
    requires st.directory[p].freeSlots > 0
    requires forall q :: 0 <= q < p ==> st.directory[q].freeSlots <= 0
    ensures var s := st.dataFile[p];
      var i := InsertPoint(s, r.key);
      var before := PageRecords(s);
      i <= |before| &&
      Insert(st, r, offset) == Store(Adjust(st.directory, p, -1), st.dataFile[p := ShiftIn(s, i, r)]) &&
      PageRecords(ShiftIn(s, i, r)) == before[..i] + [r] + before[i..] &&
      (forall k :: 0 <= k < i ==> before[k].key <= r.key) &&
      (forall k :: i <= k < |before| ==> before[k].key > r.key)
  {
    forall q | 0 <= q < p ensures !HasRoom(st.dataFile[q]) {
      RoomIffAdvertised(st, q);
    }
    RoomIffAdvertised(st, p);
    assert FirstWithRoomFrom(st, 0) == p;
    ShiftInRecords(st.dataFile[p], r);
    ShiftInKeepsSorted(st.dataFile[p], r);
  }

  /**
   * A page whose last slot is used is passed over whatever its keys and
   * whatever free slots its entry advertises: its page and entry are left as
   * they are.
   */
  lemma {:induction false} InsertSkipsPageWithoutRoom(st: Store, r: Record, offset: int, q: nat)
    requires WellFormed(st) && q < |st.dataFile|
    requires st.dataFile[q][SLOT_COUNT - 1].Used?
    ensures q < |Insert(st, r, offset).dataFile|
    ensures Insert(st, r, offset).directory[q] == st.directory[q]
    ensures Insert(st, r, offset).dataFile[q] == st.dataFile[q]
  {
  }

  /**
   * When no page has an empty last slot, exactly one entry is appended, with
   * SLOT_COUNT - 1 free slots and the record in slot 0 of a fresh page; the
   * existing entries and pages keep their order and contents.
   */
  lemma {:induction false} InsertAppendsWhenNoRoom(st: Store, r: Record, offset: int)
    requires WellFormed(st)
    requires forall q :: 0 <= q < |st.dataFile| ==> st.dataFile[q][SLOT_COUNT - 1].Used?
    ensures Insert(st, r, offset) ==
      Store(st.directory + [PageInfo(offset, SLOT_COUNT - 1)], st.dataFile + [NewPage(r)])
  {
  }

  /** Removing slot l.slot of page l.page: the scan is the same with that slot's record left out. */
  lemma {:induction false} DeleteScanOrder(file: seq<seq<Slot>>, l: Loc)
    requires l.page < |file| && l.slot < |file[l.page]| && file[l.page][l.slot].Used?
    ensures var s := file[l.page];
      var A, P, Q, C := Records(file[..l.page]), PageRecords(s[..l.slot]), PageRecords(s[l.slot + 1..]), Records(file[l.page + 1..]);
      Records(file) == A + (P + [s[l.slot].rec] + Q) + C &&
      Records(file[l.page := ShiftOut(s, l.slot)]) == A + (P + Q) + C
  {
    var s := file[l.page];
    RecordsSplit(file, l.page);
    RecordsUpdate(file, l.page, ShiftOut(s, l.slot));
    ShiftOutRecords(s, l.slot);
    assert Held(s[l.slot]) == [s[l.slot].rec];
  }

  /** Removing a used slot takes one occurrence of its record out of the store's contents. */
  lemma {:induction false} DeleteScan(file: seq<seq<Slot>>, l: Loc)
    requires l.page < |file| && l.slot < |file[l.page]| && file[l.page][l.slot].Used?
    ensures var s := file[l.page];
      multiset(Records(file[l.page := ShiftOut(s, l.slot)])) == multiset(Records(file)) - multiset{s[l.slot].rec}
  {
    var s := file[l.page];
    DeleteScanOrder(file, l);
    Splice(Records(file), Records(file[l.page := ShiftOut(s, l.slot)]),
           Records(file[..l.page]), PageRecords(s[..l.slot]), PageRecords(s[l.slot + 1..]), Records(file[l.page + 1..]),
           s[l.slot].rec);
  }


  /**
   * deleteRecord succeeds exactly when searchRecord finds the key; it then
   * removes that very record, one occurrence, and raises its entry's count.
   */
  lemma {:induction false} DeleteRemovesFirstMatch(st: Store, key: int)
    requires WellFormed(st)
    ensures Delete(st, key).0 <==> Lookup(st.dataFile, key).Some?
    ensures Lookup(st.dataFile, key).Some? ==>
      multiset(Records(Delete(st, key).1.dataFile)) ==
        multiset(Records(st.dataFile)) - multiset{Lookup(st.dataFile, key).value}
    ensures Locate(st.dataFile, key).Some? ==>
      Delete(st, key).1.directory == Adjust(st.directory, Locate(st.dataFile, key).value.page, 1)
  {
    if Locate(st.dataFile, key).Some? {
      var l := Locate(st.dataFile, key).value;
      DeleteScan(st.dataFile, l);
    }
  }

  /**
   * When exactly one record holds the key, deleteRecord succeeds and a later
   * searchRecord for the key finds nothing. With duplicate keys only the
   * first is removed, and search then finds the next one.
   */
  lemma {:induction false} DeleteUniqueThenAbsent(st: Store, key: int, x: Record)
    requires WellFormed(st) && x.key == key && multiset(Records(st.dataFile))[x] == 1
    requires forall y :: y in Records(st.dataFile) && y.key == key ==> y == x
    ensures Delete(st, key).0
    ensures Lookup(Delete(st, key).1.dataFile, key) == None
  {
    var after := Delete(st, key).1;
    DeleteRemovesFirstMatch(st, key);
    LookupScansInOrder(st.dataFile, key);
    LookupScansInOrder(after.dataFile, key);
    assert x in Records(st.dataFile);
    assert Lookup(st.dataFile, key) == Some(x);
    assert multiset(Records(after.dataFile))[x] == 0;
    forall y | y in Records(after.dataFile)
      ensures y.key != key
    {
      assert y in multiset(Records(after.dataFile));
      assert y in Records(st.dataFile);
    }
  }

  /** deleteRecord on a key no record has returns false and changes no page and no entry. */
  lemma {:induction false} DeleteAbsentChangesNothing(st: Store, key: int)
    requires WellFormed(st)
    requires forall x :: x in Records(st.dataFile) ==> x.key != key
    ensures Delete(st, key) == (false, st)
  {
    LookupScansInOrder(st.dataFile, key);
  }

  /** deleteRecord keeps every page sorted. */
  lemma {:induction false} DeleteKeepsOrder(st: Store, key: int)
    requires Ordered(st)
    ensures Ordered(Delete(st, key).1)
  {
    match Locate(st.dataFile, key)
    case None =>
    case Some(l) =>
      ShiftOutKeepsSorted(st.dataFile[l.page], l.slot);
  }

  /** deleteRecord keeps every entry's free-slot count equal to its page's unused slots. */
  lemma {:induction false} DeleteKeepsAccounting(st: Store, key: int)
    requires Accounted(st)
    ensures Accounted(Delete(st, key).1)
  {
    match Locate(st.dataFile, key)
    case None =>
    case Some(l) =>
      ShiftOutRecords(st.dataFile[l.page], l.slot);
  }

  /** A record whose key the store does not yet hold is found by search right after it is inserted. */
  lemma {:induction false} InsertThenSearch(st: Store, r: Record, offset: int)
    requires WellFormed(st)
    requires forall x :: x in Records(st.dataFile) ==> x.key != r.key
    ensures Lookup(Insert(st, r, offset).dataFile, r.key) == Some(r)
  {
    var file' := Insert(st, r, offset).dataFile;
    InsertAddsRecord(st, r, offset);
    LookupScansInOrder(file', r.key);
    assert r in multiset(Records(file'));
    var found := FirstWithKey(Records(file'), r.key);
    assert found.value in multiset(Records(file'));
    assert found.value !in multiset(Records(st.dataFile));
  }

  /**
   * With SLOT_COUNT = 4, inserting keys 50, 10 and 30 into an empty store
   * gives one entry advertising one free slot, whose page holds 10, 30, 50
   * in slots 0..2.
   */
  lemma {:induction false} InsertFiftyTenThirty(a: Record, b: Record, c: Record, o1: int, o2: int, o3: int)
    requires SLOT_COUNT == 4
    requires a.key == 50 && b.key == 10 && c.key == 30
    ensures var st := Insert(Insert(Insert(Store([], []), a, o1), b, o2), c, o3);
      st == Store([PageInfo(o1, 1)], [[Used(b), Used(c), Used(a), Free]]) &&
      PageRecords(st.dataFile[0]) == [b, c, a]
  {
    var s1 := [Used(a), Free, Free, Free];
    assert NewPage(a) == s1;
    var st1 := Store([PageInfo(o1, 3)], [s1]);
    assert Insert(Store([], []), a, o1) == st1;
    assert FirstWithRoomFrom(st1, 0) == 0;
    assert InsertPoint(s1, b.key) == 0;
    var s2 := [Used(b), Used(a), Free, Free];
    assert ShiftIn(s1, 0, b) == s2;
    var st2 := Store([PageInfo(o1, 2)], [s2]);
    assert Insert(st1, b, o2) == st2;
    assert FirstWithRoomFrom(st2, 0) == 0;
    assert InsertPoint(s2[1..], c.key) == 0;
    assert InsertPoint(s2, c.key) == 1;
    var s3 := [Used(b), Used(c), Used(a), Free];
    assert ShiftIn(s2, 1, c) == s3;
    assert Insert(st2, c, o3) == Store([PageInfo(o1, 1)], [s3]);
    assert s3[3..][1..] == [] && PageRecords(s3[3..]) == [];
    assert s3[2..][1..] == s3[3..] && PageRecords(s3[2..]) == [a];
    assert s3[1..][1..] == s3[2..] && PageRecords(s3[1..]) == [c, a];
    assert PageRecords(s3) == [b, c, a];
  }

  /** A page that agrees slot by slot with s opened at i is s with a free slot at i and its last slot dropped. */
  lemma {:induction false} GapBySlots(s: seq<Slot>, i: nat, c: seq<Slot>)
    requires i < |s| && |c| == |s| && c[i] == Free
    requires forall k :: 0 <= k < i ==> c[k] == s[k]
    requires forall k :: i < k < |c| ==> c[k] == s[k - 1]
    ensures c == s[..i] + [Free] + s[i..|s| - 1]
  {
    var g := s[..i] + [Free] + s[i..|s| - 1];
    assert forall k :: 0 <= k < |c| ==> c[k] == g[k];
  }

  /** A page that agrees slot by slot with s closed over slot i is ShiftOut(s, i). */
  lemma {:induction false} ClosedBySlots(s: seq<Slot>, i: nat, c: seq<Slot>)
    requires i < |s| && |c| == |s| && c[|c| - 1] == Free
    requires forall k :: 0 <= k < i ==> c[k] == s[k]
    requires forall k :: i <= k < |c| - 1 ==> c[k] == s[k + 1]
    ensures c == ShiftOut(s, i)
  {
    var g := ShiftOut(s, i);
    assert forall k :: 0 <= k < |c| ==> c[k] == g[k];
  }

  /**
   * The down-counting loop of insertRecord: from the last slot down to i+1,
   * each used slot j-1 moves to slot j; slot i ends up free and the old last
   * slot, which must be free, drops off.
   */
  method ShiftRight(page: Page, i: int)
    requires page.Valid() && 0 <= i < SLOT_COUNT
    requires page.Contents()[SLOT_COUNT - 1] == Free
    modifies page.records, page.used
    ensures page.Valid()
    ensures page.Contents() == old(page.Contents())[..i] + [Free] + old(page.Contents())[i..SLOT_COUNT - 1]
  {
    ghost var s := page.Contents();
    var j := SLOT_COUNT - 1;
    while j > i
      invariant i <= j <= SLOT_COUNT - 1
      invariant page.Valid()
      invariant forall k :: 0 <= k < j ==> page.Contents()[k] == s[k]
      invariant page.Contents()[j] == Free
      invariant forall k :: j < k < SLOT_COUNT ==> page.Contents()[k] == s[k - 1]
    {
      if page.IsSlotUsed(j - 1) {
        page.InsertRecord(j, page.GetRecord(j - 1));
        page.DeleteRecord(j - 1);
      }
      j := j - 1;
    }
    GapBySlots(s, i, page.Contents());
  }

  /**
   * The up-counting loop of deleteRecord, run once slot i is cleared: from
   * slot i up to the second last, each used slot j+1 moves to slot j; the
   * last slot ends up free.
   */
  method ShiftLeft(page: Page, i: int)
    requires page.Valid() && 0 <= i < SLOT_COUNT
    requires page.Contents()[i] == Free
    modifies page.records, page.used
    ensures page.Valid()
    ensures page.Contents() == ShiftOut(old(page.Contents()), i)
  {
    ghost var s := page.Contents();
    var j := i;
    while j < SLOT_COUNT - 1
      invariant i <= j <= SLOT_COUNT - 1
      invariant page.Valid()
      invariant forall k :: 0 <= k < i ==> page.Contents()[k] == s[k]
      invariant forall k :: i <= k < j ==> page.Contents()[k] == s[k + 1]
      invariant page.Contents()[j] == Free
      invariant forall k :: j < k < SLOT_COUNT ==> page.Contents()[k] == s[k]
    {
      if page.IsSlotUsed(j + 1) {
        page.InsertRecord(j, page.GetRecord(j + 1));
        page.DeleteRecord(j + 1);
      }
      j := j + 1;
    }
    ClosedBySlots(s, i, page.Contents());
  }

  /**
   * A sorted file (`SortedFile`): the resident page directory and the data
   * file it describes. Every call re-reads the pages it needs into fresh
   * Page objects and writes back the one it changes.
   */
  class SortedFile {
    var directory: seq<PageInfo>
    var dataFile: seq<seq<Slot>>

    ghost predicate Valid()
      reads this
    {
      WellFormed(State())
    }

    function State(): Store
      reads this
    {
      Store(directory, dataFile)
    }

    /** Opening a store: a missing directory file means an empty store. */
    constructor (saved: Option<Store>)
      requires saved.Some? ==> WellFormed(saved.value)
      ensures Valid()
      ensures State() == if saved.Some? then saved.value else Store([], [])
    {
      if saved.Some? {
        directory, dataFile := saved.value.directory, saved.value.dataFile;
      } else {
        directory, dataFile := [], [];
      }
    }

    /**
     * `insertRecord(record)`: in the first page whose last slot is empty,
     * shift the slots from the insertion point one place right and put the
     * record there; a new page, if one is needed, is placed at `newOffset`.
     */
    method InsertRecord(r: Record, newOffset: int)
      requires Valid()
      modifies this
      ensures Valid()
      ensures State() == Insert(old(State()), r, newOffset)
    {
      ghost var st := State();
      var p := 0;
      while p < |directory|
        invariant 0 <= p <= |directory|
        invariant directory == st.directory && dataFile == st.dataFile
        invariant forall q :: 0 <= q < p ==> !HasRoom(st.dataFile[q])
      {
        var page := new Page.Load(dataFile[p]);
        ghost var s := dataFile[p];
        var i := 0;
        while i < SLOT_COUNT
          invariant 0 <= i <= SLOT_COUNT
          invariant directory == st.directory && dataFile == st.dataFile
          invariant page.Valid() && page.Contents() == s
          invariant forall j :: 0 <= j < i ==> s[j].Used? && s[j].rec.key <= r.key
        {
          if !page.IsSlotUsed(i) || page.GetRecord(i).key > r.key {
            if page.IsSlotUsed(SLOT_COUNT - 1) {
              break;
            }
            InsertPointIs(s, r.key, i);
            FirstWithRoomIs(st, p);
            ShiftRight(page, i);
            page.InsertRecord(i, r);
            FillGap(s, i, r);
            directory := Adjust(directory, p, -1);
            dataFile := dataFile[p := page.Contents()];
            return;
          }
          i := i + 1;
        }
        assert !HasRoom(s);
        p := p + 1;
      }
      FirstWithRoomIs(st, |st.dataFile|);
      var newPage := new Page();
      newPage.InsertRecord(0, r);
      directory := directory + [PageInfo(newOffset, SLOT_COUNT - 1)];
      dataFile := dataFile + [newPage.Contents()];
    }

    /** `searchRecord(key)`: the first used record with the key in directory-then-slot order, or None. */
    method SearchRecord(key: int) returns (found: Option<Record>)
      requires Valid()
      ensures found == FirstWithKey(Records(dataFile), key)
    {
      LookupScansInOrder(dataFile, key);
      var p := 0;
      while p < |directory|
        invariant 0 <= p <= |directory|
        invariant forall q, j :: 0 <= q < p && 0 <= j < SLOT_COUNT ==> !HasKey(dataFile[q][j], key)
      {
        var page := new Page.Load(dataFile[p]);
        var i := 0;
        while i < SLOT_COUNT
          invariant 0 <= i <= SLOT_COUNT
          invariant page.Valid() && page.Contents() == dataFile[p]
          invariant forall j :: 0 <= j < i ==> !HasKey(dataFile[p][j], key)
        {
          if page.IsSlotUsed(i) && page.GetRecord(i).key == key {
            found := Some(page.GetRecord(i));
            LocateAt(dataFile, key, Loc(p, i));
            return;
          }
          i := i + 1;
        }
        p := p + 1;
      }
      LocateNone(dataFile, key);
      found := None;
    }

    /**
     * `deleteRecord(key)`: remove the first used record with the key and
     * shift the later slots of its page one place left; false, and nothing
     * written, if there is none.
     */
    method DeleteRecord(key: int) returns (deleted: bool)
      requires Valid()
      modifies this
      ensures Valid()
      ensures (deleted, State()) == Delete(old(State()), key)
    {
      var p := 0;
      while p < |directory|
        invariant 0 <= p <= |directory|
        invariant directory == old(directory) && dataFile == old(dataFile)
        invariant forall q, j :: 0 <= q < p && 0 <= j < SLOT_COUNT ==> !HasKey(dataFile[q][j], key)
      {
        var page := new Page.Load(dataFile[p]);
        ghost var s := dataFile[p];
        var i := 0;
        while i < SLOT_COUNT
          invariant 0 <= i <= SLOT_COUNT
          invariant directory == old(directory) && dataFile == old(dataFile)
          invariant page.Valid() && page.Contents() == s
          invariant forall j :: 0 <= j < i ==> !HasKey(s[j], key)
        {
          if page.IsSlotUsed(i) && page.GetRecord(i).key == key {
            LocateAt(dataFile, key, Loc(p, i));
            page.DeleteRecord(i);
            ShiftLeft(page, i);
            assert ShiftOut(s[i := Free], i) == ShiftOut(s, i);
            directory := Adjust(directory, p, 1);
            dataFile := dataFile[p := page.Contents()];
            return true;
          }
          i := i + 1;
        }
        p := p + 1;
      }
      return false;
    }

    /** `rangeSearch(lowerBound, upperBound)`: the used records with lowerBound <= key <= upperBound, in scan order. */
    method RangeSearch(lowerBound: int, upperBound: int) returns (result: seq<Record>)
      requires Valid()
      ensures result == InRange(Records(dataFile), lowerBound, upperBound)
    {
      result := [];
      var p := 0;
      while p < |directory|
        invariant 0 <= p <= |directory|
        invariant result == InRange(Records(dataFile[..p]), lowerBound, upperBound)
      {
        var page := new Page.Load(dataFile[p]);
        var i := 0;
        while i < SLOT_COUNT
          invariant 0 <= i <= SLOT_COUNT
          invariant page.Valid() && page.Contents() == dataFile[p]
          invariant result == InRange(Records(dataFile[..p]), lowerBound, upperBound) +
                              InRange(PageRecords(dataFile[p][..i]), lowerBound, upperBound)
        {
          InRangeSlotStep(dataFile[p], i, lowerBound, upperBound);
          if page.IsSlotUsed(i) {
            var record := page.GetRecord(i);
            if record.key >= lowerBound && record.key <= upperBound {
              result := result + [record];
            }
          }
          i := i + 1;
        }
        InRangePageStep(dataFile, p, lowerBound, upperBound);
        p := p + 1;
      }
      assert dataFile[..p] == dataFile;
    }
  }
}
