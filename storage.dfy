/*
 * The state both file organisations share: the page directory and the data
 * file, and the read-only scans (searchRecord, rangeSearch) whose code is the
 * same in HeapFile and SortedFile.
 */
module Storage {
  import opened Pages

  /**
   * A store: the page directory (entry order is scan order) and the data
   * file, one page image per directory entry, in directory order. Reading or
   * writing the page of entry p is lookup or update at position p.
   */
  datatype Store = Store(directory: seq<PageInfo>, dataFile: seq<seq<Slot>>)

  /** One page per directory entry, each of SLOT_COUNT slots. */
  ghost predicate WellFormed(st: Store)
  {
    |st.directory| == |st.dataFile| &&
    forall p :: 0 <= p < |st.dataFile| ==> |st.dataFile[p]| == SLOT_COUNT
  }

  /** Free-slot accounting: every entry advertises exactly the number of unused slots of its page. */
  ghost predicate Accounted(st: Store)
  {
    WellFormed(st) &&
    forall p :: 0 <= p < |st.directory| ==>
      st.directory[p].freeSlots == SLOT_COUNT - UsedCount(st.dataFile[p])
  }

  /** The page a new entry gets when nothing else takes the record: the record in slot 0. */
  function NewPage(r: Record): (s: seq<Slot>)
    ensures |s| == SLOT_COUNT
  {
    EmptyPage()[0 := Used(r)]
  }

  /** A fresh page holding one record: the record, in slot 0, and nothing else. */
  lemma {:induction false} NewPageHoldsRecord(r: Record)
    ensures PageRecords(NewPage(r)) == [r]
    ensures UsedCount(NewPage(r)) == 1
    ensures Compact(NewPage(r))
  {
    var s := NewPage(r);
    assert s == [Used(r)] + s[1..];
    AllFreeHoldsNothing(s[1..]);
  }

  /** Entry p with its free-slot count moved by delta (`setFreeSlots(getFreeSlots() + delta)`). */
  function Adjust(directory: seq<PageInfo>, p: nat, delta: int): seq<PageInfo>
    requires p < |directory|
  {
    directory[p := directory[p].(freeSlots := directory[p].freeSlots + delta)]
  }

  /** Every used record of the store, in directory-then-slot order. */
  function Records(file: seq<seq<Slot>>): seq<Record>
  {
    if file == [] then [] else PageRecords(file[0]) + Records(file[1..])
  }

  lemma {:induction false} RecordsConcat(a: seq<seq<Slot>>, b: seq<seq<Slot>>)
    ensures Records(a + b) == Records(a) + Records(b)
  {
    if a == [] {
      assert a + b == b;
    } else {
      assert (a + b)[1..] == a[1..] + b;
      RecordsConcat(a[1..], b);
    }
  }

  /** The scan sees the pages before p, then page p, then the rest. */
  lemma {:induction false} RecordsSplit(file: seq<seq<Slot>>, p: nat)
    requires p < |file|
    ensures Records(file) == Records(file[..p]) + PageRecords(file[p]) + Records(file[p + 1..])
    ensures Records(file[..p + 1]) == Records(file[..p]) + PageRecords(file[p])
  {
    var rest := [file[p]] + file[p + 1..];
    assert file == file[..p] + rest;
    RecordsConcat(file[..p], rest);
    assert rest[1..] == file[p + 1..];
    assert file[..p + 1] == file[..p] + [file[p]];
    RecordsConcat(file[..p], [file[p]]);
    assert [file[p]][1..] == [];
  }

  /** Writing back one page changes the scan in that page's place only. */
  lemma {:induction false} RecordsUpdate(file: seq<seq<Slot>>, p: nat, page: seq<Slot>)
    requires p < |file|
    ensures Records(file[p := page]) == Records(file[..p]) + PageRecords(page) + Records(file[p + 1..])
  {
    RecordsSplit(file[p := page], p);
    assert file[p := page][..p] == file[..p];
    assert file[p := page][p + 1..] == file[p + 1..];
  }

  /** Appending a page appends its records to the scan. */
  lemma {:induction false} RecordsAppend(file: seq<seq<Slot>>, page: seq<Slot>)
    ensures Records(file + [page]) == Records(file) + PageRecords(page)
  {
    RecordsConcat(file, [page]);
    assert [page][1..] == [];
  }

  /** A slot holds a record with the given key. */
  predicate HasKey(x: Slot, key: int)
  {
    x.Used? && x.rec.key == key
  }

  /**
   * Taking one record out of the middle of a scan removes one occurrence of it
   * from the contents. Like AppendToLast and AppendChain below, a proof step
   * kept apart so that the lemmas using it stay small; it models nothing.
   */
  lemma Splice(whole: seq<Record>, cut: seq<Record>, a: seq<Record>, p: seq<Record>, q: seq<Record>, c: seq<Record>, x: Record)
    requires whole == a + (p + [x] + q) + c && cut == a + (p + q) + c
    ensures multiset(whole) == multiset(cut) + multiset{x}
    ensures multiset(cut) == multiset(whole) - multiset{x}
  {
  }

  /** Replacing the last page: the scan is the pages before it followed by the new last page. */
  lemma {:induction false} RecordsLastPage(file: seq<seq<Slot>>, page: seq<Slot>)
    requires |file| > 0
    ensures Records(file) == Records(file[..|file| - 1]) + PageRecords(file[|file| - 1])
    ensures Records(file[|file| - 1 := page]) == Records(file[..|file| - 1]) + PageRecords(page)
  {
    var L := |file| - 1;
    RecordsAppend(file[..L], file[L]);
    RecordsAppend(file[..L], page);
    assert file == file[..L] + [file[L]];
    assert file[L := page] == file[..L] + [page];
  }

  /** Growing the last page by one record grows the scan by that record (a proof step). */
  lemma AppendToLast(a: seq<Record>, b: seq<Record>, r: Record)
    ensures a + (b + [r]) == (a + b) + [r]
  {
  }

  /** Appending one record and then a run of records is appending the run that starts with it (a proof step). */
  lemma AppendChain(a: seq<Record>, b: seq<Record>, c: seq<Record>, r: Record, rest: seq<Record>)
    requires b == a + [r] && c == b + rest
    ensures c == a + ([r] + rest)
  {
  }

  /** Directory position and slot index of a record. */
  datatype Loc = Loc(page: nat, slot: nat)

  /** Directory-then-slot order on positions. */
  predicate Before(a: Loc, b: Loc)
  {
    a.page < b.page || (a.page == b.page && a.slot < b.slot)
  }

  /** Index of the lowest slot holding the key, or |s| when there is none. */
  function SlotOf(s: seq<Slot>, key: int): (i: nat)
    ensures i <= |s|
    ensures i < |s| ==> HasKey(s[i], key)
    ensures forall j :: 0 <= j < i ==> !HasKey(s[j], key)
  {
    if s == [] then 0
    else if HasKey(s[0], key) then 0
    else 1 + SlotOf(s[1..], key)
  }

  /**
   * The first slot holding the key among pages p, p+1, ..., in
   * directory-then-slot order.
   */
  function LocateFrom(file: seq<seq<Slot>>, key: int, p: nat): (l: Option<Loc>)
    requires p <= |file|
    decreases |file| - p
    ensures l.Some? ==>
      p <= l.value.page < |file| && l.value.slot < |file[l.value.page]| &&
      HasKey(file[l.value.page][l.value.slot], key) &&
      forall q, j :: p <= q < |file| && 0 <= j < |file[q]| && Before(Loc(q, j), l.value) ==>
        !HasKey(file[q][j], key)
    ensures l.None? ==>
      forall q, j :: p <= q < |file| && 0 <= j < |file[q]| ==> !HasKey(file[q][j], key)
  {
    if p == |file| then None
    else
      var i := SlotOf(file[p], key);
      if i < |file[p]| then Some(Loc(p, i)) else LocateFrom(file, key, p + 1)
  }

  /** A slot holding the key with no such slot before it, in directory-then-slot order, is what the scan finds. */
  lemma {:induction false} LocateAt(file: seq<seq<Slot>>, key: int, l: Loc)
    requires l.page < |file| && l.slot < |file[l.page]| && HasKey(file[l.page][l.slot], key)
    requires forall q, j :: 0 <= q < l.page && 0 <= j < |file[q]| ==> !HasKey(file[q][j], key)
    requires forall j :: 0 <= j < l.slot ==> !HasKey(file[l.page][j], key)
    ensures LocateFrom(file, key, 0) == Some(l)
  {
    var m := LocateFrom(file, key, 0);
    assert m.Some?;
    assert HasKey(file[m.value.page][m.value.slot], key);
    assert !Before(l, m.value) && !Before(m.value, l);
  }

  /** When no slot holds the key, the scan finds nothing. */
  lemma {:induction false} LocateNone(file: seq<seq<Slot>>, key: int)
    requires forall q, j :: 0 <= q < |file| && 0 <= j < |file[q]| ==> !HasKey(file[q][j], key)
    ensures LocateFrom(file, key, 0) == None
  {

  }

  /** Where searchRecord and deleteRecord stop: the first used slot holding the key. */
  function Locate(file: seq<seq<Slot>>, key: int): Option<Loc>
  {
    LocateFrom(file, key, 0)
  }

  /** The record at the first used slot holding the key, if any (searchRecord's answer). */
  function Lookup(file: seq<seq<Slot>>, key: int): (r: Option<Record>)
    ensures r.Some? ==> r.value.key == key
    ensures r.None? ==> forall q, j :: 0 <= q < |file| && 0 <= j < |file[q]| ==> !HasKey(file[q][j], key)
  {
    match Locate(file, key)
    case None => None
    case Some(l) => Some(file[l.page][l.slot].rec)
  }

  /** Reference definition: the first record with the key in a flat sequence of records. */
  function FirstWithKey(rs: seq<Record>, key: int): (r: Option<Record>)
    ensures r.Some? ==> r.value in rs && r.value.key == key
    ensures r.None? ==> forall x :: x in rs ==> x.key != key
  {
    if rs == [] then None
    else if rs[0].key == key then Some(rs[0])
    else FirstWithKey(rs[1..], key)
  }

  lemma {:induction false} FirstWithKeyConcat(a: seq<Record>, b: seq<Record>, key: int)
    ensures FirstWithKey(a + b, key) ==
      if FirstWithKey(a, key).Some? then FirstWithKey(a, key) else FirstWithKey(b, key)
  {
    if a == [] {
      assert a + b == b;
    } else {
      assert (a + b)[1..] == a[1..] + b;
      FirstWithKeyConcat(a[1..], b, key);
    }
  }

  lemma {:induction false} PageLookup(s: seq<Slot>, key: int)
    ensures FirstWithKey(PageRecords(s), key) ==
      if SlotOf(s, key) < |s| then Some(s[SlotOf(s, key)].rec) else None
  {
    if s != [] {
      PageLookup(s[1..], key);
      FirstWithKeyConcat(Held(s[0]), PageRecords(s[1..]), key);
    }
  }

  lemma {:induction false} LocateFromScansInOrder(file: seq<seq<Slot>>, key: int, p: nat)
    requires p <= |file|
    decreases |file| - p
    ensures FirstWithKey(Records(file[p..]), key) ==
      match LocateFrom(file, key, p)
      case None => None
      case Some(l) => Some(file[l.page][l.slot].rec)
  {
    if p < |file| {
      assert file[p..][1..] == file[p + 1..];
      assert Records(file[p..]) == PageRecords(file[p]) + Records(file[p + 1..]);
      FirstWithKeyConcat(PageRecords(file[p]), Records(file[p + 1..]), key);
      PageLookup(file[p], key);
      LocateFromScansInOrder(file, key, p + 1);
    }
  }

  /**
   * The nested page-then-slot scan of searchRecord finds the same record as
   * one linear scan over all used records in directory-then-slot order.
   */
  lemma {:induction false} LookupScansInOrder(file: seq<seq<Slot>>, key: int)
    ensures Lookup(file, key) == FirstWithKey(Records(file), key)
  {
    LocateFromScansInOrder(file, key, 0);
    assert file[0..] == file;
  }

  /** Reference definition: the records of rs with lo <= key <= hi, in their order in rs. */
  function InRange(rs: seq<Record>, lo: int, hi: int): seq<Record>
  {
    if rs == [] then []
    else (if lo <= rs[0].key <= hi then [rs[0]] else []) + InRange(rs[1..], lo, hi)
  }

  lemma {:induction false} InRangeConcat(a: seq<Record>, b: seq<Record>, lo: int, hi: int)
    ensures InRange(a + b, lo, hi) == InRange(a, lo, hi) + InRange(b, lo, hi)
  {
    if a == [] {
      assert a + b == b;
    } else {
      assert (a + b)[1..] == a[1..] + b;
      InRangeConcat(a[1..], b, lo, hi);
    }
  }

  /** One more slot of a page: the range scan gains that slot's record when it is used and in range. */
  lemma {:induction false} InRangeSlotStep(s: seq<Slot>, i: nat, lo: int, hi: int)
    requires i < |s|
    ensures InRange(PageRecords(s[..i + 1]), lo, hi) ==
      InRange(PageRecords(s[..i]), lo, hi) + (if s[i].Used? && lo <= s[i].rec.key <= hi then [s[i].rec] else [])
  {
    PageRecordsSplit(s, i);
    InRangeConcat(PageRecords(s[..i]), Held(s[i]), lo, hi);
    if s[i].Used? {
      assert [s[i].rec][1..] == [];
    }
  }

  /** One more page: the range scan gains that page's records in range. */
  lemma {:induction false} InRangePageStep(file: seq<seq<Slot>>, p: nat, lo: int, hi: int)
    requires p < |file|
    ensures InRange(Records(file[..p + 1]), lo, hi) ==
      InRange(Records(file[..p]), lo, hi) + InRange(PageRecords(file[p][..|file[p]|]), lo, hi)
  {
    RecordsSplit(file, p);
    InRangeConcat(Records(file[..p]), PageRecords(file[p]), lo, hi);
    assert file[p][..|file[p]|] == file[p];
  }

  /**
   * rangeSearch's answer holds every record in range exactly as often as the
   * store does, and nothing else.
   */
  lemma {:induction false} InRangeExact(rs: seq<Record>, lo: int, hi: int)
    ensures forall x :: multiset(InRange(rs, lo, hi))[x] == (if lo <= x.key <= hi then multiset(rs)[x] else 0)
  {
    if rs != [] {
      InRangeExact(rs[1..], lo, hi);
      assert rs == [rs[0]] + rs[1..];
    }
  }

  /** An empty or inverted range finds nothing. */
  lemma {:induction false} InRangeInverted(rs: seq<Record>, lo: int, hi: int)
    requires lo > hi
    ensures InRange(rs, lo, hi) == []
  {
    if rs != [] {
      InRangeInverted(rs[1..], lo, hi);
    }
  }
}
