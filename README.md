# Database-FileSort record store, modelled in Dafny

This project models the record-store core of Database-FileSort: two ways of
keeping fixed-size records in fixed-capacity pages on disk.

- **HeapFile** is unordered. Insert is first-fit over the free-slot counts in
  the page directory.
- **SortedFile** keeps the records of each page in key order. Insert shifts
  slots right to open a gap. Delete shifts slots left to close it.

Both keep a page directory: an ordered list of `PageInfo` entries, each holding
a page's offset in the data file and the number of free slots the page
advertises. A page has `SLOT_COUNT` slots, each with an occupancy bit. Both
files offer `insertRecord`, `deleteRecord`, `searchRecord` and `rangeSearch`.

Layout:

- `pages.dfy` (module `Pages`): records, slots, directory entries, and the
  page as a class over two arrays (records and occupancy bits).
  `PageRecords` is the scan of a page's used slots in slot order.
- `storage.dfy` (module `Storage`): the store, i.e. the directory plus one
  page image per entry, in directory order. It also holds what both files
  share:
  - the scan order over all used records (`Records`);
  - where a key is first found (`LocateFrom`, `Locate`, `Lookup`);
  - the reference definitions `FirstWithKey` and `InRange`, which
    `searchRecord` and `rangeSearch` are proved against.
- `heap.dfy` (module `Heap`): the heap file's insert and delete as functions
  on stores (`Insert`, `Delete`), their lemmas, and the class `HeapFile`.
  Its methods run the Java loops over `Page` objects and are proved equal to
  those functions.
- `sorted.dfy` (module `Sorted`): the same for the sorted file. It also has
  the page invariant (used slots form a prefix, keys non-decreasing), the
  in-place shift loops (`ShiftRight`, `ShiftLeft`) and the class
  `SortedFile`.

`SLOT_COUNT` is a positive constant whose value is left open: every general
proof holds for any capacity. The two worked examples fix it with
`requires SLOT_COUNT == 2` or `== 4`.

`Page`, `PageInfo`, `PageDirectory` and `Record` are not modelled as source
classes of their own. Their behaviour is taken from how `HeapFile` and
`SortedFile` call them:

- `insertRecord(i, r)` overwrites slot i and sets its bit;
- `deleteRecord(i)` clears the bit;
- `getRecord(i)` is only called on a used slot. This is a precondition of
  `Page.GetRecord`, so every call site in the model is proved to respect it.

Two facts about the sorted file's code shape the model:

- `SortedFile.searchRecord` and `rangeSearch` scan every page and slot in
  order; there is no binary search.
- `SortedFile.insertRecord` does not consult `freeSlots`. It takes the first
  page, in directory order, whose last slot is empty.

Both `deleteRecord`s remove only the first record with the key, in
directory-then-slot order. When several records share the key, a search
after the delete finds the next one. Only when the key is unique does the
delete leave it unfindable (`DeleteUniqueThenAbsent`).

## Model

| member | source | states |
|---|---|---|
| Pages.Page.constructor | src/HeapFile.java:56 | `new Page()` has every slot free |
| Pages.Page.Load | src/HeapFile.java:42 | a page read back holds exactly the slots last written |
| Pages.Page.IsSlotUsed | src/HeapFile.java:45 | the bit of slot i is set exactly when the slot is used |
| Pages.Page.GetRecord | src/SortedFile.java:41 | only callable on a used slot, and returns that slot's record |
| Pages.Page.InsertRecord | src/HeapFile.java:46 | slot i becomes used with the record; no other slot changes |
| Pages.Page.DeleteRecord | src/HeapFile.java:100 | slot i becomes free; no other slot changes |
| Pages.FirstFree | src/HeapFile.java:44-45 | the lowest unused slot: every slot below it is used, and it is free (or the page is full) |
| Pages.UsedCountFull | src/HeapFile.java:44-52 | the used count never exceeds the capacity, and equals it exactly when the slot loop finds no free slot |
| Pages.CompactScan | src/SortedFile.java:40-41 | on a page whose used slots form a prefix, the lowest free slot equals the used count, and slot k holds the k-th scanned record |
| Storage.NewPageHoldsRecord | src/HeapFile.java:56-57 | a new page with the record put in slot 0 holds just that record, and its used slots form a prefix |
| Storage.LocateFrom | src/HeapFile.java:95-99 | the result is a used slot with the key, and no slot before it in directory-then-slot order holds the key; None means no slot holds it |
| Storage.Lookup | src/HeapFile.java:72-84 | searchRecord's answer: a found record has the key, and None means no used slot holds the key; `LookupScansInOrder` ties it to the flat reference search |
| Storage.FirstWithKey | src/HeapFile.java:72-84 | reference search: the found record is in the sequence and has the key; None means no record has the key |
| Storage.LookupScansInOrder | src/HeapFile.java:72-84 | the nested page-then-slot search returns the first record with the key in the flat scan of all used records |
| Storage.InRangeConcat | src/HeapFile.java:122-133 | range filtering distributes over concatenation, so the page-by-page loop builds the range of the whole scan |
| Storage.InRangeExact | src/HeapFile.java:119-135 | each record with lowerBound <= key <= upperBound appears in the range answer exactly as often as in the store; no other record appears |
| Storage.InRangeInverted | src/SortedFile.java:129-143 | when lowerBound > upperBound the answer is empty |
| Heap.Insert | src/HeapFile.java:38-63 | insertRecord on a store: the result is again one page of SLOT_COUNT slots per entry; what it does is stated by `InsertFirstFit`, `InsertPassesOverStaleEntry`, `InsertAppendsWhenNoSpace`, `InsertKeepsAccounting` and `InsertAddsRecord` |
| Heap.Delete | src/HeapFile.java:93-109 | deleteRecord on a store: the result is again well formed; what it does is stated by `DeleteRemovesFirstMatch`, `DeleteAbsentChangesNothing`, `DeleteKeepsAccounting` and `DeleteUniqueThenAbsent` |
| Heap.FirstFitFrom | src/HeapFile.java:40-53 | the first entry, from p on, whose `freeSlots > 0` and whose page has an unused slot; every entry between p and it is passed over |
| Heap.FitsIffAdvertised | src/HeapFile.java:41 | with accurate accounting, an entry takes a record exactly when it advertises `freeSlots > 0` |
| Heap.InsertFirstFit | src/HeapFile.java:40-50 | with accurate accounting, the record goes into the lowest unused slot of the first entry with `freeSlots > 0`; that count drops by one; no other slot or entry changes |
| Heap.InsertPassesOverStaleEntry | src/HeapFile.java:41-53 | an entry that advertises space its page lacks is left untouched |
| Heap.InsertAppendsWhenNoSpace | src/HeapFile.java:56-62 | when no entry has `freeSlots > 0`, exactly one entry `(offset, SLOT_COUNT - 1)` is appended, with a fresh page holding the record in slot 0; nothing else changes |
| Heap.InsertKeepsAccounting | src/HeapFile.java:47 | insert keeps `freeSlots == SLOT_COUNT - used slots` for every entry |
| Heap.InsertAddsRecord | src/HeapFile.java:38-63 | the store's records after insert are the old ones plus one occurrence of the new record |
| Heap.DeleteRemovesFirstMatch | src/HeapFile.java:95-104 | delete returns true exactly when search finds the key; it then removes that very record, once, and raises that entry's `freeSlots` by one |
| Heap.DeleteAbsentChangesNothing | src/HeapFile.java:93-108 | deleting an absent key returns false and leaves every page and entry as it was |
| Heap.DeleteUniqueThenAbsent | src/HeapFile.java:95-104 | when exactly one record holds the key, delete returns true and a later search for the key finds nothing |
| Heap.DeleteKeepsAccounting | src/HeapFile.java:101 | delete keeps `freeSlots == SLOT_COUNT - used slots` for every entry |
| Heap.DeleteThenInsertReusesPage | src/HeapFile.java:40-46 | with accurate accounting, after a delete, if no earlier entry advertises space, the next insert goes into the same page, at the freed slot or a lower free one, and no page is appended |
| Heap.FillCompactPage | src/HeapFile.java:44-46 | filling the lowest free slot of a prefix-packed page appends the record to the page's scan |
| Heap.InsertKeepsPacked | src/HeapFile.java:38-62 | inserting into a packed store (accurate counts, prefix pages, all but the last full) keeps it packed and appends the record to the scan |
| Heap.InsertEachKeepsPacked | src/HeapFile.java:38-62 | a run of inserts keeps the store packed |
| Heap.InsertEachAppends | src/HeapFile.java:38-62 | a run of inserts into a packed store appends the records to the scan in insertion order |
| Heap.FillFromEmpty | src/HeapFile.java:38-62 | n inserts into an empty store scan back in insertion order; every entry but the last advertises 0 free slots; there are ceil(n / SLOT_COUNT) entries |
| Heap.ThreeInsertsTwoSlots | src/HeapFile.java:38-62 | with SLOT_COUNT = 2, three inserts give two entries advertising 0 and 1 free slots |
| Heap.InsertedRecordsAreFound | src/HeapFile.java:72-84 | after inserting records with distinct keys into an empty store, search finds each one by its key |
| Heap.InsertThenSearch | src/HeapFile.java:72-84 | a record whose key is new to the store is found by search right after it is inserted |
| Heap.HeapFile.constructor | src/HeapFile.java:25-29 | opening a store loads the saved directory and pages, or an empty store when there is none |
| Heap.HeapFile.InsertRecord | src/HeapFile.java:38-63 | the nested first-fit loop with early return leaves the store equal to `Heap.Insert` of the old store |
| Heap.HeapFile.SearchRecord | src/HeapFile.java:72-84 | returns the first used record with the key in directory-then-slot order, or None |
| Heap.HeapFile.DeleteRecord | src/HeapFile.java:93-109 | the result and the new store equal `Heap.Delete` of the old store |
| Heap.HeapFile.RangeSearch | src/HeapFile.java:119-135 | returns exactly the used records with lowerBound <= key <= upperBound, in directory-then-slot order, and changes nothing |
| Sorted.InsertPoint | src/SortedFile.java:40-41 | the first slot that is free or holds a strictly greater key; every slot before it is used with a key not greater |
| Sorted.FirstWithRoomFrom | src/SortedFile.java:38-46 | the first page, from p on, whose last slot is free; every page before it has its last slot used |
| Sorted.ShiftIn | src/SortedFile.java:47-54 | the page after the shift and the write at slot i: same length, the record at slot i; `ShiftInRecords` and `ShiftInKeepsSorted` give its scan and its order, and `Sorted.ShiftRight` followed by the write at slot i (`FillGap`) computes it in place |
| Sorted.ShiftOut | src/SortedFile.java:103-110 | the page after clearing slot i and the left shift: same length, the last slot free; `ShiftOutRecords` and `ShiftOutKeepsSorted` give its scan and its order, and `Sorted.ShiftLeft` is proved to compute it in place |
| Sorted.Insert | src/SortedFile.java:37-70 | insertRecord on a store: the result is again well formed; what it does is stated by `InsertIntoFirstPageWithRoom`, `InsertSkipsPageWithoutRoom`, `InsertAppendsWhenNoRoom`, `InsertKeepsOrder`, `InsertKeepsAccounting` and `InsertAddsRecord` |
| Sorted.Delete | src/SortedFile.java:98-119 | deleteRecord on a store: the result is again well formed; what it does is stated by `DeleteRemovesFirstMatch`, `DeleteAbsentChangesNothing`, `DeleteKeepsOrder`, `DeleteKeepsAccounting` and `DeleteUniqueThenAbsent` |
| Sorted.InsertPointSplit | src/SortedFile.java:40-41 | the slots before the insertion point are all used, so the page's scan splits there |
| Sorted.ShiftInRecords | src/SortedFile.java:47-54 | on a page with a free last slot, the page's records become the old ones with the new record spliced in at the insertion point; every record before it has a key not greater than its own; the page holds one more record (that every later record has a greater key needs a sorted page: `ShiftInKeepsSorted`) |
| Sorted.ShiftInKeepsSorted | src/SortedFile.java:47-54 | on a sorted page, the shift-in keeps used slots a prefix with non-decreasing keys; every record from the insertion point on has a strictly greater key, so equal keys keep insertion order |
| Sorted.ShiftOutRecords | src/SortedFile.java:103-110 | removing slot i and shifting left drops exactly that slot's record from the page's scan, and the used count drops by one |
| Sorted.ShiftOutKeepsSorted | src/SortedFile.java:103-110 | removing a slot and shifting left keeps a sorted page sorted |
| Sorted.SortedPageScan | src/SortedFile.java:47-54 | a sorted page scans in non-decreasing key order |
| Sorted.RoomIffNotFull | src/SortedFile.java:43 | on a prefix page, the last slot is free exactly when the page is not full |
| Sorted.RoomIffAdvertised | src/SortedFile.java:43 | with accurate accounting on an ordered store, a page has a free last slot exactly when its entry advertises `freeSlots > 0` |
| Sorted.NewPageSorted | src/SortedFile.java:63-64 | a new page holding one record is sorted |
| Sorted.InsertKeepsOrder | src/SortedFile.java:47-55 | insert keeps every page a prefix of used slots with non-decreasing keys |
| Sorted.InsertKeepsAccounting | src/SortedFile.java:55 | insert keeps `freeSlots == SLOT_COUNT - used slots` for every entry |
| Sorted.InsertAddsRecord | src/SortedFile.java:37-70 | the store's records after insert are the old ones plus one occurrence of the new record |
| Sorted.InsertIntoFirstPageWithRoom | src/SortedFile.java:38-58 | with accurate accounting on an ordered store, the record goes into the first entry with `freeSlots > 0`, at the first slot that is free or holds a greater key; that page's records become the old ones with the new record after every key not greater and before every greater one; the count drops by one; nothing else changes |
| Sorted.InsertSkipsPageWithoutRoom | src/SortedFile.java:43-45 | a page whose last slot is used is passed over, whatever its keys or its advertised count, and is left untouched |
| Sorted.InsertAppendsWhenNoRoom | src/SortedFile.java:63-69 | when no page has a free last slot, exactly one entry `(offset, SLOT_COUNT - 1)` is appended at the end, with the record in slot 0; existing entries keep their order and contents |
| Sorted.DeleteRemovesFirstMatch | src/SortedFile.java:99-114 | delete returns true exactly when search finds the key; it then removes that very record, once, and raises that entry's `freeSlots` by one |
| Sorted.DeleteAbsentChangesNothing | src/SortedFile.java:98-118 | deleting an absent key returns false and leaves every page and entry as it was |
| Sorted.DeleteUniqueThenAbsent | src/SortedFile.java:99-114 | when exactly one record holds the key, delete returns true and a later search for the key finds nothing |
| Sorted.DeleteKeepsOrder | src/SortedFile.java:103-110 | delete keeps every page sorted |
| Sorted.DeleteKeepsAccounting | src/SortedFile.java:111 | delete keeps `freeSlots == SLOT_COUNT - used slots` for every entry |
| Sorted.InsertThenSearch | src/SortedFile.java:79-89 | a record whose key is new to the store is found by search right after it is inserted |
| Sorted.InsertFiftyTenThirty | src/SortedFile.java:37-70 | with SLOT_COUNT = 4, inserting keys 50, 10, 30 into an empty store gives one entry advertising 1 free slot, whose page holds 10, 30, 50 in slots 0..2 |
| Sorted.ShiftRight | src/SortedFile.java:48-53 | the down-counting loop opens a free slot at i: slots below i are unchanged, slots i .. last-1 move one place right, and the old last slot, which must be free, drops off |
| Sorted.ShiftLeft | src/SortedFile.java:105-110 | the up-counting loop closes the freed slot i: slots below i are unchanged, later slots move one place left, and the last slot becomes free |
| Sorted.SortedFile.constructor | src/SortedFile.java:25-29 | opening a store loads the saved directory and pages, or an empty store when there is none |
| Sorted.SortedFile.InsertRecord | src/SortedFile.java:37-70 | the page loop, slot loop, shift and new-page branch leave the store equal to `Sorted.Insert` of the old store |
| Sorted.SortedFile.SearchRecord | src/SortedFile.java:79-89 | returns the first used record with the key in directory-then-slot order, or None, by linear scan |
| Sorted.SortedFile.DeleteRecord | src/SortedFile.java:98-119 | the result and the new store equal `Sorted.Delete` of the old store |
| Sorted.SortedFile.RangeSearch | src/SortedFile.java:129-143 | returns exactly the used records with lowerBound <= key <= upperBound, in directory-then-slot order, and changes nothing |

## Left out

- Disk I/O. Reading and writing the directory and page files
  (`readDirectoryFromDisk`, `writeDirectoryToDisk`, `readPageFromDisk`,
  `writePageToDisk`) is not modelled. A page read is a lookup in the data file
  by directory position, and a page write is an update there. The directory
  is the one held in memory, so it is always what was last written.
- Byte serialization of `Page` and `PageDirectory` (`toByteArray`,
  `fromByteArray`). Their source is not part of this model, and the
  directory uses Java object serialization, which has no byte layout to
  check.
- New-page offsets. The code takes the offset from the data file's current
  length. Here the offset is a parameter (`newOffset`, `offset`), and it is
  only stored in the new entry.
- The static disk read/write counters and their getters and reset. They are
  process-global instrumentation with no effect on the store.
- `printAllPages`, which only writes to the console.
- I/O failures. An `IOException` part-way through a call, for example after
  a page write but before the directory write, is not modelled.
- Java `int` width. Keys and `freeSlots` are unbounded integers. The counts
  stay between 0 and `SLOT_COUNT` under the accounting invariant, and keys
  are only compared, so no overflow can occur in the modelled operations.
- Stale bytes in freed slots. A page's contents are the slots whose bits are
  set. A freed slot's old record bytes are never read, because every
  `getRecord` call is guarded by the bit.
- Binary search and cross-page key order for the sorted file. The code has
  neither: search is a linear scan, and overflow pages are appended at the
  tail, so only the order within each page is an invariant.
- Aliasing of `PageInfo` objects. The directory is a sequence of values; an
  entry's `setFreeSlots` becomes a replacement of that entry in the
  sequence.
