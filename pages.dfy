/*
 * Records, slots, directory entries and the fixed-capacity page with its
 * occupancy bits. Both file organisations are built from these.
 */
module Pages {

  /** A positive count. */
  type Positive = n: nat | 0 < n witness 1

  /**
   * Number of record slots in a page (Page.SLOT_COUNT). Its value follows
   * from the page and record sizes, which this model leaves open, so every
   * proof below holds for any positive capacity.
   */
  const SLOT_COUNT: Positive

  datatype Option<T> = None | Some(value: T)

  /** A record: an integer key and an opaque payload. */
  datatype Record = Record(key: int, payload: seq<bv8>)

  /**
   * What a slot holds as far as a reader can tell. A slot whose occupancy
   * bit is clear is Free, whatever stale bytes it still holds.
   */
  datatype Slot = Free | Used(rec: Record)

  /** A directory entry: where the page sits in the data file and how many free slots it advertises. */
  datatype PageInfo = PageInfo(offset: int, freeSlots: int)

  /** The page `new Page()` produces: every slot free. */
  function EmptyPage(): (s: seq<Slot>)
    ensures |s| == SLOT_COUNT
  {
    seq(SLOT_COUNT, _ => Free)
  }

  /** The records a slot contributes to a scan: its record if used, nothing if free. */
  function Held(x: Slot): seq<Record>
  {
    if x.Used? then [x.rec] else []
  }

  /** The used records of a page, in slot order. */
  function PageRecords(s: seq<Slot>): seq<Record>
  {
    if s == [] then [] else Held(s[0]) + PageRecords(s[1..])
  }

  /** Number of used slots (the population count of the occupancy bits). */
  function UsedCount(s: seq<Slot>): nat
  {
    |PageRecords(s)|
  }

  /** Index of the lowest unused slot, or |s| when every slot is used. */
  function FirstFree(s: seq<Slot>): (i: nat)
    ensures i <= |s|
    ensures i < |s| ==> s[i] == Free
    ensures forall j :: 0 <= j < i ==> s[j].Used?
  {
    if s == [] then 0
    else if s[0] == Free then 0
    else 1 + FirstFree(s[1..])
  }

  /** The used slots of the page form a prefix starting at slot 0. */
  ghost predicate Compact(s: seq<Slot>)
  {
    forall a, b :: 0 <= a < b < |s| && s[b].Used? ==> s[a].Used?
  }

  lemma {:induction false} PageRecordsConcat(a: seq<Slot>, b: seq<Slot>)
    ensures PageRecords(a + b) == PageRecords(a) + PageRecords(b)
  {
    if a == [] {
      assert a + b == b;
    } else {
      assert (a + b)[1..] == a[1..] + b;
      PageRecordsConcat(a[1..], b);
    }
  }

  /** A scan over the slots of a page sees the slots before i, then slot i, then the rest. */
  lemma {:induction false} PageRecordsSplit(s: seq<Slot>, i: nat)
    requires i < |s|
    ensures PageRecords(s) == PageRecords(s[..i]) + Held(s[i]) + PageRecords(s[i + 1..])
    ensures PageRecords(s[..i + 1]) == PageRecords(s[..i]) + Held(s[i])
  {
    var mid := [s[i]] + s[i + 1..];
    assert s == s[..i] + mid;
    PageRecordsConcat(s[..i], mid);
    assert mid[1..] == s[i + 1..];
    assert PageRecords(mid) == Held(s[i]) + PageRecords(s[i + 1..]);
    assert s[..i + 1] == s[..i] + [s[i]];
    PageRecordsConcat(s[..i], [s[i]]);
    assert [s[i]][1..] == [];
    assert PageRecords([s[i]]) == Held(s[i]);
  }

  /** Overwriting one slot changes the scan in that slot's place only. */
  lemma {:induction false} PageRecordsUpdate(s: seq<Slot>, i: nat, x: Slot)
    requires i < |s|
    ensures PageRecords(s[i := x]) == PageRecords(s[..i]) + Held(x) + PageRecords(s[i + 1..])
    ensures UsedCount(s[i := x]) == UsedCount(s) - |Held(s[i])| + |Held(x)|
  {
    PageRecordsSplit(s, i);
    PageRecordsSplit(s[i := x], i);
    assert s[i := x][..i] == s[..i];
    assert s[i := x][i + 1..] == s[i + 1..];
  }

  /** The population count never exceeds the capacity, and reaches it exactly when no slot is free. */
  lemma {:induction false} UsedCountFull(s: seq<Slot>)
    ensures UsedCount(s) <= |s|
    ensures UsedCount(s) == |s| <==> FirstFree(s) == |s|
  {
    if s != [] {
      UsedCountFull(s[1..]);
    }
  }

  /** A page with every slot free holds no record. */
  lemma {:induction false} AllFreeHoldsNothing(s: seq<Slot>)
    requires forall j :: 0 <= j < |s| ==> s[j] == Free
    ensures PageRecords(s) == []
  {
    if s != [] {
      AllFreeHoldsNothing(s[1..]);
    }
  }

  /** On a compact page the lowest free slot is the population count, and the scan lists slots 0 .. count-1. */
  lemma {:induction false} CompactScan(s: seq<Slot>)
    requires Compact(s)
    ensures FirstFree(s) == UsedCount(s)
    ensures forall k :: 0 <= k < UsedCount(s) ==> s[k] == Used(PageRecords(s)[k])
  {
    if s != [] {
      assert Compact(s[1..]) by {
        forall a, b | 0 <= a < b < |s[1..]| && s[1..][b].Used? ensures s[1..][a].Used? {
          assert s[a + 1] == s[1..][a] && s[b + 1] == s[1..][b];
        }
      }
      CompactScan(s[1..]);
      if s[0] == Free {
        if |s| > 1 {
          assert s[1..][0] == s[1] == Free;
        }
      }
    }
  }

  /**
   * An in-memory page (`Page`): a record array and an occupancy bit array,
   * both of length SLOT_COUNT. It is read from the data file for one call,
   * changed in place and written back.
   */
  class Page {
    const records: array<Record>
    const used: array<bool>

    ghost predicate Valid()
      reads this
    {
      records.Length == SLOT_COUNT && used.Length == SLOT_COUNT
    }

    /** The page as readers see it; also what `writePageToDisk` stores. */
    function Contents(): (s: seq<Slot>)
      requires Valid()
      reads this, records, used
      ensures |s| == SLOT_COUNT
    {
      seq(SLOT_COUNT, i requires 0 <= i < SLOT_COUNT reads this, records, used =>
        if used[i] then Used(records[i]) else Free)
    }

    /** `new Page()`: all slots free. */
    constructor ()
      ensures Valid() && fresh(records) && fresh(used)
      ensures Contents() == EmptyPage()
    {
      records := new Record[SLOT_COUNT](_ => Record(0, []));
      used := new bool[SLOT_COUNT](_ => false);
    }

    /** A page read from the data file holds exactly what was last written there. */
    constructor Load(image: seq<Slot>)
      requires |image| == SLOT_COUNT
      ensures Valid() && fresh(records) && fresh(used)
      ensures Contents() == image
    {
      records := new Record[SLOT_COUNT](i requires 0 <= i < SLOT_COUNT =>
        if image[i].Used? then image[i].rec else Record(0, []));
      used := new bool[SLOT_COUNT](i requires 0 <= i < SLOT_COUNT => image[i].Used?);
      new;
      assert forall i :: 0 <= i < SLOT_COUNT ==> Contents()[i] == image[i];
    }

    /** `isSlotUsed(i)`: the occupancy bit of slot i. */
    function IsSlotUsed(i: int): (b: bool)
      requires Valid() && 0 <= i < SLOT_COUNT
      reads this, records, used
      ensures b <==> Contents()[i].Used?
    {
      used[i]
    }

    /** `getRecord(i)`: only defined on a used slot; every call site checks the bit first. */
    function GetRecord(i: int): (r: Record)
      requires Valid() && 0 <= i < SLOT_COUNT && Contents()[i].Used?
      reads this, records, used
      ensures Contents()[i] == Used(r)
    {
      records[i]
    }

    /** `insertRecord(i, r)`: overwrite slot i and set its bit, whatever it held. */
    method InsertRecord(i: int, r: Record)
      requires Valid() && 0 <= i < SLOT_COUNT
      modifies records, used
      ensures Contents() == old(Contents())[i := Used(r)]
    {
      records[i] := r;
      used[i] := true;
    }

    /** `deleteRecord(i)`: clear the bit of slot i. */
    method DeleteRecord(i: int)
      requires Valid() && 0 <= i < SLOT_COUNT
      modifies used
      ensures Contents() == old(Contents())[i := Free]
    {
      used[i] := false;
    }
  }
}
