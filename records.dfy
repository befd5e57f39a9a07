/**
  The record store (`TodoRecord` / `RecordArray` in main.c): an array of slots
  tagged active or inactive.  `length` is the high-water mark of slots ever
  used, removal only tombstones a slot, and an insertion reuses the lowest
  tombstoned slot before it appends, doubling the capacity when the append
  would leave no spare slot.
*/
module Records {
  import opened Bytes
  import opened TextBuffers

  /** One slot.  The name is held by its content; an inactive slot's name is stale and never read. */
  datatype TodoRecord = TodoRecord(name: seq<byte>, done: bool, active: bool)

  /** What a live record is to the user and to the saved file: its name and its completion flag. */
  datatype Entry = Entry(name: seq<byte>, done: bool)

  /** The capacity the global store starts with. */
  const INITIAL_CAPACITY: int := 8

  function EntryOf(r: TodoRecord): Entry {
    Entry(r.name, r.done)
  }

  /** A live record holding `e`, as `load_data` builds it. */
  function RecordOf(e: Entry): TodoRecord {
    TodoRecord(e.name, e.done, true)
  }

  /** Every live record has a name a text buffer can hold. */
  predicate NamesFit(slots: seq<TodoRecord>) {
    forall i :: 0 <= i < |slots| && slots[i].active ==> |slots[i].name| < STR_ALLOCSIZE
  }

  /** Every entry has a name a text buffer can hold. */
  predicate EntriesFit(es: seq<Entry>) {
    forall i :: 0 <= i < |es| ==> |es[i].name| < STR_ALLOCSIZE
  }

  /** The slot `arr_add`'s scan stops at: the lowest inactive one, or `|slots|` when every slot is live. */
  function FirstInactive(slots: seq<TodoRecord>): (k: nat)
    ensures k <= |slots|
    ensures forall j :: 0 <= j < k ==> slots[j].active
    ensures k < |slots| ==> !slots[k].active
  {
    if slots == [] || !slots[0].active then 0 else 1 + FirstInactive(slots[1..])
  }

  /** The slots after `arr_add(record)`: the record, made live, in the lowest free slot or appended. */
  function Inserted(slots: seq<TodoRecord>, record: TodoRecord): (t: seq<TodoRecord>)
    ensures var k := FirstInactive(slots);
      && |t| == (if k < |slots| then |slots| else |slots| + 1)
      && t[k] == record.(active := true)
      && forall j :: 0 <= j < |slots| && j != k ==> t[j] == slots[j]
  {
    var placed := record.(active := true);
    var k := FirstInactive(slots);
    if k < |slots| then slots[k := placed] else slots + [placed]
  }

  /** The slots after `arr_remove(index)`: that slot tombstoned. */
  function Removed(slots: seq<TodoRecord>, index: nat): (t: seq<TodoRecord>)
    requires index < |slots|
    ensures |t| == |slots| && !t[index].active
    ensures t[index].name == slots[index].name && t[index].done == slots[index].done
    ensures t[..index] == slots[..index] && t[index + 1..] == slots[index + 1..]
  {
    slots[index := slots[index].(active := false)]
  }

  /** The slots after the click on a record's box: that record's flag flipped. */
  function Toggled(slots: seq<TodoRecord>, index: nat): (t: seq<TodoRecord>)
    requires index < |slots|
    ensures |t| == |slots| && t[index].done == !slots[index].done
    ensures t[index].name == slots[index].name && t[index].active == slots[index].active
    ensures t[..index] == slots[..index] && t[index + 1..] == slots[index + 1..]
  {
    slots[index := slots[index].(done := !slots[index].done)]
  }

  /** The live records in ascending slot order, as the draw loop visits them and `save_data` writes them. */
  function ActiveEntries(slots: seq<TodoRecord>): (es: seq<Entry>)
    ensures |es| <= |slots|
  {
    if slots == [] then []
    else
      var last := slots[|slots| - 1];
      var rest := ActiveEntries(slots[..|slots| - 1]);
      if last.active then rest + [EntryOf(last)] else rest
  }

  /** The store `load_data` builds from `es` when every insertion appends: one live slot per entry, in order. */
  function AsSlots(es: seq<Entry>): (slots: seq<TodoRecord>)
    ensures |slots| == |es|
    ensures forall i :: 0 <= i < |es| ==> slots[i] == RecordOf(es[i])
  {
    seq(|es|, i requires 0 <= i < |es| => RecordOf(es[i]))
  }

  /** An insertion keeps every live name within a text buffer's bound. */
  lemma InsertedNamesFit(slots: seq<TodoRecord>, record: TodoRecord)
    requires NamesFit(slots) && |record.name| < STR_ALLOCSIZE
    ensures NamesFit(Inserted(slots, record))
  {
  }

  /** The live records of a store whose live names fit have names that fit. */
  lemma {:induction false} ActiveEntriesFit(slots: seq<TodoRecord>)
    requires NamesFit(slots)
    ensures EntriesFit(ActiveEntries(slots))
  {
    if slots != [] {
      ActiveEntriesFit(slots[..|slots| - 1]);
    }
  }

  /** The live records of two runs of slots, one after the other. */
  lemma {:induction false} ActiveEntriesAppend(a: seq<TodoRecord>, b: seq<TodoRecord>)
    ensures ActiveEntries(a + b) == ActiveEntries(a) + ActiveEntries(b)
    decreases |b|
  {
    if b == [] {
      assert a + b == a;
    } else {
      var b' := b[..|b| - 1];
      assert (a + b)[..|a + b| - 1] == a + b';
      ActiveEntriesAppend(a, b');
    }
  }

  /** The live records split around slot `index`. */
  lemma {:induction false} ActiveEntriesAround(slots: seq<TodoRecord>, index: nat)
    requires index < |slots|
    ensures ActiveEntries(slots) == ActiveEntries(slots[..index])
      + (if slots[index].active then [EntryOf(slots[index])] else []) + ActiveEntries(slots[index + 1..])
  {
    var before, at, after := slots[..index], [slots[index]], slots[index + 1..];
    assert slots == (before + at) + after;
    ActiveEntriesAppend(before + at, after);
    ActiveEntriesAppend(before, at);
    assert at[..0] == [];
  }

  /**
    Removing a live record drops exactly its entry: the other live records
    keep their order.
  */
  lemma RemovedDropsEntry(slots: seq<TodoRecord>, index: nat)
    requires index < |slots| && slots[index].active
    ensures ActiveEntries(slots) == ActiveEntries(slots[..index]) + [EntryOf(slots[index])] + ActiveEntries(slots[index + 1..])
    ensures ActiveEntries(Removed(slots, index)) == ActiveEntries(slots[..index]) + ActiveEntries(slots[index + 1..])
    ensures |ActiveEntries(Removed(slots, index))| == |ActiveEntries(slots)| - 1
  {
    var t := Removed(slots, index);
    var before, after := ActiveEntries(slots[..index]), ActiveEntries(slots[index + 1..]);
    ActiveEntriesAround(slots, index);
    assert ActiveEntries(t) == before + after by {
      ActiveEntriesAround(t, index);
      assert t[..index] == slots[..index] && t[index + 1..] == slots[index + 1..];
    }
    assert |ActiveEntries(slots)| == |before| + 1 + |after|;
  }

  /** Toggling a live record flips its flag and changes no other entry. */
  lemma ToggledFlipsEntry(slots: seq<TodoRecord>, index: nat)
    requires index < |slots| && slots[index].active
    ensures ActiveEntries(Toggled(slots, index)) == ActiveEntries(slots[..index])
      + [Entry(slots[index].name, !slots[index].done)] + ActiveEntries(slots[index + 1..])
  {
    var t := Toggled(slots, index);
    ActiveEntriesAround(t, index);
    assert t[..index] == slots[..index] && t[index + 1..] == slots[index + 1..];
  }

  /** Once the scan finds no free slot, an insertion appends: the new entry comes last. */
  lemma InsertedAppends(slots: seq<TodoRecord>, record: TodoRecord)
    requires FirstInactive(slots) == |slots|
    ensures ActiveEntries(Inserted(slots, record)) == ActiveEntries(slots) + [EntryOf(record)]
  {
    var t := Inserted(slots, record);
    assert t[..|t| - 1] == slots;
  }

  /**
    When a tombstoned slot exists, an insertion reuses the lowest one: the new
    entry takes that slot's place among the live records, between those before
    and those after it.
  */
  lemma InsertedReuses(slots: seq<TodoRecord>, r: TodoRecord)
    requires FirstInactive(slots) < |slots|
    ensures ActiveEntries(Inserted(slots, r)) == ActiveEntries(slots[..FirstInactive(slots)])
      + [EntryOf(r)] + ActiveEntries(slots[FirstInactive(slots) + 1..])
  {
    var k := FirstInactive(slots);
    var t := Inserted(slots, r);
    ActiveEntriesAround(t, k);
    ActiveEntriesAround(slots, k);
    assert t[..k] == slots[..k] && t[k + 1..] == slots[k + 1..];
  }

  /**
    Insert, remove the slot the record landed in, insert again: the second
    record lands in that same slot and the store is as if only it had been
    inserted.
  */
  lemma InsertRemoveInsert(slots: seq<TodoRecord>, a: TodoRecord, b: TodoRecord)
    ensures FirstInactive(slots) < |Inserted(slots, a)|
    ensures Inserted(Removed(Inserted(slots, a), FirstInactive(slots)), b) == Inserted(slots, b)
  {
    var k := FirstInactive(slots);
    var t := Removed(Inserted(slots, a), k);
    assert forall j :: 0 <= j < k ==> t[j] == slots[j];
    assert !t[k].active;
    assert FirstInactive(t) == k;
  }

  /** The store built by appending entries holds exactly those entries, in order. */
  lemma {:induction false} AsSlotsEntries(es: seq<Entry>)
    ensures ActiveEntries(AsSlots(es)) == es
    ensures FirstInactive(AsSlots(es)) == |es|
  {
    if es != [] {
      var es' := es[..|es| - 1];
      assert AsSlots(es)[..|es| - 1] == AsSlots(es');
      AsSlotsEntries(es');
    }
  }

  /** Appending one entry to a store built from entries extends it by one live slot. */
  lemma InsertedAsSlots(es: seq<Entry>, e: Entry)
    ensures Inserted(AsSlots(es), RecordOf(e)) == AsSlots(es + [e])
  {
    AsSlotsEntries(es);
  }

  /** The global `records` together with `arr_create`, `arr_add`, `arr_remove` and the done toggle. */
  class RecordArray {
    var data: array<TodoRecord>
    var length: int
    var capacity: int

    /** Capacity counts the slots of `data`; one slot is always spare; live names fit a text buffer. */
    ghost predicate Valid()
      reads this, data
    {
      && data.Length == capacity
      && 0 <= length < capacity
      && NamesFit(data[..length])
    }

    /** The slots below the high-water mark. */
    function Slots(): seq<TodoRecord>
      reads this, data
      requires Valid()
    {
      data[..length]
    }

    /** The global initialiser followed by `arr_create`: no slots used, INITIAL_CAPACITY allocated. */
    constructor ()
      ensures Valid() && fresh(data)
      ensures Slots() == [] && capacity == INITIAL_CAPACITY
    {
      length := 0;
      capacity := INITIAL_CAPACITY;
      data := new TodoRecord[INITIAL_CAPACITY];
    }

    /**
      `arr_add`: the record, made live, goes to the lowest inactive slot below
      `length`; when there is none it is appended, after doubling the capacity
      if the append would use the last slot.
    */
    method Add(record: TodoRecord)
      requires Valid()
      requires |record.name| < STR_ALLOCSIZE
      modifies this, data
      ensures Valid()
      ensures data == old(data) || fresh(data)
      ensures Slots() == Inserted(old(Slots()), record)
      ensures capacity == if FirstInactive(old(Slots())) < old(length) || old(length) < old(capacity) - 1
                          then old(capacity) else 2 * old(capacity)
    {
      InsertedNamesFit(Slots(), record);
      var placed := record.(active := true);
      var i := 0;
      while i < length
        invariant 0 <= i <= length
        invariant forall j :: 0 <= j < i ==> data[j].active
      {
        if !data[i].active {
          assert FirstInactive(Slots()) == i;
          data[i] := placed;
          return;
        }
        i := i + 1;
      }
      assert FirstInactive(Slots()) == length;
      if length >= capacity - 1 {
        Grow();
      }
      assert data[..length] == old(Slots());
      data[length] := placed;
      length := length + 1;
    }

    /** The doubling in `arr_add`: twice the capacity, the used slots carried over to the new block. */
    method Grow()
      requires Valid()
      modifies this
      ensures Valid() && fresh(data)
      ensures length == old(length) && capacity == 2 * old(capacity)
      ensures Slots() == old(Slots())
    {
      var grown := new TodoRecord[2 * capacity];
      var j := 0;
      while j < length
        modifies grown
        invariant 0 <= j <= length
        invariant grown[..j] == data[..j]
      {
        grown[j] := data[j];
        j := j + 1;
      }
      capacity := 2 * capacity;
      data := grown;
    }

    /**
      `arr_remove`: tombstones a live slot below the high-water mark; nothing
      else changes.  The slot must be live: removing a tombstoned slot would
      free its name a second time.
    */
    method Remove(index: int)
      requires Valid()
      requires 0 <= index < length && data[index].active
      modifies data
      ensures Valid()
      ensures Slots() == Removed(old(Slots()), index)
    {
      data[index] := data[index].(active := false);
    }

    /** The click on a live record's box in the draw loop: flips its `done` flag; nothing else changes. */
    method ToggleDone(index: int)
      requires Valid()
      requires 0 <= index < length && data[index].active
      modifies data
      ensures Valid()
      ensures Slots() == Toggled(old(Slots()), index)
    {
      data[index] := data[index].(done := !data[index].done);
    }
  }
}
