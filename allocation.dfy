/**
  The byte sizes of the record store's heap block, under the LP64 C data
  model (pointers 8 bytes, `int` 4, `bool` 1, structs padded to their widest
  member).  `arr_create` and `arr_add` size the block in two different wrong
  units; the rest of the model uses a block of `capacity` records, which is
  what both evidently mean.
*/
module Allocation {
  import opened Records

  /** `string`: a pointer and an `int`, padded to 16. */
  const SIZEOF_STRING: int := 16
  /** `TodoRecord`: a `string` and two `bool`s, padded to 24. */
  const SIZEOF_TODO_RECORD: int := SIZEOF_STRING + 8
  /** `RecordArray`: a pointer and two `int`s. */
  const SIZEOF_RECORD_ARRAY: int := 16

  /** The first byte past slot `index` of the block. */
  function SlotEnd(index: nat): int {
    (index + 1) * SIZEOF_TODO_RECORD
  }

  /** Slot `index` lies inside a block of `blockBytes` bytes. */
  predicate SlotFits(blockBytes: int, index: nat) {
    SlotEnd(index) <= blockBytes
  }

  /** The block `arr_create` asks for, as written: one `RecordArray` per slot. */
  function CreatedBytesAsWritten(capacity: nat): int {
    SIZEOF_RECORD_ARRAY * capacity
  }

  /** The block `arr_add` reallocates to, as written: the new capacity taken as a byte count. */
  function GrownBytesAsWritten(capacity: nat): int {
    capacity
  }

  /** The block both evidently mean: one `TodoRecord` per slot. */
  function BlockBytes(capacity: nat): int {
    SIZEOF_TODO_RECORD * capacity
  }

  /**
    As written, a fresh store overflows at its sixth record: after five
    insertions the scan finds no free slot, no growth is due, and slot 5 ends
    past the block `arr_create` allocated.
  */
  lemma CreatedBlockTooSmall(es: seq<Entry>)
    requires |es| == 5
    ensures FirstInactive(AsSlots(es)) == 5 && 5 < INITIAL_CAPACITY - 1
    ensures !SlotFits(CreatedBytesAsWritten(INITIAL_CAPACITY), FirstInactive(AsSlots(es)))
  {
    AsSlotsEntries(es);
  }

  /**
    As written, the first growth overflows: with seven live records in the
    initial capacity the eighth insertion doubles the capacity, and slot 7
    ends far past the block `MemRealloc` was asked for.
  */
  lemma GrownBlockTooSmall(es: seq<Entry>)
    requires |es| == 7
    ensures FirstInactive(AsSlots(es)) == 7 && 7 >= INITIAL_CAPACITY - 1
    ensures !SlotFits(GrownBytesAsWritten(2 * INITIAL_CAPACITY), FirstInactive(AsSlots(es)))
  {
    AsSlotsEntries(es);
  }

  /**
    Corrected: a block of `capacity` records holds every slot below
    `capacity`, which is every slot `arr_add` writes (its store keeps
    `length < capacity`), and doubling it keeps the old slots at their places.
  */
  lemma {:induction false} BlockHoldsEverySlot(capacity: nat, index: nat)
    requires index < capacity
    ensures SlotFits(BlockBytes(capacity), index)
    ensures BlockBytes(2 * capacity) == 2 * BlockBytes(capacity)
    ensures forall j: nat :: j < capacity ==> SlotFits(BlockBytes(2 * capacity), j)
  {
    assert SlotEnd(index) == SIZEOF_TODO_RECORD * index + SIZEOF_TODO_RECORD;
    assert forall j: nat :: j < capacity ==> SlotEnd(j) <= SIZEOF_TODO_RECORD * capacity;
  }
}
