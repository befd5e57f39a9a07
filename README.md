# todo: the data layer of a one-window to-do widget, in Dafny

The widget (`main.c`) keeps a list of to-do items. Each item has a name and a
done flag, and the list lives in one binary file next to the program. This
project models the part of `main.c` that holds and stores that data:

- **`bytes.dfy`** (module `Bytes`): the C `int` as `memcpy` copies it into
  and out of a byte stream. That is four bytes, two's complement, least
  significant byte first. A round-trip lemma goes with it.
- **`text_buffer.dfy`** (module `TextBuffers`): the bounded text buffer
  `string`. It is a 128-byte heap block with a tracked length, kept
  NUL-terminated. It is modelled as the class `TextBuffer` with the methods
  `str_create`, `str_append`, `str_backspace`, `str_duplicate` and
  `str_zero`. `str_serialize` and `str_deserialize` are module-level methods
  over a byte `array`.
- **`records.dfy`** (module `Records`): the record store.
  - `TodoRecord` holds a name, `done` and `active`.
  - The global `RecordArray` is the class `RecordArray`, with `arr_create`,
    `arr_add`, `arr_remove` and the click that flips `done`.
  - The store is specified by functions on its slots: `Inserted`, `Removed`,
    `Toggled`, and `ActiveEntries`, the live records in slot order.
  - Lemmas about these functions say which records the user sees after each
    operation: an insertion into a free slot or at the end, a removal, and a
    click.
- **`persistence.dfy`** (module `Persistence`): `save_data` and `load_data`
  without the file calls. The file layout is `Encode`: the count, then the
  length field, name bytes and done byte of each live record. `Parse` is the
  reader, and it fails wherever `load_data` would read out of bounds or build
  an invalid buffer. The loops are methods proved against these functions.
  Round-trip lemmas tie saving to loading.
- **`allocation.dfy`** (module `Allocation`): the byte sizes of the record
  store's heap block, for the two findings below.

## Model

| member | source | states |
|---|---|---|
| `Bytes.DecodeI32` | main.c:201 | the `int` read from four stream bytes is a 32-bit value, negative exactly when the top byte has its high bit set |
| `Bytes.EncodeI32` | main.c:70 | the `int` as `memcpy` copies it into a stream: exactly four bytes |
| `Bytes.I32RoundTrip` | main.c:70 | an `int` copied into four bytes and copied back out (main.c:80, main.c:201) is the same `int` |
| `TextBuffers.CStrLen` | main.c:29 | the length `TextLength` measures: no NUL before it, and a NUL at it unless the bytes run out |
| `TextBuffers.CStrLenUpTo` | main.c:57 | a NUL at index k bounds the C string, which is then the C string of the first k bytes |
| `TextBuffers.EncodeText` | main.c:67-75 | what `str_serialize` writes for a name: four bytes for the length field, then exactly the name's bytes (`TextRoundTrip` reads the field back as the length) |
| `TextBuffers.TextRoundTrip` | main.c:67-86 | what `str_serialize` writes for a name that fits is read back by `str_deserialize`: the length field gives the name's length and the bytes after it are the name |
| `TextBuffers.TextBuffer.Create` | main.c:27-33 | a fresh terminated 128-byte buffer holding the C string of the argument |
| `TextBuffers.TextBuffer.Append` | main.c:40-45 | the length grows by one, the new byte is last, the NUL follows it, and the content is the old content plus the byte; the trailing assert is the precondition |
| `TextBuffers.TextBuffer.Backspace` | main.c:47-53 | an empty buffer is untouched; otherwise the last byte is dropped and the content is the old content without it |
| `TextBuffers.TextBuffer.Duplicate` | main.c:55-59 | a fresh independent buffer holding the text up to its first NUL, which is all of it when the text holds no NUL |
| `TextBuffers.TextBuffer.Zero` | main.c:61-65 | the buffer becomes empty and terminated, keeping its storage |
| `TextBuffers.Serialize` | main.c:67-75 | writes exactly the length field and the name at the offset, returns 4 + length, and leaves every other byte of the stream as it was |
| `TextBuffers.Deserialize` | main.c:77-86 | a fresh buffer whose length is the decoded field and whose text is the bytes after it; bytes read = 4 + length |
| `Records.FirstInactive` | main.c:119-126 | the slot the scan of `arr_add` stops at: every slot before it is live, and it is inactive or the end |
| `Records.Inserted` | main.c:116-135 | after an insertion the record, made live, sits at the first inactive slot or at the end, and every other slot is unchanged |
| `Records.Removed` | main.c:109-114 | the slot at the index becomes inactive with its name and flag kept, and every other slot is unchanged |
| `Records.Toggled` | main.c:326 | the slot at the index has its `done` flag flipped with its name and liveness kept, and every other slot is unchanged |
| `Records.ActiveEntries` | main.c:317-321 | the live records in slot order, never more than the slots |
| `Records.AsSlots` | main.c:204-218 | the store built by appending entries has one live slot per entry, holding that entry |
| `Records.InsertedNamesFit` | main.c:116-135 | an insertion of a name that fits a buffer keeps every live name within the buffer bound |
| `Records.ActiveEntriesFit` | main.c:158-161 | the live records of such a store have names that fit a buffer |
| `Records.ActiveEntriesAppend` | main.c:317-321 | the live records of two runs of slots are those of the first run, then those of the second |
| `Records.ActiveEntriesAround` | main.c:317-321 | the live records split around one slot, which contributes its entry only if it is live |
| `Records.RemovedDropsEntry` | main.c:109-114 | removing a live record drops exactly its entry, keeps the others in order, and lowers the count by one |
| `Records.ToggledFlipsEntry` | main.c:326 | the click flips the flag of that record's entry and changes no other entry |
| `Records.InsertedReuses` | main.c:119-126 | when a slot is free the new record's entry takes that slot's place among the others: after the live records before it, before those after it |
| `Records.InsertedAppends` | main.c:134 | when no slot is free the new record's entry comes after all the others |
| `Records.InsertRemoveInsert` | main.c:109-126 | insert, remove that slot, insert again: the second record reuses the slot and the store is as if only it had been inserted |
| `Records.AsSlotsEntries` | main.c:204-218 | a store built from entries holds exactly those entries in order, with no free slot |
| `Records.InsertedAsSlots` | main.c:217 | adding one more loaded record to a store built from entries appends it |
| `Records.RecordArray.constructor` | main.c:137-145 | the store starts with no used slots and a block of `INITIAL_CAPACITY` records |
| `Records.RecordArray.Add` | main.c:116-135 | the slots become `Inserted(old slots, record)`; the capacity doubles exactly when no slot is free and the append would use the last slot |
| `Records.RecordArray.Grow` | main.c:128-132 | the capacity doubles into a fresh block and the used slots are carried over |
| `Records.RecordArray.Remove` | main.c:109-114 | a live slot is tombstoned and nothing else changes |
| `Records.RecordArray.ToggleDone` | main.c:326 | that record's `done` flag flips and nothing else changes |
| `Persistence.EncodeDone` | main.c:178 | the flag byte is nonzero exactly when the record is done |
| `Persistence.EncodeEntry` | main.c:176-179 | one record on file is its length field, its name and one flag byte, and the byte after the name is the encoded flag |
| `Persistence.EncodeEntries` | main.c:171-180 | the write loop's output for the live records, empty exactly when there are none |
| `Persistence.Encode` | main.c:168-180 | the file begins with the record count as a four-byte `int` and continues with exactly the records' bytes |
| `Persistence.SaveSize` | main.c:152-163 | the size the first loop of `save_data` computes, at least the count field |
| `Persistence.ParseEntries` | main.c:204-218 | reading n records succeeds only with n records, every name fitting a buffer |
| `Persistence.Parse` | main.c:199-218 | a file that reads at all holds at most `INT32_MAX` records, every name fitting a buffer |
| `Persistence.EncodeEntriesSnoc` | main.c:171-180 | writing one more record appends its bytes |
| `Persistence.SaveSizeIsEncodedSize` | main.c:183 | the computed size is the size of what is written, so the assertion in `save_data` holds |
| `Persistence.SaveSizeGrows` | main.c:152-163 | the size of a prefix of the slots is at most the size of all of them |
| `Persistence.ParseEntriesAt` | main.c:206-216 | one turn of the read loop: the record's length field, name and flag at their offsets, and the rest read from just after the flag |
| `Persistence.EncodedEntryFields` | main.c:174-177 | where the length field, name and flag of one written record lie |
| `Persistence.ParseEncodedEntry` | main.c:206-216 | a record written in front of readable records reads back first, followed by them |
| `Persistence.ParseEncodedEntries` | main.c:171-180 | the records written for a list read back as that list, whatever follows |
| `Persistence.RoundTrip` | main.c:150-220 | a whole file written for records whose names fit reads back as those records |
| `Persistence.SaveLoadRoundTrip` | main.c:188-220 | saving a store and loading the file gives back its live records in slot order, one per slot; tombstoned slots are gone |
| `Persistence.WriteRecord` | main.c:176-179 | one live record's bytes are written at the offset after the bytes before it, and their count is returned |
| `Persistence.SizeRecords` | main.c:152-163 | the sizing loop yields the size of the encoded file and the number of live records |
| `Persistence.WriteSlot` | main.c:171-180 | one turn of the write loop extends the written prefix by that slot's record if it is live |
| `Persistence.WriteRecords` | main.c:171-180 | the write loop fills the buffer with the count followed by every live record in slot order |
| `Persistence.SaveData` | main.c:150-186 | the bytes handed to the file are exactly `Encode` of the live records, and their number is the precomputed size |
| `Persistence.ReadRecord` | main.c:206-216 | one turn of the read loop yields the next record of the file, made live, and the offset of the one after it |
| `Persistence.AddLoaded` | main.c:217 | adding a loaded record to the store built so far appends it |
| `Persistence.ReadRecords` | main.c:199-220 | loading fills the empty store with the file's records in order, one live slot each, and the length equals the count field |
| `Persistence.LoadData` | main.c:188-222 | with no file, the empty store is saved; otherwise the store holds the file's records in order and its length equals the count |
| `Allocation.CreatedBlockTooSmall` | main.c:144 | as written, the sixth record added to a fresh store is written past the block `arr_create` allocated |
| `Allocation.GrownBlockTooSmall` | main.c:131 | as written, the record added right after the first growth is written past the reallocated block |
| `Allocation.BlockHoldsEverySlot` | main.c:128-135 | a block of `capacity` records holds every slot below `capacity`, and doubling it keeps the old slots in place |

## Left out

- The raylib window, drawing, input handling, the icon and the colour
  constants are not modelled. The model keeps only the statements these
  call: the click at line 326, `arr_add` of the typed name, `str_zero`,
  `str_append`, `str_backspace` and `arr_remove`.
- File I/O is replaced by parameters. `FileExists`, `LoadFileData` and
  `SaveFileData` do not appear: `LoadData` receives the file's bytes or
  nothing, and `SaveData` returns the bytes it would write. The `printf`
  tracing is not modelled.
- `MemAlloc` is assumed to return zero-filled storage (raylib's allocator
  clears what it hands out). `str_create` copies with `strncpy` of exactly the
  text's length and writes no terminator, so `TextBuffer.Create` is
  terminated only under this assumption.
- Record names are held by value (`seq<byte>`), not as pointers to text
  buffers. Pointer sharing between a record and the input line cannot be
  expressed. `str_destroy` is modelled only as the slot becoming inactive.
- Records.RecordArray.constructor: models the first call of `arr_create` on
  the global initialiser. The re-invocation branch that frees an existing
  block is not modelled.
- Persistence.LoadData: requires an empty store and a file `Parse` accepts.
  The source checks neither. A malformed file is undefined behaviour there, or
  the abort at main.c:220 when the count is negative (the loop at main.c:204
  then reads nothing). The closing assertion holds only on a fresh store.
- TextBuffers.TextBuffer.Append: its assertion is a precondition. The source
  aborts when the buffer is full; no error value is returned.
- Records.RecordArray.ToggleDone: requires a live slot. The draw loop skips
  inactive slots before the click is handled.
- Records.RecordArray.Remove: requires a live slot. The source checks only
  the range; removing a tombstoned slot would free its name twice, which the
  by-value model cannot show. The draw loop calls it only for live slots
  (main.c:320-321).
- Int overflow of sizes and counts is not modelled: the running total of
  `save_data` and the record count. With names below 128 bytes this needs
  more than ten million records.
- The loaded `done` byte is read as `!= 0`. The source copies the byte into
  a C `bool`, where any byte other than 0 or 1 is undefined.
- `Allocation` sizes assume the LP64 data model. They are 16 bytes for
  `string`, 24 for `TodoRecord` and 16 for `RecordArray`.

## Findings

| source | as written | input that shows it | evidently intended | confidence | as-written member | corrected member |
|---|---|---|---|---|---|---|
| main.c:144 | `arr_create` allocates `sizeof(RecordArray) * capacity` bytes, 128 for the initial 8 slots | six items added to a fresh store: the sixth goes to slot 5, bytes 120-143 of a 128-byte block | `sizeof(TodoRecord) * capacity` | not executed; depends on LP64 struct sizes | `Allocation.CreatedBlockTooSmall` | `Allocation.BlockHoldsEverySlot` |
| main.c:131 | `MemRealloc(records.data, records.capacity)` takes the new capacity as a byte count, 16 bytes after the first doubling | eight items added to a fresh store: the eighth doubles the capacity to 16 and goes to slot 7, bytes 168-191 of a 16-byte block | `records.capacity * sizeof(TodoRecord)` bytes | not executed | `Allocation.GrownBlockTooSmall` | `Allocation.BlockHoldsEverySlot` |
