/**
  The save file (`save_data` / `load_data` in main.c).  Layout, every integer
  a little-endian C `int`:

    count, then per live record in ascending slot order:
    name length, the name's bytes (no terminator), one byte for `done`.

  The file calls are parameters here: `SaveData` returns the bytes it would
  write and `LoadData` is handed the bytes read, or nothing when no file exists.
*/
module Persistence {
  import opened Bytes
  import opened TextBuffers
  import opened Records

  datatype Option<T> = None | Some(value: T)

  /** The byte `memcpy` copies out of a C `bool`. */
  function EncodeDone(done: bool): (b: byte)
    ensures (b != 0) == done
  {
    if done then 1 else 0
  }

  /** One record on file: its name as `str_serialize` writes it, then its flag. */
  function EncodeEntry(e: Entry): (b: seq<byte>)
    ensures |b| == 4 + |e.name| + 1 && b[4 + |e.name|] == EncodeDone(e.done)
  {
    EncodeText(e.name) + [EncodeDone(e.done)]
  }

  /** The live records one after another, in order; nothing is written exactly when there are none. */
  function EncodeEntries(es: seq<Entry>): (b: seq<byte>)
    ensures (b == []) == (es == [])
  {
    if es == [] then [] else EncodeEntry(es[0]) + EncodeEntries(es[1..])
  }

  /** The whole file for the live records `es`. */
  function Encode(es: seq<Entry>): (b: seq<byte>)
    ensures |b| >= 4 && b[..4] == EncodeI32(|es|) && b[4..] == EncodeEntries(es)
  {
    EncodeI32(|es|) + EncodeEntries(es)
  }

  /** The size `save_data`'s first loop computes: the count, then length field, name and flag of each live slot. */
  function SaveSize(slots: seq<TodoRecord>): (size: int)
    ensures size >= 4
  {
    if slots == [] then 4
    else
      var last := slots[|slots| - 1];
      SaveSize(slots[..|slots| - 1]) + (if last.active then 4 + |last.name| + 1 else 0)
  }

  /**
    The `n` records `load_data` reads from the start of `s`, or None where the
    source would read a negative or oversized name length or run past the end.
  */
  function ParseEntries(s: seq<byte>, n: nat): (r: Option<seq<Entry>>)
    ensures r.Some? ==> |r.value| == n && EntriesFit(r.value)
    decreases n
  {
    if n == 0 then Some([])
    else if |s| < 4 then None
    else
      var len := DecodeI32(s, 0);
      if len < 0 || len >= STR_ALLOCSIZE || |s| < 4 + len + 1 then None
      else
        var e := Entry(s[4..4 + len], s[4 + len] != 0);
        match ParseEntries(s[4 + len + 1..], n - 1)
        case None => None
        case Some(rest) => Some([e] + rest)
  }

  /** The records a file holds, or None for a file `load_data` cannot read safely. */
  function Parse(s: seq<byte>): (r: Option<seq<Entry>>)
    ensures r.Some? ==> |r.value| <= INT32_MAX && EntriesFit(r.value)
  {
    if |s| < 4 then None
    else
      var count := DecodeI32(s, 0);
      if count < 0 then None else ParseEntries(s[4..], count)
  }

  lemma {:induction false} EncodeEntriesSnoc(es: seq<Entry>, e: Entry)
    ensures EncodeEntries(es + [e]) == EncodeEntries(es) + EncodeEntry(e)
  {
    if es != [] {
      assert (es + [e])[1..] == es[1..] + [e];
      EncodeEntriesSnoc(es[1..], e);
    }
  }

  /** The precomputed size is the size of what is written: the assertion at the end of `save_data` holds. */
  lemma {:induction false} SaveSizeIsEncodedSize(slots: seq<TodoRecord>)
    ensures SaveSize(slots) == |Encode(ActiveEntries(slots))|
  {
    if slots != [] {
      var init, last := slots[..|slots| - 1], slots[|slots| - 1];
      SaveSizeIsEncodedSize(init);
      if last.active {
        EncodeEntriesSnoc(ActiveEntries(init), EntryOf(last));
      }
    }
  }

  /** The size of a prefix of the slots never exceeds the size of all of them. */
  lemma {:induction false} SaveSizeGrows(slots: seq<TodoRecord>, i: nat)
    requires i <= |slots|
    ensures SaveSize(slots[..i]) <= SaveSize(slots)
    decreases |slots|
  {
    if i == |slots| {
      assert slots[..i] == slots;
    } else {
      var init := slots[..|slots| - 1];
      assert init[..i] == slots[..i];
      assert SaveSize(init) <= SaveSize(slots);
      SaveSizeGrows(init, i);
    }
  }

  /**
    One step of reading the records that start at index `at` of `bs`: the
    first one's length field, name and flag, and the rest read from `next`,
    just after its flag.
  */
  lemma ParseEntriesAt(bs: seq<byte>, at: nat, es: seq<Entry>) returns (len: int, next: int)
    requires at <= |bs| && es != [] && ParseEntries(bs[at..], |es|) == Some(es)
    ensures at + 4 <= |bs| && len == DecodeI32(bs, at)
    ensures 0 <= len < STR_ALLOCSIZE && next == at + 4 + len + 1 <= |bs|
    ensures es[0] == Entry(bs[at + 4..at + 4 + len], bs[at + 4 + len] != 0)
    ensures ParseEntries(bs[next..], |es[1..]|) == Some(es[1..])
  {
    var rest := bs[at..];
    len := DecodeI32(rest, 0);
    assert DecodeI32(bs, at) == len by {
      assert rest[0..4] == bs[at..at + 4];
    }
    next := at + 4 + len + 1;
    assert rest[4..4 + len] == bs[at + 4..at + 4 + len];
    assert rest[4 + len] == bs[at + 4 + len];
    assert rest[4 + len + 1..] == bs[next..];
    assert |es[1..]| == |es| - 1;
  }

  /** Where the fields of a record written in front of `after` lie. */
  lemma EncodedEntryFields(e: Entry, after: seq<byte>)
    ensures |EncodeEntry(e) + after| == 4 + |e.name| + 1 + |after|
    ensures (EncodeEntry(e) + after)[0..4] == EncodeI32(|e.name|)
    ensures (EncodeEntry(e) + after)[4..4 + |e.name|] == e.name
    ensures (EncodeEntry(e) + after)[4 + |e.name|] == EncodeDone(e.done)
    ensures (EncodeEntry(e) + after)[4 + |e.name| + 1..] == after
  {
    assert EncodeEntry(e) + after == EncodeI32(|e.name|) + e.name + [EncodeDone(e.done)] + after;
  }

  /** One record written in front of readable records gives readable records, that one first. */
  lemma ParseEncodedEntry(e: Entry, after: seq<byte>, rest: seq<Entry>)
    requires |e.name| < STR_ALLOCSIZE
    requires ParseEntries(after, |rest|) == Some(rest)
    ensures ParseEntries(EncodeEntry(e) + after, |[e] + rest|) == Some([e] + rest)
  {
    var s := EncodeEntry(e) + after;
    EncodedEntryFields(e, after);
    I32RoundTrip(|e.name|, s, 0);
    assert |[e] + rest| - 1 == |rest|;
  }

  /** The records written for `es` read back as `es`, whatever follows them. */
  lemma {:induction false} ParseEncodedEntries(es: seq<Entry>, trailing: seq<byte>)
    requires EntriesFit(es)
    ensures ParseEntries(EncodeEntries(es) + trailing, |es|) == Some(es)
  {
    if es != [] {
      var e, rest := es[0], es[1..];
      var after := EncodeEntries(rest) + trailing;
      assert ParseEntries(EncodeEntry(e) + after, |es|) == Some(es) by {
        ParseEncodedEntries(rest, trailing);
        ParseEncodedEntry(e, after, rest);
        assert [e] + rest == es;
      }
      assert EncodeEntries(es) + trailing == EncodeEntry(e) + after by {
        assert EncodeEntries(es) == EncodeEntry(e) + EncodeEntries(rest);
      }
    }
  }

  /** Round trip: a file written for records whose names fit a buffer reads back as those records, whatever follows it. */
  lemma RoundTrip(es: seq<Entry>, trailing: seq<byte>)
    requires EntriesFit(es) && |es| <= INT32_MAX
    ensures Parse(Encode(es) + trailing) == Some(es)
  {
    var s := Encode(es) + trailing;
    assert s[0..4] == EncodeI32(|es|);
    I32RoundTrip(|es|, s, 0);
    assert s[4..] == EncodeEntries(es) + trailing;
    ParseEncodedEntries(es, trailing);
  }

  /**
    Saving a store and loading the file into a fresh store gives back its live
    records, in slot order, one per slot; tombstoned slots are gone.
  */
  lemma SaveLoadRoundTrip(slots: seq<TodoRecord>)
    requires NamesFit(slots) && |ActiveEntries(slots)| <= INT32_MAX
    ensures Parse(Encode(ActiveEntries(slots))) == Some(ActiveEntries(slots))
    ensures ActiveEntries(AsSlots(ActiveEntries(slots))) == ActiveEntries(slots)
  {
    ActiveEntriesFit(slots);
    RoundTrip(ActiveEntries(slots), []);
    assert Encode(ActiveEntries(slots)) + [] == Encode(ActiveEntries(slots));
    AsSlotsEntries(ActiveEntries(slots));
  }

  /** The body of `save_data`'s write loop for one live record: its name by `str_serialize`, then its flag. */
  method WriteRecord(r: TodoRecord, bytes: array<byte>, at: int) returns (n: int)
    requires 0 <= at && at + 4 + |r.name| + 1 <= bytes.Length
    modifies bytes
    ensures n == |EncodeEntry(EntryOf(r))| == 4 + |r.name| + 1
    ensures bytes[..at + n] == old(bytes[..at]) + EncodeEntry(EntryOf(r))
  {
    ghost var before := bytes[..at];
    n := Serialize(r.name, bytes, at);
    ghost var text := bytes[..at + n];
    assert text == before + EncodeText(r.name) by {
      assert text == bytes[..][..at + n];
    }
    bytes[at + n] := EncodeDone(r.done);
    n := n + 1;
    assert bytes[..at + n] == text + [EncodeDone(r.done)];
  }

  /**
    `save_data` without the file write: sizes the live records, writes the
    count and each live record, and checks that it wrote exactly the size it
    computed.
  */
  method SaveData(records: RecordArray) returns (bytes: array<byte>)
    requires records.Valid()
    ensures bytes.Length == SaveSize(records.Slots())
    ensures bytes[..] == Encode(ActiveEntries(records.Slots()))
  {
    var totalSize, activeRecords := SizeRecords(records);
    bytes := new byte[totalSize];
    var count := EncodeI32(activeRecords);
    bytes[0], bytes[1], bytes[2], bytes[3] := count[0], count[1], count[2], count[3];
    var totalWritten := WriteRecords(records, bytes, count);
    assert totalSize == totalWritten;
  }

  /** The write loop of `save_data`: after the count, each live record in slot order; returns where it stopped. */
  method WriteRecords(records: RecordArray, bytes: array<byte>, count: seq<byte>) returns (totalWritten: int)
    requires records.Valid()
    requires |count| == 4 && bytes.Length == SaveSize(records.Slots()) && bytes[..4] == count
    modifies bytes
    ensures totalWritten == SaveSize(records.Slots())
    ensures bytes[..] == count + EncodeEntries(ActiveEntries(records.Slots()))
  {
    var data, length := records.data, records.length;
    ghost var slots := data[..length];
    totalWritten := 4;
    var i := 0;
    assert slots[..i] == [];
    SaveSizeGrows(slots, 0);
    while i < length
      invariant 0 <= i <= length
      invariant totalWritten == SaveSize(slots[..i]) <= SaveSize(slots)
      invariant bytes[..totalWritten] == count + EncodeEntries(ActiveEntries(slots[..i]))
    {
      SaveSizeGrows(slots, i + 1);
      totalWritten := WriteSlot(data[..length], i, bytes, totalWritten, count);
      i := i + 1;
    }
    assert slots[..i] == slots;
    assert bytes[..] == bytes[..totalWritten];
  }

  /** One turn of `save_data`'s write loop: slot `i` written after the records before it when it is live, skipped otherwise. */
  method WriteSlot(slots: seq<TodoRecord>, i: int, bytes: array<byte>, at: int, ghost count: seq<byte>) returns (next: int)
    requires 0 <= i < |slots|
    requires at == SaveSize(slots[..i]) <= SaveSize(slots) <= bytes.Length
    requires bytes[..at] == count + EncodeEntries(ActiveEntries(slots[..i]))
    modifies bytes
    ensures next == SaveSize(slots[..i + 1]) <= bytes.Length
    ensures bytes[..next] == count + EncodeEntries(ActiveEntries(slots[..i + 1]))
  {
    assert slots[..i + 1][..i] == slots[..i];
    SaveSizeGrows(slots, i + 1);
    ghost var written := ActiveEntries(slots[..i]);
    next := at;
    if slots[i].active {
      var r := slots[i];
      assert ActiveEntries(slots[..i + 1]) == written + [EntryOf(r)];
      ghost var prefix := bytes[..at];
      var n := WriteRecord(r, bytes, at);
      assert bytes[..at + n] == count + EncodeEntries(written + [EntryOf(r)]) by {
        EncodeEntriesSnoc(written, EntryOf(r));
        assert bytes[..at + n] == prefix + EncodeEntry(EntryOf(r));
      }
      next := at + n;
    } else {
      assert ActiveEntries(slots[..i + 1]) == written;
    }
  }

  /** The sizing loop of `save_data`: the bytes the file needs and the number of live records. */
  method SizeRecords(records: RecordArray) returns (totalSize: int, activeRecords: int)
    requires records.Valid()
    ensures totalSize == SaveSize(records.Slots()) == |Encode(ActiveEntries(records.Slots()))|
    ensures activeRecords == |ActiveEntries(records.Slots())|
  {
    ghost var slots := records.Slots();
    totalSize := 4;
    activeRecords := 0;
    var i := 0;
    while i < records.length
      invariant 0 <= i <= records.length
      invariant totalSize == SaveSize(slots[..i])
      invariant activeRecords == |ActiveEntries(slots[..i])|
    {
      assert slots[..i + 1][..i] == slots[..i];
      if records.data[i].active {
        totalSize := totalSize + 4 + |records.data[i].name| + 1;
        activeRecords := activeRecords + 1;
      }
      i := i + 1;
    }
    assert slots[..i] == slots;
    SaveSizeIsEncodedSize(slots);
  }

  /**
    One turn of `load_data`'s loop: `str_deserialize` reads the name at
    `data[at]`, the flag byte follows it, and the record is made live.  It is
    the first of the records `es` the file holds from `at`, and the others
    follow from `next`.
  */
  method ReadRecord(data: array<byte>, at: int, ghost bs: seq<byte>, ghost es: seq<Entry>) returns (record: TodoRecord, next: int)
    requires data[..] == bs
    requires 0 <= at <= |bs| && es != []
    requires ParseEntries(bs[at..], |es|) == Some(es)
    ensures record == RecordOf(es[0]) && |record.name| < STR_ALLOCSIZE
    ensures next == at + 4 + |record.name| + 1 <= |bs|
    ensures ParseEntries(bs[next..], |es[1..]|) == Some(es[1..])
  {
    ghost var len, after := ParseEntriesAt(bs, at, es);
    var str, bytesRead := Deserialize(data, at);
    var done := data[at + bytesRead] != 0;
    record := TodoRecord(str.Content(), done, true);
    next := at + bytesRead + 1;
    assert next == after;
  }

  /** `arr_add` of the next record read into a store built from the records read before it: it is appended. */
  method AddLoaded(records: RecordArray, record: TodoRecord, ghost loaded: seq<Entry>, ghost e: Entry)
    requires records.Valid() && records.Slots() == AsSlots(loaded)
    requires record == RecordOf(e) && |e.name| < STR_ALLOCSIZE
    modifies records, records.data
    ensures records.Valid() && records.Slots() == AsSlots(loaded + [e])
    ensures records.data == old(records.data) || fresh(records.data)
  {
    InsertedAsSlots(loaded, e);
    records.Add(record);
  }

  /**
    `load_data` without the file calls.  With no file it saves the (empty)
    store and returns the bytes that establish the file.  Otherwise it reads
    the count and re-inserts every record through `arr_add`; the source checks
    nothing, so the file must be one `Parse` accepts, and it asserts afterwards
    that the store holds exactly the count, which holds for the fresh store it
    is called on.
  */
  method LoadData(records: RecordArray, file: Option<array<byte>>) returns (created: Option<array<byte>>)
    requires records.Valid() && records.length == 0
    requires file.Some? ==> Parse(file.value[..]).Some?
    modifies records, records.data
    ensures records.Valid()
    ensures file.None? ==> records.Slots() == [] && created.Some? && created.value[..] == Encode([])
    ensures file.Some? ==> created.None? && records.Slots() == AsSlots(Parse(file.value[..]).value)
    ensures file.Some? ==> records.length == DecodeI32(file.value[..], 0)
  {
    if file.None? {
      var bytes := SaveData(records);
      assert ActiveEntries(records.Slots()) == [];
      return Some(bytes);
    }
    ReadRecords(records, file.value);
    created := None;
  }

  /** The loop of `load_data`: every record in the file, in order, through `arr_add`, then the closing assertion. */
  method ReadRecords(records: RecordArray, data: array<byte>)
    requires records.Valid() && records.length == 0
    requires Parse(data[..]).Some?
    modifies records, records.data
    ensures records.Valid() && records.Slots() == AsSlots(Parse(data[..]).value)
    ensures records.length == DecodeI32(data[..], 0)
  {
    ghost var bs := data[..];
    ghost var es := Parse(bs).value;
    var totalRead := 0;
    var arrlen := DecodeI32(data[..], 0);
    totalRead := totalRead + 4;
    var i := 0;
    ghost var pending := es;
    assert bs[totalRead..] == bs[4..];
    while i < arrlen
      invariant 0 <= i <= arrlen
      invariant 0 <= totalRead <= data.Length
      invariant data[..] == bs
      invariant records.Valid()
      invariant records.data == old(records.data) || fresh(records.data)
      invariant pending == es[i..] && |pending| == arrlen - i
      invariant ParseEntries(bs[totalRead..], |pending|) == Some(pending)
      invariant records.Slots() == AsSlots(es[..i])
    {
      var record, next := ReadRecord(data, totalRead, bs, pending);
      totalRead := next;
      assert es[..i] + [es[i]] == es[..i + 1];
      AddLoaded(records, record, es[..i], es[i]);
      assert pending[1..] == es[i + 1..];
      pending := pending[1..];
      i := i + 1;
    }
    assert es[..i] == es;
    assert arrlen == records.length;
  }
}
