/**
  The bounded text buffer (`string` in main.c): a heap block of STR_ALLOCSIZE
  bytes with a tracked length, kept NUL-terminated so that it can be drawn as
  a C string.  Used for the input line the user types and, by content, for the
  name of every record.
*/
module TextBuffers {
  import opened Bytes

  const STR_ALLOCSIZE: int := 128
  const NUL: byte := 0

  /** Length of the C string held in `s`: the bytes before the first NUL (all of `s` if there is none). */
  function CStrLen(s: seq<byte>): (n: nat)
    ensures n <= |s|
    ensures forall i :: 0 <= i < n ==> s[i] != NUL
    ensures n < |s| ==> s[n] == NUL
  {
    if s == [] || s[0] == NUL then 0 else 1 + CStrLen(s[1..])
  }

  /** A NUL at index `k` bounds the C string: it ends at the first NUL at or before `k`. */
  lemma {:induction false} CStrLenUpTo(s: seq<byte>, k: nat)
    requires k < |s| && s[k] == NUL
    ensures CStrLen(s) <= k
    ensures CStrLen(s) == CStrLen(s[..k])
  {
    if s[0] != NUL {
      CStrLenUpTo(s[1..], k - 1);
      assert s[1..][..k - 1] == s[..k][1..];
    }
  }

  /** The bytes `str_serialize` writes for a buffer holding `name`: its length as a C `int`, then its bytes, no terminator. */
  function EncodeText(name: seq<byte>): (b: seq<byte>)
    ensures |b| == 4 + |name| && b[4..] == name
  {
    EncodeI32(|name|) + name
  }

  /**
    What `str_serialize` writes for a name a buffer can hold, `str_deserialize`
    reads back: the length field decodes to the name's length, which a buffer
    can hold, and the bytes after it are the name.
  */
  lemma TextRoundTrip(name: seq<byte>, s: seq<byte>, at: nat)
    requires |name| < STR_ALLOCSIZE
    requires at + 4 + |name| <= |s| && s[at..at + 4 + |name|] == EncodeText(name)
    ensures 0 <= DecodeI32(s, at) < STR_ALLOCSIZE
    ensures DecodeI32(s, at) == |name| && s[at + 4..at + 4 + DecodeI32(s, at)] == name
  {
    var written := s[at..at + 4 + |name|];
    assert s[at..at + 4] == written[..4] == EncodeI32(|name|);
    I32RoundTrip(|name|, s, at);
    assert s[at + 4..at + 4 + |name|] == written[4..];
  }

  class TextBuffer {
    var begin: array<byte>
    var length: int

    /** The buffer owns STR_ALLOCSIZE bytes, its length leaves room for the terminator, and the terminator is in place. */
    ghost predicate Valid()
      reads this, begin
    {
      && begin.Length == STR_ALLOCSIZE
      && 0 <= length < STR_ALLOCSIZE
      && begin[length] == NUL
    }

    /** The text the buffer holds. */
    function Content(): (s: seq<byte>)
      reads this, begin
      requires Valid()
    {
      begin[..length]
    }

    /**
      `str_create`: a fresh block holding a copy of the C string in `text`.
      The block is zero-filled, as the allocator hands it out, so the copy is
      terminated although the byte copy itself writes no terminator.
    */
    constructor Create(text: seq<byte>)
      requires CStrLen(text) < STR_ALLOCSIZE
      ensures Valid() && fresh(begin)
      ensures Content() == text[..CStrLen(text)]
    {
      var len := CStrLen(text);
      var data := new byte[STR_ALLOCSIZE](_ => NUL);
      var i := 0;
      while i < len
        invariant 0 <= i <= len
        invariant data[..i] == text[..i]
        invariant forall j :: i <= j < STR_ALLOCSIZE ==> data[j] == NUL
      {
        data[i] := text[i];
        i := i + 1;
      }
      begin := data;
      length := len;
    }

    /**
      `str_append`: stores `c` after the text and re-terminates.  The source
      asserts afterwards that the length is still below STR_ALLOCSIZE - 1 and
      aborts otherwise; that assertion is this method's precondition.
    */
    method Append(c: byte)
      requires Valid()
      requires length + 1 < STR_ALLOCSIZE - 1
      modifies this, begin
      ensures Valid() && begin == old(begin)
      ensures length == old(length) + 1
      ensures begin[length - 1] == c && begin[length] == NUL
      ensures Content() == old(Content()) + [c]
    {
      begin[length] := c;
      length := length + 1;
      begin[length] := NUL;
    }

    /** `str_backspace`: drops the last byte; does nothing to an empty buffer. */
    method Backspace()
      requires Valid()
      modifies this, begin
      ensures Valid() && begin == old(begin)
      ensures old(length) == 0 ==> length == 0 && begin[..] == old(begin[..])
      ensures old(length) > 0 ==> length == old(length) - 1 && Content() == old(Content())[..length]
    {
      if length < 1 {
        return;
      }
      length := length - 1;
      begin[length] := NUL;
    }

    /**
      `str_duplicate`: a new, independent buffer made by `str_create` from this
      buffer's storage, so it copies the text up to its first NUL: all of it
      when the text holds no NUL byte.
    */
    method Duplicate() returns (s: TextBuffer)
      requires Valid()
      ensures fresh(s) && fresh(s.begin) && s.Valid()
      ensures s.Content() == Content()[..CStrLen(Content())]
      ensures (forall i :: 0 <= i < length ==> begin[i] != NUL) ==> s.Content() == Content()
    {
      CStrLenUpTo(begin[..], length);
      assert begin[..][..length] == Content();
      s := new TextBuffer.Create(begin[..]);
      assert (forall i :: 0 <= i < length ==> begin[i] != NUL) ==> CStrLen(Content()) == length;
    }

    /** `str_zero`: empties the buffer, keeping its storage. */
    method Zero()
      requires Valid()
      modifies this, begin
      ensures Valid() && begin == old(begin)
      ensures length == 0 && Content() == []
    {
      begin[0] := NUL;
      length := 0;
    }
  }

  /**
    `str_serialize`: writes the length of a buffer holding `name` and then its
    bytes into `stream` from index `at`, and returns the number of bytes written.
  */
  method Serialize(name: seq<byte>, stream: array<byte>, at: int) returns (len: int)
    requires 0 <= at && at + 4 + |name| <= stream.Length
    modifies stream
    ensures len == 4 + |name| && len == |EncodeText(name)|
    ensures stream[..] == old(stream[..at]) + EncodeText(name) + old(stream[at + len..])
  {
    ghost var target := old(stream[..at]) + EncodeText(name) + old(stream[at + 4 + |name|..]);
    var prefix := EncodeI32(|name|);
    stream[at], stream[at + 1], stream[at + 2], stream[at + 3] := prefix[0], prefix[1], prefix[2], prefix[3];
    len := 4;
    var i := 0;
    while i < |name|
      invariant 0 <= i <= |name|
      invariant forall j :: 0 <= j < at + 4 + i ==> stream[j] == target[j]
      invariant forall j :: at + 4 + |name| <= j < stream.Length ==> stream[j] == target[j]
    {
      stream[at + len + i] := name[i];
      i := i + 1;
    }
    assert stream[..] == target;
    len := len + |name|;
  }

  /**
    `str_deserialize`: a new buffer whose length is the C `int` at `stream[at]`
    and whose text is the bytes after it; `bytesRead` counts the length field
    and the text.  The source checks nothing: the length must be one a buffer
    can hold and the text must lie inside the stream.
  */
  method Deserialize(stream: array<byte>, at: int) returns (str: TextBuffer, bytesRead: int)
    requires 0 <= at && at + 4 <= stream.Length
    requires 0 <= DecodeI32(stream[..], at) < STR_ALLOCSIZE
    requires at + 4 + DecodeI32(stream[..], at) <= stream.Length
    ensures fresh(str) && fresh(str.begin) && str.Valid()
    ensures str.length == DecodeI32(stream[..], at) && bytesRead == 4 + str.length
    ensures str.Content() == stream[at + 4..at + bytesRead]
  {
    str := new TextBuffer.Create([]);
    var len := DecodeI32(stream[..], at);
    var i := 0;
    while i < len
      invariant 0 <= i <= len
      invariant fresh(str) && fresh(str.begin) && str.begin.Length == STR_ALLOCSIZE
      invariant str.begin[..i] == stream[at + 4..at + 4 + i]
    {
      str.begin[i] := stream[at + 4 + i];
      i := i + 1;
    }
    str.length := len;
    str.begin[str.length] := NUL;
    bytesRead := 4 + str.length;
  }
}
