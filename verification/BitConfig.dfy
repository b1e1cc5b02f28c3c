/**
  * `BitConfig_t`: a byte buffer that is written and read from the front, with a sticky error.
  */
module BitConfig {
  import opened Words

  type Bytes = seq<Byte>

  /** The buffer, the position and the error. */
  datatype Stream = Stream(bytes: Bytes, index: nat, error: bool)

  ghost predicate InBounds(s: Stream) {
    s.index <= |s.bytes|
  }

  /** One write: 8, 16 or 32 bits or a block of bytes. */
  datatype Item = Item8(b: Byte) | Item16(w: Word16) | Item32(d: Word32) | Block(bytes: Bytes)

  datatype Width = Width8 | Width16 | Width32 | Length(n: nat)

  function WidthOf(item: Item): Width {
    match item
    case Item8(_) => Width8
    case Item16(_) => Width16
    case Item32(_) => Width32
    case Block(bytes) => Length(|bytes|)
  }

  function Size(width: Width): nat {
    match width
    case Width8 => 1
    case Width16 => 2
    case Width32 => 4
    case Length(n) => n
  }

  /** The bytes of an item, in network order. */
  function Encoded(item: Item): (bytes: Bytes)
    ensures |bytes| == Size(WidthOf(item))
  {
    match item
    case Item8(b) => [b]
    case Item16(w) => [HighByte(w), LowByte(w)]
    case Item32(d) => [ByteOf32(d, 0), ByteOf32(d, 1), ByteOf32(d, 2), ByteOf32(d, 3)]
    case Block(bytes) => bytes
  }

  /** The most significant byte comes first. */
  lemma NetworkOrder(w: Word16, d: Word32)
    ensures var b := Encoded(Item16(w)); 0x100 * (b[0] as int) + b[1] == w
    ensures var b := Encoded(Item32(d));
            0x100_0000 * (b[0] as int) + 0x1_0000 * (b[1] as int) + 0x100 * (b[2] as int) + b[3] == d
  {
    PartsWord(w);
    BytesOf32(d);
  }

  /** The bytes of the items from number `k` on. */
  function EncodedFrom(items: seq<Item>, k: nat): Bytes
    requires k <= |items|
    decreases |items| - k
  {
    if k == |items| then [] else Encoded(items[k]) + EncodedFrom(items, k + 1)
  }

  function EncodedAll(items: seq<Item>): Bytes {
    EncodedFrom(items, 0)
  }

  /** The value in the bytes. */
  function ItemIn(bytes: Bytes, width: Width): Item
    requires |bytes| == Size(width)
  {
    match width
    case Width8 => Item8(bytes[0])
    case Width16 => Item16(BE16(bytes[0], bytes[1]))
    case Width32 => Item32(BE32(bytes[0], bytes[1], bytes[2], bytes[3]))
    case Length(_) => Block(bytes)
  }

  lemma ItemRoundTrip(item: Item)
    ensures ItemIn(Encoded(item), WidthOf(item)) == item
  {
    match item
    case Item8(_) =>
    case Item16(w) => PartsWord(w);
    case Item32(d) => BytesOf32(d);
    case Block(_) =>
  }

  // ---------------------------------------------------------------------------
  // Writing and reading.
  // ---------------------------------------------------------------------------

  function Overwritten(bytes: Bytes, at: nat, data: Bytes): (r: Bytes)
    requires at + |data| <= |bytes|
    ensures |r| == |bytes|
  {
    bytes[..at] + data + bytes[at + |data|..]
  }

  /** `vBitConfig_write_uc`. */
  function Written(s: Stream, data: Bytes): (r: Stream)
    ensures InBounds(s) ==> InBounds(r) && |r.bytes| == |s.bytes|
  {
    if s.error then s
    else if s.index + |data| <= |s.bytes| then Stream(Overwritten(s.bytes, s.index, data), s.index + |data|, false)
    else s.(error := true)
  }

  function WrittenFrom(s: Stream, items: seq<Item>, k: nat): Stream
    requires k <= |items|
    decreases |items| - k
  {
    if k == |items| then s else WrittenFrom(Written(s, Encoded(items[k])), items, k + 1)
  }

  function WrittenAll(s: Stream, items: seq<Item>): Stream {
    WrittenFrom(s, items, 0)
  }

  /** `xBitConfig_read_uc`: the new state and the bytes. */
  function ReadBytes(s: Stream, n: nat): (Stream, Option<Bytes>) {
    if s.error then (s, None)
    else if s.index + n <= |s.bytes| then (s.(index := s.index + n), Some(s.bytes[s.index..s.index + n]))
    else (s.(error := true), None)
  }

  /** What a failed read returns. */
  function AllOnes(width: Width): Item {
    match width
    case Width8 => Item8(0xFF)
    case Width16 => Item16(0xFFFF)
    case Width32 => Item32(0xFFFF_FFFF)
    case Length(_) => Block([])
  }

  function ReadItem(s: Stream, width: Width): (Stream, Item) {
    var (t, data) := ReadBytes(s, Size(width));
    (t, if data.Some? then ItemIn(data.value, width) else AllOnes(width))
  }

  /** Reading with the widths of the items, from number `k` on, gives the items and ends
      in the state `end`. */
  ghost predicate ReadsBack(s: Stream, items: seq<Item>, k: nat, end: Stream)
    requires k <= |items|
    decreases |items| - k
  {
    if k == |items| then s == end
    else
      var (t, item) := ReadItem(s, WidthOf(items[k]));
      item == items[k] && ReadsBack(t, items, k + 1, end)
  }

  // ---------------------------------------------------------------------------
  // What is written is read.
  // ---------------------------------------------------------------------------

  lemma OverwrittenTwice(bytes: Bytes, at: nat, a: Bytes, b: Bytes)
    requires at + |a| + |b| <= |bytes|
    ensures Overwritten(Overwritten(bytes, at, a), at + |a|, b) == Overwritten(bytes, at, a + b)
  {
  }

  lemma {:induction false} WrittenItems(s: Stream, items: seq<Item>, k: nat)
    requires InBounds(s) && k <= |items|
    ensures var t, data := WrittenFrom(s, items, k), EncodedFrom(items, k);
            && (s.error ==> t == s) && InBounds(t) && |t.bytes| == |s.bytes|
            && (!t.error <==> !s.error && s.index + |data| <= |s.bytes|)
            && (!t.error ==> t == Stream(Overwritten(s.bytes, s.index, data), s.index + |data|, false))
    decreases |items| - k
  {
    if k < |items| {
      var first := Encoded(items[k]);
      WrittenItems(Written(s, first), items, k + 1);
      if !s.error && s.index + |EncodedFrom(items, k)| <= |s.bytes| {
        OverwrittenTwice(s.bytes, s.index, first, EncodedFrom(items, k + 1));
      }
    } else {
      assert s.bytes[..s.index] + [] + s.bytes[s.index..] == s.bytes;
    }
  }

  /** A sequence of writes succeeds exactly when there is room for all of them and no error
      before; then the items lie one behind the other. An error stays. */
  lemma WritesFit(s: Stream, items: seq<Item>)
    requires InBounds(s)
    ensures var t, data := WrittenAll(s, items), EncodedAll(items);
            && (s.error ==> t == s) && InBounds(t)
            && (!t.error <==> !s.error && s.index + |data| <= |s.bytes|)
            && (!t.error ==> t == Stream(Overwritten(s.bytes, s.index, data), s.index + |data|, false))
  {
    WrittenItems(s, items, 0);
  }

  /** The bytes at the index are those of the items. */
  ghost predicate Holds(s: Stream, data: Bytes) {
    !s.error && s.index + |data| <= |s.bytes| && s.bytes[s.index..s.index + |data|] == data
  }

  lemma SplitHolds(s: Stream, first: Bytes, rest: Bytes)
    requires Holds(s, first + rest)
    ensures Holds(s, first) && Holds(s.(index := s.index + |first|), rest)
  {
    var all := s.bytes[s.index..s.index + |first + rest|];
    assert all[..|first|] == s.bytes[s.index..s.index + |first|];
    assert all[|first|..] == s.bytes[s.index + |first|..s.index + |first| + |rest|];
  }

  /** The next item is read, and what is behind it comes next. */
  lemma ReadsNext(s: Stream, item: Item, rest: Bytes)
    requires Holds(s, Encoded(item) + rest)
    ensures var t := s.(index := s.index + Size(WidthOf(item)));
            ReadItem(s, WidthOf(item)) == (t, item) && Holds(t, rest)
  {
    SplitHolds(s, Encoded(item), rest);
    ItemRoundTrip(item);
  }

  lemma {:induction false} ReadsItems(s: Stream, items: seq<Item>, k: nat, end: Stream)
    requires k <= |items| && Holds(s, EncodedFrom(items, k))
    requires end == s.(index := s.index + |EncodedFrom(items, k)|)
    ensures ReadsBack(s, items, k, end)
    decreases |items| - k
  {
    if k < |items| {
      ReadsNext(s, items[k], EncodedFrom(items, k + 1));
      ReadsItems(s.(index := s.index + Size(WidthOf(items[k]))), items, k + 1, end);
    }
  }

  /** Any sequence of writes that leaves no error is read back with the same widths. */
  lemma RoundTrip(s: Stream, items: seq<Item>)
    requires InBounds(s) && !WrittenAll(s, items).error
    ensures ReadsBack(WrittenAll(s, items).(index := s.index), items, 0, WrittenAll(s, items))
  {
    WrittenItems(s, items, 0);
    var t, data := WrittenAll(s, items).(index := s.index), EncodedAll(items);
    assert Overwritten(s.bytes, s.index, data)[s.index..s.index + |data|] == data;
    ReadsItems(t, items, 0, WrittenAll(s, items));
  }

  // ---------------------------------------------------------------------------
  // The stream object.
  // ---------------------------------------------------------------------------

  class BitStream {
    const contents: array<Byte>
    var index: nat
    var hasError: bool

    /** `xBitConfig_init` with memory available; without data the buffer is cleared. */
    constructor (data: Option<Bytes>, size: nat)
      requires data.Some? ==> |data.value| == size
      ensures fresh(contents) && Valid() && contents.Length == size
      ensures State() == Stream(if data.Some? then data.value else seq(size, _ => 0), 0, false)
    {
      contents := new Byte[size](k requires 0 <= k < size => if data.Some? then data.value[k] else 0);
      index, hasError := 0, false;
      new;
      assert contents[..] == if data.Some? then data.value else seq(size, _ => 0);
    }

    ghost predicate Valid()
      reads this
    {
      index <= contents.Length
    }

    ghost function State(): Stream
      reads this, contents
    {
      Stream(contents[..], index, hasError)
    }

    /** What has been written, or read. */
    ghost function Content(): (c: Bytes)
      requires Valid()
      reads this, contents
      ensures |c| == index
    {
      contents[..index]
    }

    ghost predicate HasRoom(n: nat)
      reads this
    {
      Valid() && !hasError && index + n <= contents.Length
    }

    /** `vBitConfig_write_uc`. */
    method WriteBytes(data: Bytes)
      requires Valid()
      modifies this, contents
      ensures Valid() && State() == Written(old(State()), data)
      ensures old(HasRoom(|data|)) ==> !hasError && Content() == old(Content()) + data
    {
      if !hasError {
        if index + |data| <= contents.Length {
          for k := 0 to |data|
            invariant index == old(index) && !hasError
            invariant forall j :: 0 <= j < index || index + |data| <= j < contents.Length ==>
              contents[j] == old(contents[j])
            invariant forall j :: index <= j < index + k ==> contents[j] == data[j - index]
          {
            contents[index + k] := data[k];
          }
          index := index + |data|;
        } else {
          hasError := true;
        }
      }
    }

    /** `vBitConfig_write_8`. */
    method Write8(value: Byte)
      requires Valid()
      modifies this, contents
      ensures Valid() && State() == Written(old(State()), Encoded(Item8(value)))
      ensures old(HasRoom(1)) ==> !hasError && Content() == old(Content()) + Encoded(Item8(value))
    {
      WriteBytes([value]);
    }

    /** `vBitConfig_write_16`. */
    method Write16(value: Word16)
      requires Valid()
      modifies this, contents
      ensures Valid() && State() == Written(old(State()), Encoded(Item16(value)))
      ensures old(HasRoom(2)) ==> !hasError && Content() == old(Content()) + Encoded(Item16(value))
    {
      WriteBytes([value / 0x100, value % 0x100]);
    }

    /** `vBitConfig_write_32`. */
    method Write32(value: Word32)
      requires Valid()
      modifies this, contents
      ensures Valid() && State() == Written(old(State()), Encoded(Item32(value)))
      ensures old(HasRoom(4)) ==> !hasError && Content() == old(Content()) + Encoded(Item32(value))
    {
      WriteBytes([ByteOf32(value, 0), ByteOf32(value, 1), ByteOf32(value, 2), ByteOf32(value, 3)]);
    }

    /** `xBitConfig_read_uc`. */
    method Read(size: nat) returns (data: Option<Bytes>)
      requires Valid()
      modifies this
      ensures Valid() && (State(), data) == ReadBytes(old(State()), size)
    {
      data := None;
      if !hasError {
        if index + size <= contents.Length {
          data := Some(contents[index..index + size]);
          index := index + size;
        } else {
          hasError := true;
        }
      }
    }

    /** `pucBitConfig_peek_last_index_uc`: the last bytes in front of the index. */
    method PeekLast(size: nat) returns (data: Option<Bytes>)
      requires Valid()
      modifies this`hasError
      ensures Valid() && hasError == (old(hasError) || size > index)
      ensures data == if hasError then None else Some(contents[index - size..index])
    {
      data := None;
      if !hasError {
        if index >= size {
          data := Some(contents[index - size..index]);
        } else {
          hasError := true;
        }
      }
    }

    /** `ucBitConfig_read_8`. */
    method Read8() returns (value: Byte)
      requires Valid()
      modifies this
      ensures Valid() && (State(), Item8(value)) == ReadItem(old(State()), Width8)
    {
      value := 0xFF;
      var data := Read(1);
      if data.Some? {
        value := data.value[0];
      }
    }

    /** `usBitConfig_read_16`. */
    method Read16() returns (value: Word16)
      requires Valid()
      modifies this
      ensures Valid() && (State(), Item16(value)) == ReadItem(old(State()), Width16)
    {
      value := 0xFFFF;
      var data := Read(2);
      if data.Some? {
        value := BE16(data.value[0], data.value[1]);
      }
    }

    /** `ulBitConfig_read_32`. */
    method Read32() returns (value: Word32)
      requires Valid()
      modifies this
      ensures Valid() && (State(), Item32(value)) == ReadItem(old(State()), Width32)
    {
      value := 0xFFFF_FFFF;
      var data := Read(4);
      if data.Some? {
        value := BE32(data.value[0], data.value[1], data.value[2], data.value[3]);
      }
    }
  }
}
