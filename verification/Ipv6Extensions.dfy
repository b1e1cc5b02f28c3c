/**
  * IPv6 extension headers: the walk `usGetExtensionHeaderLength`, and
  * `eHandleIPv6ExtensionHeaders`, which removes them from a received frame in place.
  */
module Ipv6Extensions {
  import opened Words

  const ETH_HEADER := 14
  const IPV6_HEADER := 40
  const FIRST_HEADER := ETH_HEADER + IPV6_HEADER

  const PROTOCOL_ICMP := 1
  const PROTOCOL_IGMP := 2
  const PROTOCOL_TCP := 6
  const PROTOCOL_UDP := 17
  const PROTOCOL_ICMPV6 := 58

  const HOP_BY_HOP := 0
  const ROUTING := 43
  const FRAGMENT := 44
  const SECURE_PAYLOAD := 50
  const AUTHENTICATION := 51
  const DESTINATION_OPTIONS := 60
  const MOBILITY := 135

  // Positions of the header fields in a frame.
  const PAYLOAD_LENGTH := ETH_HEADER + 4
  const NEXT_HEADER := ETH_HEADER + 6
  const SOURCE_ADDRESS := ETH_HEADER + 8

  /** `xGetExtensionOrder`. */
  function ExtensionOrder(header: Byte, next: Byte): int {
    if header == HOP_BY_HOP then 1
    else if header == DESTINATION_OPTIONS then (if next == ROUTING then 2 else 7)
    else if header == ROUTING then 3
    else if header == FRAGMENT then 4
    else if header == AUTHENTICATION then 5
    else if header == SECURE_PAYLOAD then 6
    else if header == MOBILITY then 8
    else -1
  }

  predicate IsExtension(header: Byte) {
    header in {HOP_BY_HOP, ROUTING, FRAGMENT, SECURE_PAYLOAD, AUTHENTICATION, DESTINATION_OPTIONS, MOBILITY}
  }

  predicate IsUpperLayer(header: Byte) {
    header in {PROTOCOL_TCP, PROTOCOL_UDP, PROTOCOL_ICMPV6}
  }

  /** Where the upper-layer message of a frame starts, and its protocol. */
  datatype Upper = NoUpper | Upper(start: nat, protocol: Byte)

  /** The size of an extension header whose length octet is `units`. */
  function HopSize(units: Byte): nat {
    var n: nat := units;
    8 * n + 8
  }

  /** A chain of extension headers from `index` leads to the upper layer when every header
      lies inside the frame with more bytes behind it, and each one announces an upper-layer
      protocol, which ends the chain, or another extension that is not hop-by-hop. */
  function Chain(f: seq<Byte>, index: nat): (u: Upper)
    ensures u.Upper? ==> index + 8 <= u.start < |f| && IsUpperLayer(u.protocol)
    decreases |f| - index
  {
    if index + 8 >= |f| then NoUpper
    else
      var next := f[index];
      var after := index + HopSize(f[index + 1]);
      if after >= |f| then NoUpper
      else if IsUpperLayer(next) then Upper(after, next)
      else if !IsExtension(next) || next == HOP_BY_HOP then NoUpper
      else Chain(f, after)
  }

  /** The upper layer of a whole frame. */
  function UpperLayer(f: seq<Byte>): (u: Upper)
    requires |f| >= FIRST_HEADER
    ensures u.Upper? ==> u.start == FIRST_HEADER || FIRST_HEADER + 8 <= u.start < |f|
    ensures u.Upper? ==> !IsExtension(u.protocol)
    ensures u.Upper? && u.start != FIRST_HEADER ==> IsUpperLayer(u.protocol)
  {
    if IsExtension(f[NEXT_HEADER]) then Chain(f, FIRST_HEADER)
    else Upper(FIRST_HEADER, f[NEXT_HEADER])
  }

  lemma OrderSigns(header: Byte, next: Byte)
    ensures ExtensionOrder(header, next) > 0 <==> IsExtension(header)
    ensures IsExtension(header)
       <==> || header == 0 || header == 43 || header == 44 || header == 50 || header == 51 || header == 60
            || header == 135
    ensures ExtensionOrder(header, next) < 0 <==> !IsExtension(header)
    ensures ExtensionOrder(header, next) == 1 <==> header == HOP_BY_HOP
  {
  }

  /** `usGetExtensionHeaderLength`: the number of extension bytes and the protocol behind
      them, or the whole buffer length (and an untouched protocol) when the chain is bad. */
  method GetExtensionHeaderLength(frame: array<Byte>, len: nat, protocolIn: Byte)
    returns (length: nat, protocol: Byte)
    requires FIRST_HEADER <= len <= frame.Length
    ensures var u := UpperLayer(frame[..len]);
            if u.Upper? then FIRST_HEADER + length == u.start && protocol == u.protocol
            else length == len && protocol == protocolIn
  {
    ghost var f := frame[..len];
    length, protocol := len, protocolIn;
    var current := frame[NEXT_HEADER];
    OrderSigns(current, 0);
    if ExtensionOrder(current, 0) > 0 {
      var index := FIRST_HEADER;
      while index + 8 < len
        invariant FIRST_HEADER <= index
        invariant length == len && protocol == protocolIn
        invariant Chain(f, index) == UpperLayer(f)
        decreases len - index
      {
        var next := frame[index];
        var hop := HopSize(frame[index + 1]);
        if index + hop >= len {
          return;
        }
        index := index + hop;
        if next == PROTOCOL_TCP || next == PROTOCOL_UDP || next == PROTOCOL_ICMPV6 {
          length, protocol := index - FIRST_HEADER, next;
          return;
        }
        OrderSigns(next, frame[index]);
        var nextOrder := ExtensionOrder(next, frame[index]);
        if nextOrder == 1 || nextOrder < 0 {
          return;
        }
        current := next;
      }
    } else {
      protocol := current;
      length := 0;
    }
  }

  // ---------------------------------------------------------------------------
  // Removing the headers.
  // ---------------------------------------------------------------------------

  function PayloadLength(f: seq<Byte>): Word16
    requires |f| >= FIRST_HEADER
  {
    BE16(f[PAYLOAD_LENGTH], f[PAYLOAD_LENGTH + 1])
  }

  /** The headers can be removed: they end inside the frame and inside its payload. */
  predicate Removable(f: seq<Byte>)
    requires |f| >= FIRST_HEADER
  {
    var u := UpperLayer(f);
    u.Upper? && u.start < |f| && u.start - FIRST_HEADER < PayloadLength(f)
  }

  /** The frame without its extension headers. */
  function Stripped(f: seq<Byte>): (r: seq<Byte>)
    requires |f| >= FIRST_HEADER && Removable(f)
  {
    var u := UpperLayer(f);
    var payload: Word16 := PayloadLength(f) - (u.start - FIRST_HEADER);
    f[..PAYLOAD_LENGTH] + [HighByte(payload), LowByte(payload), u.protocol]
      + f[NEXT_HEADER + 1..FIRST_HEADER] + f[u.start..]
  }

  /** `b` after its bytes from `from` to `end` have been copied down to `to`. */
  function Moved(b: seq<Byte>, to: nat, from: nat, end: nat): seq<Byte>
    requires to <= from <= end <= |b|
  {
    seq(|b|, j requires 0 <= j < |b| => MovedAt(b, to, from, end - from, j))
  }

  function MovedAt(b: seq<Byte>, to: nat, from: nat, n: nat, j: nat): Byte
    requires to <= from && from + n <= |b| && j < |b|
  {
    if to <= j < to + n then b[j + (from - to)] else b[j]
  }

  /** A received frame: `pucEthernetBuffer` and `xDataLength`. */
  class NetworkBuffer {
    const buffer: array<Byte>
    var dataLength: nat

    ghost predicate Valid()
      reads this
    {
      FIRST_HEADER <= dataLength <= buffer.Length
    }

    ghost function Data(): seq<Byte>
      reads this, buffer
      requires Valid()
    {
      buffer[..dataLength]
    }

    constructor (storage: array<Byte>, length: nat)
      requires FIRST_HEADER <= length <= storage.Length
      ensures Valid() && buffer == storage && dataLength == length
    {
      buffer, dataLength := storage, length;
    }

    /** `memmove` of the bytes from `from` to `end` down to `to`. */
    method MoveDown(to: nat, from: nat, end: nat)
      requires to <= from <= end <= buffer.Length
      modifies buffer
      ensures buffer[..] == Moved(old(buffer[..]), to, from, end)
    {
      ghost var b := buffer[..];
      for i := 0 to end - from
        invariant forall j :: 0 <= j < buffer.Length ==> buffer[j] == MovedAt(b, to, from, i, j)
      {
        assert buffer[from + i] == MovedAt(b, to, from, i, from + i) == b[from + i];
        buffer[to + i] := buffer[from + i];
      }
    }

    method WritePayloadLength(payload: Word16)
      requires FIRST_HEADER <= buffer.Length
      modifies buffer
      ensures buffer[..] == old(buffer[..])[PAYLOAD_LENGTH := HighByte(payload)]
                                           [PAYLOAD_LENGTH + 1 := LowByte(payload)]
    {
      buffer[PAYLOAD_LENGTH] := HighByte(payload);
      buffer[PAYLOAD_LENGTH + 1] := LowByte(payload);
    }

    /** The writes of the removal. */
    method RemoveHeaders(removed: nat, next: Byte, payload: Word16)
      requires Valid() && FIRST_HEADER + removed < dataLength
      requires payload == PayloadLength(buffer[..]) && removed < payload
      modifies this, buffer
      ensures Valid() && dataLength == old(dataLength) - removed
      ensures buffer[..] == Rewritten(old(buffer[..]), old(dataLength), removed, next)
    {
      ghost var b := buffer[..];
      buffer[NEXT_HEADER] := next;
      assert buffer[..] == b[NEXT_HEADER := next];
      MoveDown(FIRST_HEADER, FIRST_HEADER + removed, dataLength);
      dataLength := dataLength - removed;
      WritePayloadLength(payload - removed);
    }

    /** `eHandleIPv6ExtensionHeaders`; the result says whether the frame can be processed. */
    method HandleExtensionHeaders(doRemove: bool) returns (process: bool)
      requires Valid()
      modifies this, buffer
      ensures Valid()
      ensures process <==> doRemove && Removable(old(Data()))
      ensures process ==> Data() == Stripped(old(Data()))
      ensures !process ==> Data() == old(Data())
    {
      process := false;
      var removed, next := GetExtensionHeaderLength(buffer, dataLength, 0);
      var index := FIRST_HEADER + removed;
      if index < dataLength {
        var payload := BE16(buffer[PAYLOAD_LENGTH], buffer[PAYLOAD_LENGTH + 1]);
        if removed < payload && doRemove {
          StrippedBytes(buffer[..], dataLength, removed, next);
          RemoveHeaders(removed, next, payload);
          process := true;
        }
      }
    }
  }

  /** What the writes of the removal leave in the storage. */
  function Rewritten(b: seq<Byte>, len: nat, removed: nat, next: Byte): seq<Byte>
    requires FIRST_HEADER + removed <= len <= |b| && removed <= PayloadLength(b)
  {
    var payload: Word16 := PayloadLength(b) - removed;
    Moved(b[NEXT_HEADER := next], FIRST_HEADER, FIRST_HEADER + removed, len)
      [PAYLOAD_LENGTH := HighByte(payload)][PAYLOAD_LENGTH + 1 := LowByte(payload)]
  }

  lemma StrippedBytes(b: seq<Byte>, len: nat, removed: nat, next: Byte)
    requires FIRST_HEADER + removed < len <= |b| && removed < PayloadLength(b)
    requires UpperLayer(b[..len]) == Upper(FIRST_HEADER + removed, next)
    ensures Rewritten(b, len, removed, next)[..len - removed] == Stripped(b[..len])
  {
  }

  /** Stripping keeps the upper-layer bytes and everything in front of them except the two
      fields that describe them, which it sets: the frame left has no extension headers. */
  lemma StrippedFrame(f: seq<Byte>)
    requires |f| >= FIRST_HEADER && Removable(f)
    ensures var u := UpperLayer(f);
            var r := Stripped(f);
            && |r| == |f| - (u.start - FIRST_HEADER) > FIRST_HEADER
            && r[FIRST_HEADER..] == f[u.start..]
            && r[..PAYLOAD_LENGTH] == f[..PAYLOAD_LENGTH]
            && r[NEXT_HEADER + 1..FIRST_HEADER] == f[NEXT_HEADER + 1..FIRST_HEADER]
            && PayloadLength(r) == PayloadLength(f) - (u.start - FIRST_HEADER) > 0
            && UpperLayer(r) == Upper(FIRST_HEADER, u.protocol)
  {
    var u := UpperLayer(f);
    var payload: Word16 := PayloadLength(f) - (u.start - FIRST_HEADER);
    PartsWord(payload);
  }
}
