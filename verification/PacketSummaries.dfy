/**
  * `usGenerateProtocolChecksum` as the code runs it: a packet summary that a series of
  * checks fills in, and a checksum written into or read from the frame.
  */
module PacketSummaries {
  import opened Words
  import opened Checksum
  import opened Ipv6Extensions
  import opened ProtocolChecksum

  /** Addresses, then length and protocol as two 32-bit words on the stack, then the message. */
  method SumIPv6(addresses: seq<Byte>, protocol: Byte, size: Word16, message: seq<Byte>,
                 align: nat, messageAlign: nat)
    returns (sum: Word16)
    requires |addresses| == 32 && |message| == size && align < 4 && messageAlign < 4
    ensures sum == OnesSum(0, addresses + LengthWords(size, protocol) + message)
  {
    var lengths := LengthWords(size, protocol);
    sum := GenerateChecksum(0, addresses, (align + SOURCE_ADDRESS) % 4);
    sum := ContinueChecksum(addresses, sum, lengths, 0);
    sum := ContinueChecksum(addresses + lengths, sum, message, messageAlign);
  }

  /** Length plus protocol as the seed, then everything from the source address on. */
  method SumIPv4(protocol: Byte, size: Word16, bytes: seq<Byte>, align: nat) returns (sum: Word16)
    requires size <= NETWORK_MTU && |bytes| == 8 + size && align < 4
    ensures sum == OnesSum(0, ProtocolAndLength(size, protocol) + bytes)
  {
    var seed := Wrap16(size + protocol);
    ProtocolAndLengthSum(size, protocol);
    PseudoSeed(seed, ProtocolAndLength(size, protocol), bytes);
    sum := GenerateChecksum(seed, bytes, (align + IPV4_SOURCE) % 4);
  }

  /** The complemented sum of pseudo-header and message, as `prvChecksumProtocolCalculate`
      gathers it; `align` is the address of the frame modulo 4. */
  method ComplementedSum(f: seq<Byte>, m: Message, align: nat) returns (complement: Word16)
    requires align < 4 && |f| < 0x1_0000_0000
    requires Inside(f, m) && m.size <= NETWORK_MTU
    requires !m.isIPv6 ==> IPV4_HEADER <= m.ipHeader
    ensures complement == 0xFFFF - OnesSum(0, Covered(f, m))
  {
    var sum: Word16;
    if m.protocol == PROTOCOL_ICMP || m.protocol == PROTOCOL_IGMP {
      var at := ETH_HEADER + m.ipHeader;
      sum := GenerateChecksum(0, f[at..at + m.size], (align + at) % 4);
    } else if m.isIPv6 {
      sum := SumIPv6(f[SOURCE_ADDRESS..FIRST_HEADER], m.protocol, m.size,
                     f[m.start..m.start + m.size], align, (align + m.start) % 4);
    } else {
      sum := SumIPv4(m.protocol, m.size, f[IPV4_SOURCE..IPV4_SOURCE + 8 + m.size], align);
    }
    complement := 0xFFFF - sum;
  }

  /** `struct xPacketSummary`. */
  class PacketSummary {
    var isIPv6: bool
    var ipHeader: nat
    var protocol: Byte
    var start: nat
    var payload: Word16
    var size: Word16
    var headerSize: nat
    var checksum: Word16

    constructor ()
      ensures protocol == 0
    {
      isIPv6, ipHeader, protocol, start := false, 0, 0, 0;
      payload, size, headerSize, checksum := 0, 0, 0, 0;
    }

    ghost function Summarised(): Message
      reads this
    {
      Message(isIPv6, ipHeader, protocol, start, size)
    }

    /** `prvChecksumIPv4Checks`. */
    method IPv4Checks(frame: array<Byte>, len: nat) returns (error: nat)
      requires ETH_HEADER + IPV4_HEADER <= frame.Length && len <= frame.Length
      modifies this
      ensures match FindIPv4(frame[..len])
              case Found(m) => error == 0 && Summarised() == m
              case NotFound(code) => error != 0 && checksum == code
    {
      isIPv6 := false;
      error := 0;
      var total := BE16(frame[ETH_HEADER + 2], frame[ETH_HEADER + 3]);
      ipHeader := 4 * (frame[ETH_HEADER] % 0x10);
      if total < ipHeader {
        checksum, error := INVALID_LENGTH, 3;
      }
      if error == 0 && len < ETH_HEADER + IPV4_HEADER {
        checksum, error := INVALID_LENGTH, 4;
      }
      if error == 0 && len < ETH_HEADER + ipHeader {
        checksum, error := INVALID_LENGTH, 5;
      }
      if error == 0 {
        payload := total;
        if len < payload + ETH_HEADER {
          checksum, error := INVALID_LENGTH, 6;
        }
      }
      if error == 0 {
        protocol := frame[IPV4_PROTOCOL];
        start := ipHeader + ETH_HEADER;
        size := payload - ipHeader;
      }
    }

    /** `prvChecksumIPv6Checks`. A failing length check does not stop the later ones. */
    method IPv6Checks(frame: array<Byte>, len: nat) returns (error: nat)
      requires len <= frame.Length
      modifies this
      ensures match FindIPv6(frame[..len])
              case Found(m) => error == 0 && Summarised() == m
              case NotFound(code) => error != 0 && checksum == code
    {
      isIPv6, ipHeader := true, IPV6_HEADER;
      error := 0;
      if len < FIRST_HEADER {
        checksum, error := INVALID_LENGTH, 1;
      } else {
        var extensions;
        extensions, protocol := GetExtensionHeaderLength(frame, len, protocol);
        if FIRST_HEADER + extensions >= len {
          checksum, error := INVALID_LENGTH, 3;
        } else {
          start := FIRST_HEADER + extensions;
          payload := BE16(frame[PAYLOAD_LENGTH], frame[PAYLOAD_LENGTH + 1]);
          if payload < extensions {
            checksum, error := INVALID_LENGTH, 4;
          } else {
            size := payload - extensions;
          }
          if len < payload + FIRST_HEADER {
            checksum, error := INVALID_LENGTH, 2;
          }
        }
      }
    }

    /** `prvChecksumProtocolChecks`, with `prvChecksumICMPv6Checks`. */
    method ProtocolChecks(frame: array<Byte>, len: nat) returns (error: nat)
      requires len <= frame.Length && Inside(frame[..len], Summarised())
      modifies this
      ensures Summarised() == old(Summarised())
      ensures match HeaderSize(frame[..len], Summarised())
              case Size(s) => error == 0 && headerSize == s
              case Code(code) => error != 0 && checksum == code
    {
      error := 0;
      if protocol == PROTOCOL_UDP {
        if size < UDP_HEADER || len < ETH_HEADER + ipHeader + UDP_HEADER {
          checksum, error := INVALID_LENGTH, 7;
        }
        if error == 0 {
          headerSize := UDP_HEADER;
        }
      } else if protocol == PROTOCOL_TCP {
        if size < TCP_HEADER || len < ETH_HEADER + ipHeader + TCP_HEADER {
          checksum, error := INVALID_LENGTH, 8;
        }
        if error == 0 {
          var offset: nat := frame[start + 12] / 0x10;
          if offset < 5 {
            checksum, error := INVALID_LENGTH, 9;
          } else {
            headerSize := TCP_HEADER + 4 * (offset - 5);
          }
        }
      } else if protocol == PROTOCOL_ICMP || protocol == PROTOCOL_IGMP {
        if size < ICMPV4_HEADER || len < ETH_HEADER + ipHeader + ICMPV4_HEADER {
          checksum, error := INVALID_LENGTH, 10;
        }
        if error == 0 {
          headerSize := ICMPV4_HEADER;
        }
      } else if isIPv6 && protocol == PROTOCOL_ICMPV6 {
        var needed := ICMPv6HeaderSize(frame[start]);
        if len < ETH_HEADER + ipHeader + needed {
          checksum, error := INVALID_LENGTH, 10;
        }
        if error == 0 {
          headerSize := needed;
        }
      } else {
        checksum, error := UNHANDLED_PROTOCOL, 11;
      }
    }

    /** `prvChecksumProtocolMTUCheck`. */
    method MtuCheck() returns (error: nat)
      requires ipHeader <= NETWORK_MTU
      modifies this`checksum
      ensures error == 0 <==> FitsMtu(Summarised(), headerSize)
      ensures error != 0 ==> checksum == INVALID_LENGTH
    {
      error := 0;
      if size < headerSize || size > NETWORK_MTU - ipHeader {
        checksum, error := INVALID_LENGTH, 13;
      }
    }

    /** `prvSetChecksumInPacket`: the value is stored in the byte order of the host; a protocol
        that is not handled has no field. */
    method SetChecksum(frame: array<Byte>, value: Word16)
      requires HasField(Summarised()) ==> FieldAt(Summarised()) + 2 <= frame.Length
      modifies frame
      ensures frame[..] == if HasField(Summarised())
                           then WithField(old(frame[..]), Summarised(), Swap16(value))
                           else old(frame[..])
    {
      WordParts(LowByte(value), HighByte(value));
      if protocol == PROTOCOL_UDP || protocol == PROTOCOL_TCP || protocol == PROTOCOL_ICMP
         || protocol == PROTOCOL_IGMP || (isIPv6 && protocol == PROTOCOL_ICMPV6) {
        var field := start + ChecksumField(protocol);
        frame[field] := LowByte(value);
        frame[field + 1] := HighByte(value);
      }
    }

    /** `prvGetChecksumFromPacket`. */
    method GetChecksum(frame: array<Byte>) returns (value: Word16)
      requires HasField(Summarised()) ==> FieldAt(Summarised()) + 2 <= frame.Length
      ensures value == if HasField(Summarised())
                       then BE16(frame[FieldAt(Summarised()) + 1], frame[FieldAt(Summarised())])
                       else UNHANDLED_PROTOCOL
    {
      value := UNHANDLED_PROTOCOL;
      if protocol == PROTOCOL_UDP || protocol == PROTOCOL_TCP || protocol == PROTOCOL_ICMP
         || protocol == PROTOCOL_IGMP || (isIPv6 && protocol == PROTOCOL_ICMPV6) {
        var field := start + ChecksumField(protocol);
        value := BE16(frame[field + 1], frame[field]);
      }
    }

    /** `prvChecksumProtocolCalculate`; the result is left in the byte order of the host. */
    method Calculate(frame: array<Byte>, len: nat, outgoing: bool, align: nat)
      requires align < 4 && len <= frame.Length && frame.Length < 0x1_0000_0000
      requires Inside(frame[..len], Summarised())
      requires FitsMtu(Summarised(), headerSize)
      requires !isIPv6 ==> IPV4_HEADER <= ipHeader
      modifies this`checksum
      ensures var sum := OnesSum(0, Covered(frame[..len], Summarised()));
              checksum == if outgoing then Swap16(FieldValue(sum, protocol))
                          else if sum == 0xFFFF then CORRECT_CRC else WRONG_CRC
    {
      checksum := ComplementedSum(frame[..len], Message(isIPv6, ipHeader, protocol, start, size), align);
      checksum := Finish(checksum, outgoing, protocol);
    }
  }

  /** A complemented sum as the receive side judges it, or as the send side stores it. */
  method Finish(complement: Word16, outgoing: bool, protocol: Byte) returns (checksum: Word16)
    ensures checksum == if outgoing then Swap16(FieldValue(0xFFFF - complement, protocol))
                        else if complement == 0 then CORRECT_CRC else WRONG_CRC
  {
    checksum := complement;
    if !outgoing {
      checksum := if checksum == 0 then CORRECT_CRC else WRONG_CRC;
    } else if checksum == 0 && protocol == PROTOCOL_UDP {
      checksum := 0xFFFF;
    }
    checksum := Swap16(checksum);
  }

  lemma SwapTwice(w: Word16)
    ensures Swap16(Swap16(w)) == w
  {
    PartsWord(w);
    WordParts(LowByte(w), HighByte(w));
  }

  /** Locating the message of a frame: the checks in the order the code makes them. */
  method LocateMessage(frame: array<Byte>, len: nat) returns (error: nat, summary: PacketSummary)
    requires ETH_HEADER + IPV4_HEADER <= frame.Length && len <= frame.Length
    requires Readable(frame[..len])
    ensures fresh(summary)
    ensures match Locate(frame[..len])
            case Located(m, size) => error == 0 && summary.Summarised() == m && summary.headerSize == size
            case Bad(code) => error != 0 && summary.checksum == code
  {
    summary := new PacketSummary();
    var frameType := BE16(frame[12], frame[13]);
    if frameType == FRAME_TYPE_IPV4 {
      error := summary.IPv4Checks(frame, len);
    } else if frameType == FRAME_TYPE_IPV6 {
      error := summary.IPv6Checks(frame, len);
    } else {
      summary.checksum, error := INVALID_LENGTH, 1;
    }
    if error == 0 {
      error := summary.ProtocolChecks(frame, len);
    }
  }

  /** The last part of `usGenerateProtocolChecksum`: MTU check, sum, and the field of an
      outgoing frame, which was cleared before. */
  method CheckAndSum(summary: PacketSummary, frame: array<Byte>, len: nat, outgoing: bool, align: nat)
    returns (result: Word16)
    requires align < 4 && len <= frame.Length && frame.Length < 0x1_0000_0000
    requires Inside(frame[..len], summary.Summarised())
    requires !summary.isIPv6 ==> IPV4_HEADER <= summary.ipHeader <= 60
    requires outgoing ==> HasField(summary.Summarised())
    requires outgoing && FitsMtu(summary.Summarised(), summary.headerSize) ==>
               FieldAt(summary.Summarised()) + 2 <= len
    modifies summary`checksum, frame
    ensures var f := old(frame[..len]);
            var m := summary.Summarised();
            && m == old(summary.Summarised())
            && if !FitsMtu(m, old(summary.headerSize)) then
                 result == INVALID_LENGTH && frame[..len] == f
               else if outgoing then
                 && result == CORRECT_CRC
                 && frame[..len] == WithField(f, m, FieldValue(OnesSum(0, Covered(f, m)), m.protocol))
               else
                 && result == (if OnesSum(0, Covered(f, m)) == 0xFFFF then CORRECT_CRC else WRONG_CRC)
                 && frame[..len] == f
    ensures frame[len..] == old(frame[len..])
  {
    var error := summary.MtuCheck();
    if error != 0 {
      return summary.checksum;
    }
    summary.Calculate(frame, len, outgoing, align);
    if outgoing {
      ghost var f, m := frame[..len], summary.Summarised();
      ghost var value := FieldValue(OnesSum(0, Covered(f, m)), m.protocol);
      SwapTwice(value);
      WithFieldWithin(frame[..], len, m, value);
      summary.SetChecksum(frame, summary.checksum);
      summary.checksum := CORRECT_CRC;
    }
    return summary.checksum;
  }

  /** Writing a field in a frame writes the storage that holds the frame. */
  lemma WithFieldWithin(s: seq<Byte>, len: nat, m: Message, value: Word16)
    requires FieldAt(m) + 2 <= len <= |s|
    ensures WithField(s, m, value)[..len] == WithField(s[..len], m, value)
    ensures WithField(s, m, value)[len..] == s[len..]
  {
  }

  /** Clearing the field of an outgoing frame; the field of every incoming frame is read, and
      an incoming UDP frame without a checksum is dropped. */
  method PrepareField(summary: PacketSummary, frame: array<Byte>, outgoing: bool) returns (drop: bool)
    requires HasField(summary.Summarised()) && FieldAt(summary.Summarised()) + 2 <= frame.Length
    modifies frame
    ensures frame[..] == if outgoing then WithField(old(frame[..]), summary.Summarised(), 0) else old(frame[..])
    ensures var m := summary.Summarised();
            drop <==>
              && !outgoing && m.protocol == PROTOCOL_UDP
              && old(frame[..])[FieldAt(m)] == 0 && old(frame[..])[FieldAt(m) + 1] == 0
  {
    drop := false;
    if outgoing {
      summary.SetChecksum(frame, 0);
    } else {
      var field := summary.GetChecksum(frame);
      drop := field == 0 && summary.protocol == PROTOCOL_UDP;
    }
  }

  /** The part of `usGenerateProtocolChecksum` behind the checks. */
  method Process(summary: PacketSummary, frame: array<Byte>, len: nat, outgoing: bool, align: nat)
    returns (result: Word16)
    requires align < 4 && len <= frame.Length && frame.Length < 0x1_0000_0000
    requires Inside(frame[..len], summary.Summarised())
    requires !summary.isIPv6 ==> IPV4_HEADER <= summary.ipHeader <= 60
    requires HasField(summary.Summarised()) && FieldAt(summary.Summarised()) + 2 <= frame.Length
    requires summary.protocol == PROTOCOL_UDP || FitsMtu(summary.Summarised(), summary.headerSize) ==>
               FieldAt(summary.Summarised()) + 2 <= len
    modifies summary`checksum, frame
    ensures var f := old(frame[..len]);
            var m := old(summary.Summarised());
            if !outgoing then result == Judged(f, m, old(summary.headerSize)) && frame[..len] == f
            else if FieldAt(m) + 2 <= len then (result, frame[..len]) == Sent(f, m, old(summary.headerSize))
            else result == INVALID_LENGTH && frame[..] == WithField(old(frame[..]), m, 0)
    ensures !outgoing || FieldAt(summary.Summarised()) + 2 <= len ==> frame[len..] == old(frame[len..])
  {
    ghost var m := summary.Summarised();
    if FieldAt(m) + 2 <= len {
      WithFieldWithin(frame[..], len, m, 0);
    }
    var drop := PrepareField(summary, frame, outgoing);
    if drop {
      return WRONG_CRC;
    }
    result := CheckAndSum(summary, frame, len, outgoing, align);
  }

  /** The caller provides the storage of the checksum field, also when it lies behind the frame. */
  ghost predicate FieldStored(storage: seq<Byte>, len: nat)
    requires len <= |storage| && Readable(storage[..len])
  {
    var l := Locate(storage[..len]);
    l.Located? ==> FieldAt(l.message) + 2 <= |storage|
  }

  /** `usGenerateProtocolChecksum`. */
  method GenerateProtocolChecksum(frame: array<Byte>, len: nat, outgoing: bool, align: nat)
    returns (result: Word16)
    requires ETH_HEADER + IPV4_HEADER <= frame.Length < 0x1_0000_0000 && len <= frame.Length && align < 4
    requires Readable(frame[..len]) && FieldStored(frame[..], len)
    modifies frame
    ensures var f := old(frame[..len]);
            if !outgoing then result == Verdict(f) && frame[..len] == f
            else if FieldInside(f) then (result, frame[..len]) == Generated(f)
            else result == INVALID_LENGTH && frame[..] == WithField(old(frame[..]), Locate(f).message, 0)
    ensures !outgoing || FieldInside(old(frame[..len])) ==> frame[len..] == old(frame[len..])
  {
    assert frame[..][..len] == frame[..len];
    var error, summary := LocateMessage(frame, len);
    if error != 0 {
      return summary.checksum;
    }
    FieldOutside(frame[..len]);
    result := Process(summary, frame, len, outgoing, align);
  }
}
