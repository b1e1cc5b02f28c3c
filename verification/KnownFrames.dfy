/**
  * What the checksums of frames cover by the standards of the protocols, and frames whose
  * checksums are known.
  */
module KnownFrames {
  import opened Words
  import opened Checksum
  import opened Ipv6Extensions
  import opened ProtocolChecksum

  // ---------------------------------------------------------------------------
  // The pseudo-header of IPv6.
  // ---------------------------------------------------------------------------

  /** Section 8.1 of RFC 2460: source and destination address, the length of the upper-layer
      message in 32 bits, three zero bytes and the protocol, and the message. */
  ghost predicate IsCovered(c: seq<Byte>, f: seq<Byte>, start: nat, size: nat, protocol: Byte) {
    && 54 <= |f| && start + size <= |f| && |c| == 40 + size
    && c[..32] == f[22..54]
    && 0x100_0000 * (c[32] as int) + 0x1_0000 * (c[33] as int) + 0x100 * (c[34] as int) + c[35] == size
    && c[36] == 0 && c[37] == 0 && c[38] == 0 && c[39] == protocol
    && c[40..] == f[start..start + size]
  }

  /** Over IPv6, with or without extension headers, the covered bytes are the pseudo-header and the
      message of the located protocol. */
  lemma CoveredIsPseudoHeaderIPv6(f: seq<Byte>, m: Message)
    requires Inside(f, m) && m.isIPv6 && m.protocol != PROTOCOL_ICMP && m.protocol != PROTOCOL_IGMP
    ensures IsCovered(Covered(f, m), f, m.start, m.size, m.protocol)
  {
    PartsWord(m.size);
    Concatenated(f[22..54], LengthWords(m.size, m.protocol), f[m.start..m.start + m.size]);
  }

  lemma Concatenated(a: seq<Byte>, b: seq<Byte>, c: seq<Byte>)
    requires |a| == 32 && |b| == 8
    ensures var d := a + b + c;
            d[..32] == a && d[40..] == c && forall j :: 32 <= j < 40 ==> d[j] == b[j - 32]
  {
  }

  lemma CoveredBytes(c: seq<Byte>, f: seq<Byte>, start: nat, size: nat, protocol: Byte)
    requires IsCovered(c, f, start, size, protocol)
    ensures forall j :: 0 <= j < 32 ==> c[j] == f[j + 22]
    ensures forall j :: 40 <= j < 40 + size ==> c[j] == f[j + (start - 40)]
  {
    forall j | 0 <= j < 32
      ensures c[j] == f[j + 22]
    {
      assert c[j] == c[..32][j];
    }
    forall j | 40 <= j < 40 + size
      ensures c[j] == f[j + (start - 40)]
    {
      assert c[j] == c[40..][j - 40];
    }
  }

  // ---------------------------------------------------------------------------
  // The verdicts.
  // ---------------------------------------------------------------------------

  /** A verdict is that of the sum (0xffff or 0), or one of two codes; 0x4321 stands for protocols
      that are not handled. A packet longer than 1500 bytes is never correct. */
  lemma VerdictCodes(f: seq<Byte>)
    requires Readable(f)
    ensures Verdict(f) == 0xFFFF || Verdict(f) == 0 || Verdict(f) == 0x1234 || Verdict(f) == 0x4321
    ensures Verdict(f) == 0x4321
       <==> && Find(f).Found?
            && var m := Find(f).message;
               !(m.protocol in {1, 2, 6, 17} || (m.isIPv6 && m.protocol == 58))
    ensures Verdict(f) == 0xFFFF ==> Find(f).Found? && Find(f).message.ipHeader + Find(f).message.size <= 1500
  {
  }

  /** A UDP message without a checksum is dropped. */
  lemma UdpZeroDropped(f: seq<Byte>)
    requires Readable(f) && Locate(f).Located? && Locate(f).message.protocol == 17
    requires var at := Locate(f).message.start + 6; at + 2 <= |f| && f[at] == 0 && f[at + 1] == 0
    ensures Verdict(f) == 0
  {
  }

  /** A message is complete with 8 bytes for UDP, ICMP and IGMP, and with the number of words that
      its header says, which is 5 at least, for TCP. Directly behind the IPv6 header, an echo
      message or a router solicitation has 8 bytes, and any other ICMPv6 message 24 bytes. */
  lemma CompleteExactly(f: seq<Byte>)
    requires Readable(f) && Find(f).Found? && FieldInside(f)
    ensures var m := Find(f).message;
            && (m.protocol == 17 || m.protocol == 1 || m.protocol == 2 ==>
                  (Locate(f) == Located(m, 8) <==> m.size >= 8) && (Locate(f).Bad? <==> m.size < 8))
            && (m.protocol == 6 && m.size >= 20 ==>
                  (Locate(f).Located? <==> f[m.start + 12] / 0x10 >= 5)
                  && (Locate(f).Located? ==> Locate(f).headerSize == 4 * (f[m.start + 12] / 0x10)))
            && (m.protocol == 6 && m.size < 20 ==> Locate(f).Bad?)
            && (m.isIPv6 && m.protocol == 58 && m.start == 54 ==>
                  (Locate(f).Located?
                   <==> |f| - 54 >= if f[54] == 128 || f[54] == 129 || f[54] == 133 then 8 else 24))
  {
  }

  // ---------------------------------------------------------------------------
  // Sums of a few words.
  // ---------------------------------------------------------------------------

  /** Zero words do not change a sum. */
  lemma {:induction false} ZeroWords(d: seq<Byte>, lo: nat, hi: nat)
    requires lo <= hi && 2 * hi <= |d| && forall j :: 2 * lo <= j < 2 * hi ==> d[j] == 0
    ensures OnesSumTo(0, d, hi) == OnesSumTo(0, d, lo)
    decreases hi
  {
    if lo < hi {
      ZeroWords(d, lo, hi - 1);
      assert WordAt(d, hi - 1) == 0;
    }
  }

  lemma NextWord(d: seq<Byte>, k: nat)
    requires 2 * k + 2 <= |d|
    ensures OnesSumTo(0, d, k + 1) == AddCarry(OnesSumTo(0, d, k), BE16(d[2 * k], d[2 * k + 1]))
  {
  }

  lemma WholeSum(d: seq<Byte>, n: nat)
    requires |d| == 2 * n
    ensures OnesSum(0, d) == OnesSumTo(0, d, n)
  {
  }

  lemma FieldBytes(f: seq<Byte>, m: Message, hi: Byte, lo: Byte)
    requires FieldAt(m) + 2 <= |f|
    ensures WithField(f, m, BE16(hi, lo)) == f[FieldAt(m) := hi][FieldAt(m) + 1 := lo]
  {
    WordParts(hi, lo);
  }

  lemma ClearedAlready(f: seq<Byte>, m: Message)
    requires FieldAt(m) + 2 <= |f| && f[FieldAt(m)] == 0 && f[FieldAt(m) + 1] == 0
    ensures WithField(f, m, 0) == f
  {
    FieldBytes(f, m, 0, 0);
  }

  /** A cleared field gets the complement of the sum. */
  lemma SentCleared(f: seq<Byte>, m: Message, size: nat, sum: Word16, at: nat, hi: Byte, lo: Byte)
    requires Inside(f, m) && (!m.isIPv6 ==> IPV4_HEADER <= m.ipHeader) && FitsMtu(m, size)
    requires at == FieldAt(m) && at + 2 <= |f| && f[at] == 0 && f[at + 1] == 0
    requires OnesSum(0, Covered(f, m)) == sum && 0 < BE16(hi, lo) == 0xFFFF - sum
    ensures Sent(f, m, size) == (CORRECT_CRC, f[at := hi][at + 1 := lo])
  {
    ClearedAlready(f, m);
    FieldBytes(f, m, hi, lo);
  }

  lemma GeneratedIsSent(f: seq<Byte>, m: Message, size: nat)
    requires Readable(f) && Locate(f) == Located(m, size) && FieldAt(m) + 2 <= |f|
    ensures FieldInside(f) && Generated(f) == Sent(f, m, size)
  {
  }

  // ---------------------------------------------------------------------------
  // UDP over IPv6.
  // ---------------------------------------------------------------------------

  /** A UDP datagram with 6 zero bytes, from :: to ::. */
  ghost predicate IsUdpIPv6(f: seq<Byte>) {
    && |f| == 68 && f[12] == 0x86 && f[13] == 0xDD && f[18] == 0 && f[19] == 14 && f[20] == 17
    && (forall j :: 22 <= j < 68 && j != 59 ==> f[j] == 0) && f[59] == 14
  }

  lemma UdpIPv6Located(f: seq<Byte>) returns (m: Message)
    requires IsUdpIPv6(f)
    ensures m == Message(true, IPV6_HEADER, PROTOCOL_UDP, 54, 14) && Inside(f, m)
    ensures Readable(f) && Locate(f) == Located(m, UDP_HEADER) && FitsMtu(m, UDP_HEADER)
  {
    m := Message(true, IPV6_HEADER, PROTOCOL_UDP, 54, 14);
    assert BE16(f[12], f[13]) == FRAME_TYPE_IPV6;
  }

  lemma UdpIPv6Sent(f: seq<Byte>, m: Message)
    requires IsUdpIPv6(f) && m == Message(true, IPV6_HEADER, PROTOCOL_UDP, 54, 14) && Inside(f, m)
    ensures Sent(f, m, UDP_HEADER) == (CORRECT_CRC, f[60 := 0xFF][61 := 0xD2])
  {
    UdpIPv6Covered(f, m);
    SentCleared(f, m, UDP_HEADER, 45, 60, 0xFF, 0xD2);
  }


  /** Its checksum: 14 for the length, 17 for the protocol, and 14 again in the header. */
  lemma UdpIPv6Known(f: seq<Byte>)
    requires IsUdpIPv6(f)
    ensures Readable(f) && FieldInside(f) && Generated(f) == (CORRECT_CRC, f[60 := 0xFF][61 := 0xD2])
  {
    var m := UdpIPv6Located(f);
    GeneratedIsSent(f, m, UDP_HEADER);
    UdpIPv6Sent(f, m);
  }

  lemma UdpIPv6Covered(f: seq<Byte>, m: Message)
    requires IsUdpIPv6(f) && m == Message(true, IPV6_HEADER, PROTOCOL_UDP, 54, 14) && Inside(f, m)
    ensures OnesSum(0, Covered(f, m)) == 45
  {
    CoveredIsPseudoHeaderIPv6(f, m);
    CoveredBytes(Covered(f, m), f, 54, 14, PROTOCOL_UDP);
    UdpIPv6Sum(Covered(f, m));
  }

  lemma UdpIPv6Sum(d: seq<Byte>)
    requires |d| == 54 && d[35] == 14 && d[39] == 17 && d[45] == 14
    requires forall j :: 0 <= j < 54 && j != 35 && j != 39 && j != 45 ==> d[j] == 0
    ensures OnesSum(0, d) == 45
  {
    ZeroWords(d, 0, 17);
    NextWord(d, 17);
    NextWord(d, 18);
    NextWord(d, 19);
    ZeroWords(d, 20, 22);
    NextWord(d, 22);
    ZeroWords(d, 23, 27);
    WholeSum(d, 27);
  }

  const UDP_IPV6_FRAME: seq<Byte> :=
    seq(12, _ => 0) + [0x86, 0xDD, 0x60, 0, 0, 0, 0, 14, 17, 64] + seq(32, _ => 0)
      + [0, 0, 0, 0, 0, 14, 0, 0, 0, 0, 0, 0, 0, 0]

  lemma UdpIPv6Frame()
    ensures Readable(UDP_IPV6_FRAME) && FieldInside(UDP_IPV6_FRAME)
    ensures Generated(UDP_IPV6_FRAME) == (CORRECT_CRC, UDP_IPV6_FRAME[60 := 0xFF][61 := 0xD2])
  {
    UdpIPv6Known(UDP_IPV6_FRAME);
  }

  // ---------------------------------------------------------------------------
  // The other protocols.
  // ---------------------------------------------------------------------------

  /** An echo request over IPv6 with 6 zero bytes, from :: to ::. */
  ghost predicate IsEchoIPv6(f: seq<Byte>) {
    && |f| == 68 && f[12] == 0x86 && f[13] == 0xDD && f[18] == 0 && f[19] == 14 && f[20] == 58
    && (forall j :: 22 <= j < 68 && j != 54 ==> f[j] == 0) && f[54] == 128
  }

  lemma EchoIPv6Located(f: seq<Byte>) returns (m: Message)
    requires IsEchoIPv6(f)
    ensures m == Message(true, IPV6_HEADER, PROTOCOL_ICMPV6, 54, 14) && Inside(f, m)
    ensures Readable(f) && Locate(f) == Located(m, ICMPV6_ECHO) && FitsMtu(m, ICMPV6_ECHO)
  {
    m := Message(true, IPV6_HEADER, PROTOCOL_ICMPV6, 54, 14);
    assert BE16(f[12], f[13]) == FRAME_TYPE_IPV6;
  }

  lemma EchoIPv6Sent(f: seq<Byte>, m: Message)
    requires IsEchoIPv6(f) && m == Message(true, IPV6_HEADER, PROTOCOL_ICMPV6, 54, 14) && Inside(f, m)
    ensures Sent(f, m, ICMPV6_ECHO) == (CORRECT_CRC, f[56 := 0x7F][57 := 0xB7])
  {
    EchoIPv6Covered(f, m);
    SentCleared(f, m, ICMPV6_ECHO, 0x8048, 56, 0x7F, 0xB7);
  }


  /** 14 for the length, 58 for the protocol, and 0x8000 for the type. */
  lemma EchoIPv6Known(f: seq<Byte>)
    requires IsEchoIPv6(f)
    ensures Readable(f) && FieldInside(f) && Generated(f) == (CORRECT_CRC, f[56 := 0x7F][57 := 0xB7])
  {
    var m := EchoIPv6Located(f);
    GeneratedIsSent(f, m, ICMPV6_ECHO);
    EchoIPv6Sent(f, m);
  }

  lemma EchoIPv6Covered(f: seq<Byte>, m: Message)
    requires IsEchoIPv6(f) && m == Message(true, IPV6_HEADER, PROTOCOL_ICMPV6, 54, 14) && Inside(f, m)
    ensures OnesSum(0, Covered(f, m)) == 0x8048
  {
    CoveredIsPseudoHeaderIPv6(f, m);
    CoveredBytes(Covered(f, m), f, 54, 14, PROTOCOL_ICMPV6);
    EchoIPv6Sum(Covered(f, m));
  }

  lemma EchoIPv6Sum(d: seq<Byte>)
    requires |d| == 54 && d[35] == 14 && d[39] == 58 && d[40] == 128
    requires forall j :: 0 <= j < 54 && j != 35 && j != 39 && j != 40 ==> d[j] == 0
    ensures OnesSum(0, d) == 0x8048
  {
    ZeroWords(d, 0, 17);
    NextWord(d, 17);
    NextWord(d, 18);
    NextWord(d, 19);
    NextWord(d, 20);
    ZeroWords(d, 21, 27);
    WholeSum(d, 27);
  }

  /** A TCP segment of 6 zero bytes over an IPv4 header without options, from 0.0.0.0 to 0.0.0.0. */
  ghost predicate IsTcpIPv4(f: seq<Byte>) {
    && |f| == 60 && f[12] == 8 && f[13] == 0 && f[14] == 0x45 && f[16] == 0 && f[17] == 46 && f[23] == 6
    && (forall j :: 26 <= j < 60 && j != 46 ==> f[j] == 0) && f[46] == 0x50
  }

  lemma TcpIPv4Located(f: seq<Byte>) returns (m: Message)
    requires IsTcpIPv4(f)
    ensures m == Message(false, 20, PROTOCOL_TCP, 34, 26) && Inside(f, m)
    ensures Readable(f) && Locate(f) == Located(m, TCP_HEADER) && FitsMtu(m, TCP_HEADER)
  {
    m := Message(false, 20, PROTOCOL_TCP, 34, 26);
    assert f[14] % 0x10 == 5 && f[46] / 0x10 == 5;
    assert FindIPv4(f) == Found(m);
  }

  lemma TcpIPv4Covered(f: seq<Byte>, m: Message)
    requires IsTcpIPv4(f) && m == Message(false, 20, PROTOCOL_TCP, 34, 26) && Inside(f, m)
    ensures OnesSum(0, Covered(f, m)) == 0x5020
  {
    assert HighByte(26) == 0 && LowByte(26) == 26;
    TcpIPv4Sum(f, Covered(f, m));
  }

  lemma TcpIPv4Sent(f: seq<Byte>, m: Message)
    requires IsTcpIPv4(f) && m == Message(false, 20, PROTOCOL_TCP, 34, 26) && Inside(f, m)
    ensures Sent(f, m, TCP_HEADER) == (CORRECT_CRC, f[50 := 0xAF][51 := 0xDF])
  {
    TcpIPv4Covered(f, m);
    SentCleared(f, m, TCP_HEADER, 0x5020, 50, 0xAF, 0xDF);
  }


  /** 6 for the protocol, 26 for the length, and 0x5000 for the data offset. */
  lemma TcpIPv4Known(f: seq<Byte>)
    requires IsTcpIPv4(f)
    ensures Readable(f) && FieldInside(f) && Generated(f) == (CORRECT_CRC, f[50 := 0xAF][51 := 0xDF])
  {
    var m := TcpIPv4Located(f);
    GeneratedIsSent(f, m, TCP_HEADER);
    TcpIPv4Sent(f, m);
  }

  lemma TcpIPv4Sum(f: seq<Byte>, d: seq<Byte>)
    requires IsTcpIPv4(f) && d == [0, 6, 0, 26] + f[26..60]
    ensures OnesSum(0, d) == 0x5020
  {
    assert forall j :: 4 <= j < 38 ==> d[j] == f[j + 22];
    NextWord(d, 0);
    NextWord(d, 1);
    ZeroWords(d, 2, 12);
    NextWord(d, 12);
    ZeroWords(d, 13, 19);
    WholeSum(d, 19);
  }

  /** An ICMP or IGMP message of 14 bytes, over an IPv4 header without options: only its type,
      which is 8, is not zero. */
  ghost predicate IsIcmpIPv4(f: seq<Byte>) {
    && |f| == 48 && f[12] == 8 && f[13] == 0 && f[14] == 0x45 && f[16] == 0 && f[17] == 34
    && (f[23] == 1 || f[23] == 2) && f[34] == 8 && forall j :: 35 <= j < 48 ==> f[j] == 0
  }

  lemma IcmpIPv4Located(f: seq<Byte>) returns (m: Message)
    requires IsIcmpIPv4(f)
    ensures m == Message(false, 20, f[23], 34, 14) && Inside(f, m)
    ensures Readable(f) && Locate(f) == Located(m, ICMPV4_HEADER) && FitsMtu(m, ICMPV4_HEADER)
  {
    m := Message(false, 20, f[23], 34, 14);
    assert f[14] % 0x10 == 5;
    assert FindIPv4(f) == Found(m);
  }

  lemma IcmpIPv4Sent(f: seq<Byte>, m: Message)
    requires IsIcmpIPv4(f) && m == Message(false, 20, f[23], 34, 14) && Inside(f, m)
    ensures Sent(f, m, ICMPV4_HEADER) == (CORRECT_CRC, f[36 := 0xF7][37 := 0xFF])
  {
    IcmpIPv4Covered(f, m);
    assert FieldAt(m) == 36 && f[36] == 0 && f[37] == 0 && FitsMtu(m, ICMPV4_HEADER);
    SentCleared(f, m, ICMPV4_HEADER, 0x0800, 36, 0xF7, 0xFF);
  }


  /** There is no pseudo-header. */
  lemma IcmpIPv4Known(f: seq<Byte>)
    requires IsIcmpIPv4(f)
    ensures Readable(f) && FieldInside(f) && Generated(f) == (CORRECT_CRC, f[36 := 0xF7][37 := 0xFF])
  {
    var m := IcmpIPv4Located(f);
    GeneratedIsSent(f, m, ICMPV4_HEADER);
    IcmpIPv4Sent(f, m);
  }

  lemma IcmpIPv4Covered(f: seq<Byte>, m: Message)
    requires IsIcmpIPv4(f) && m == Message(false, 20, f[23], 34, 14) && Inside(f, m)
    ensures OnesSum(0, Covered(f, m)) == 0x0800
  {
    assert Covered(f, m) == f[34..48];
    IcmpIPv4Sum(f[34..48]);
  }

  lemma IcmpIPv4Sum(d: seq<Byte>)
    requires |d| == 14 && d[0] == 8 && forall j :: 1 <= j < 14 ==> d[j] == 0
    ensures OnesSum(0, d) == 0x0800
  {
    NextWord(d, 0);
    ZeroWords(d, 1, 7);
    WholeSum(d, 7);
  }
}
