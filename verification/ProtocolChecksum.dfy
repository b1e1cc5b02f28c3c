/**
  * `usGenerateProtocolChecksum`: finding the upper-layer message of an IPv4 or IPv6 frame,
  * summing it with its pseudo-header, and setting or checking its checksum field.
  */
module ProtocolChecksum {
  import opened Words
  import opened Checksum
  import opened Ipv6Extensions

  const CORRECT_CRC: Word16 := 0xFFFF
  const WRONG_CRC: Word16 := 0x0000
  const INVALID_LENGTH: Word16 := 0x1234
  const UNHANDLED_PROTOCOL: Word16 := 0x4321

  const FRAME_TYPE_IPV4: Word16 := 0x0800
  const FRAME_TYPE_IPV6: Word16 := 0x86DD

  const IPV4_HEADER := 20
  const IPV4_PROTOCOL := ETH_HEADER + 9
  const IPV4_SOURCE := ETH_HEADER + 12
  const UDP_HEADER := 8
  const TCP_HEADER := 20
  const ICMPV4_HEADER := 8
  const ICMPV6_HEADER := 24
  const ICMPV6_ECHO := 8
  const ICMPV6_ROUTER_SOLICITATION := 8
  const NETWORK_MTU := 1500

  // ---------------------------------------------------------------------------
  // The reference: which bytes the checksum of a frame covers.
  // ---------------------------------------------------------------------------

  /** The upper-layer message of a frame: `size` bytes at `start`. */
  datatype Message = Message(isIPv6: bool, ipHeader: nat, protocol: Byte, start: nat, size: Word16)

  datatype Found = NotFound(code: Word16) | Found(message: Message)

  function FrameType(f: seq<Byte>): Word16
    requires |f| >= ETH_HEADER
  {
    BE16(f[12], f[13])
  }

  function IPv4HeaderSize(f: seq<Byte>): nat
    requires |f| > ETH_HEADER
  {
    4 * (f[ETH_HEADER] % 0x10)
  }

  /** The lengths of an IPv4 frame are consistent; the message follows the IP header. */
  function FindIPv4(f: seq<Byte>): Found {
    if |f| < ETH_HEADER + IPV4_HEADER then NotFound(INVALID_LENGTH)
    else
      var total := BE16(f[ETH_HEADER + 2], f[ETH_HEADER + 3]);
      var header := IPv4HeaderSize(f);
      if total < header || |f| < ETH_HEADER + header || |f| < ETH_HEADER + total then
        NotFound(INVALID_LENGTH)
      else
        Found(Message(false, header, f[IPV4_PROTOCOL], ETH_HEADER + header, total - header))
  }

  /** The lengths of an IPv6 frame are consistent; the message follows its extension headers. */
  function FindIPv6(f: seq<Byte>): Found {
    if |f| < FIRST_HEADER then NotFound(INVALID_LENGTH)
    else
      var u := UpperLayer(f);
      if u.NoUpper? || u.start >= |f| then NotFound(INVALID_LENGTH)
      else
        var extensions := u.start - FIRST_HEADER;
        if PayloadLength(f) < extensions || |f| < FIRST_HEADER + PayloadLength(f) then
          NotFound(INVALID_LENGTH)
        else
          Found(Message(true, IPV6_HEADER, u.protocol, u.start, PayloadLength(f) - extensions))
  }

  /** The message is one whose header is complete; the result is the header size. */
  function HeaderSize(f: seq<Byte>, m: Message): (r: Result)
    requires Inside(f, m)
  {
    var room := |f| - (ETH_HEADER + m.ipHeader);
    if m.protocol == PROTOCOL_UDP then
      if m.size < UDP_HEADER || room < UDP_HEADER then Code(INVALID_LENGTH) else Size(UDP_HEADER)
    else if m.protocol == PROTOCOL_TCP then
      if m.size < TCP_HEADER || room < TCP_HEADER then Code(INVALID_LENGTH)
      else
        var offset: nat := f[m.start + 12] / 0x10;
        if offset < 5 then Code(INVALID_LENGTH) else Size(TCP_HEADER + 4 * (offset - 5))
    else if m.protocol == PROTOCOL_ICMP || m.protocol == PROTOCOL_IGMP then
      if m.size < ICMPV4_HEADER || room < ICMPV4_HEADER then Code(INVALID_LENGTH) else Size(ICMPV4_HEADER)
    else if m.isIPv6 && m.protocol == PROTOCOL_ICMPV6 then
      var size := ICMPv6HeaderSize(f[m.start]);
      if room < size then Code(INVALID_LENGTH) else Size(size)
    else Code(UNHANDLED_PROTOCOL)
  }

  datatype Result = Code(code: Word16) | Size(size: nat)

  function ICMPv6HeaderSize(kind: Byte): nat {
    if kind == 128 || kind == 129 then ICMPV6_ECHO
    else if kind == 133 then ICMPV6_ROUTER_SOLICITATION
    else ICMPV6_HEADER
  }

  /** The message lies in the frame; an IPv6 one has at least one byte. */
  predicate Inside(f: seq<Byte>, m: Message) {
    && m.start + m.size <= |f|
    && (m.isIPv6 ==> m.ipHeader == IPV6_HEADER && FIRST_HEADER <= m.start < |f|)
    && (m.isIPv6 && !IsUpperLayer(m.protocol) ==> m.start == FIRST_HEADER)
    && (!m.isIPv6 ==> ETH_HEADER + IPV4_HEADER <= |f| && m.start == ETH_HEADER + m.ipHeader)
  }

  /** Position of the checksum field in the message. */
  function ChecksumField(protocol: Byte): (at: nat)
    ensures at % 2 == 0
  {
    if protocol == PROTOCOL_UDP then 6 else if protocol == PROTOCOL_TCP then 16 else 2
  }

  /** The last 8 bytes of the IPv6 pseudo-header (section 8.1 of RFC 2460). */
  function LengthWords(size: Word16, protocol: Byte): (r: seq<Byte>)
    ensures |r| == 8
  {
    [0, 0, HighByte(size), LowByte(size), 0, 0, 0, protocol]
  }

  /** Protocol and length, as the IPv4 pseudo-header has them (RFC 768). */
  function ProtocolAndLength(size: Word16, protocol: Byte): (r: seq<Byte>)
    ensures |r| == 4
  {
    [0, protocol, HighByte(size), LowByte(size)]
  }

  lemma ProtocolAndLengthSum(size: Word16, protocol: Byte)
    ensures var r := ProtocolAndLength(size, protocol); BE16(r[0], r[1]) + BE16(r[2], r[3]) == protocol + size
  {
    PartsWord(size);
  }

  /** What the checksum covers. For UDP and TCP over IPv4 the code sums everything from the
      source address on, which is the addresses and the message when the header is 20 bytes. */
  function Covered(f: seq<Byte>, m: Message): seq<Byte>
    requires Inside(f, m)
    requires !m.isIPv6 ==> IPV4_HEADER <= m.ipHeader
  {
    if m.protocol == PROTOCOL_ICMP || m.protocol == PROTOCOL_IGMP then
      f[m.start..m.start + m.size]
    else if m.isIPv6 then
      f[SOURCE_ADDRESS..FIRST_HEADER] + LengthWords(m.size, m.protocol) + f[m.start..m.start + m.size]
    else
      ProtocolAndLength(m.size, m.protocol) + f[IPV4_SOURCE..IPV4_SOURCE + 8 + m.size]
  }

  datatype Located = Bad(code: Word16) | Located(message: Message, headerSize: nat)

  /** A frame the IP task passes on: an IPv4 header has at least its 20 fixed bytes. */
  predicate Readable(f: seq<Byte>) {
    && |f| >= ETH_HEADER
    && (FrameType(f) == FRAME_TYPE_IPV4 && |f| > ETH_HEADER ==> IPV4_HEADER <= IPv4HeaderSize(f))
  }

  /** An IPv4 header has at least 20 bytes; its size is a number of 32-bit words. */
  predicate EvenHeader(m: Message) {
    !m.isIPv6 ==> IPV4_HEADER <= m.ipHeader && m.ipHeader % 2 == 0
  }

  function Find(f: seq<Byte>): (r: Found)
    requires Readable(f)
    ensures r.Found? ==> Inside(f, r.message) && EvenHeader(r.message)
    ensures r.Found? && !r.message.isIPv6 ==> r.message.ipHeader <= 60
  {
    if FrameType(f) == FRAME_TYPE_IPV4 then FindIPv4(f)
    else if FrameType(f) == FRAME_TYPE_IPV6 then FindIPv6(f)
    else NotFound(INVALID_LENGTH)
  }

  function Locate(f: seq<Byte>): (r: Located)
    requires Readable(f)
    ensures r.Located? ==>
      && Inside(f, r.message)
      && EvenHeader(r.message) && (!r.message.isIPv6 ==> r.message.ipHeader <= 60)
  {
    match Find(f)
    case NotFound(code) => Bad(code)
    case Found(m) =>
      match HeaderSize(f, m)
      case Code(code) => Bad(code)
      case Size(size) => Located(m, size)
  }

  /** The message holds its header and the packet is not longer than the MTU. */
  predicate FitsMtu(m: Message, headerSize: nat) {
    headerSize <= m.size <= NETWORK_MTU - m.ipHeader
  }

  /** Position of the checksum field in the frame. */
  function FieldAt(m: Message): nat {
    m.start + ChecksumField(m.protocol)
  }

  function WithField(f: seq<Byte>, m: Message, checksum: Word16): seq<Byte>
    requires FieldAt(m) + 2 <= |f|
  {
    f[FieldAt(m) := HighByte(checksum)][FieldAt(m) + 1 := LowByte(checksum)]
  }

  /** The receive side accepts exactly the frames whose covered bytes sum to 0xffff. */
  function Verdict(f: seq<Byte>): Word16
    requires Readable(f)
  {
    match Locate(f)
    case Bad(code) => code
    case Located(m, size) => Judged(f, m, size)
  }

  function Judged(f: seq<Byte>, m: Message, headerSize: nat): Word16
    requires Inside(f, m) && (!m.isIPv6 ==> IPV4_HEADER <= m.ipHeader)
    requires m.protocol == PROTOCOL_UDP ==> FieldAt(m) + 2 <= |f|
  {
    if m.protocol == PROTOCOL_UDP && f[FieldAt(m)] == 0 && f[FieldAt(m) + 1] == 0 then WRONG_CRC
    else if !FitsMtu(m, headerSize) then INVALID_LENGTH
    else if OnesSum(0, Covered(f, m)) == 0xFFFF then CORRECT_CRC
    else WRONG_CRC
  }

  /** The value for the field: the complement of the sum, never 0 for UDP. */
  function FieldValue(sum: Word16, protocol: Byte): Word16 {
    var c := 0xFFFF - sum;
    if c == 0 && protocol == PROTOCOL_UDP then 0xFFFF else c
  }

  /** The protocols that have a checksum field. */
  predicate HasField(m: Message) {
    || m.protocol == PROTOCOL_UDP || m.protocol == PROTOCOL_TCP
    || m.protocol == PROTOCOL_ICMP || m.protocol == PROTOCOL_IGMP
    || (m.isIPv6 && m.protocol == PROTOCOL_ICMPV6)
  }

  /** The checksum field of a located message is part of the frame. */
  predicate FieldInside(f: seq<Byte>)
    requires Readable(f)
  {
    var l := Locate(f);
    l.Located? ==> FieldAt(l.message) + 2 <= |f|
  }

  /** The send side: the answer, and the frame with its checksum field filled in. */
  function Generated(f: seq<Byte>): (Word16, seq<Byte>)
    requires Readable(f) && FieldInside(f)
  {
    match Locate(f)
    case Bad(code) => (code, f)
    case Located(m, size) => Sent(f, m, size)
  }

  function Sent(f: seq<Byte>, m: Message, headerSize: nat): (Word16, seq<Byte>)
    requires Inside(f, m) && (!m.isIPv6 ==> IPV4_HEADER <= m.ipHeader)
    requires FieldAt(m) + 2 <= |f|
  {
    var cleared := WithField(f, m, 0);
    if !FitsMtu(m, headerSize) then (INVALID_LENGTH, cleared)
    else (CORRECT_CRC, WithField(cleared, m, FieldValue(OnesSum(0, Covered(cleared, m)), m.protocol)))
  }

  // ---------------------------------------------------------------------------
  // Generate, then verify.
  // ---------------------------------------------------------------------------

  /** Equal bytes have equal plain sums. */
  lemma {:induction false} PlainEqual(d: seq<Byte>, e: seq<Byte>, n: nat)
    requires n <= |d| == |e| && forall j :: 0 <= j < n ==> e[j] == d[j]
    ensures Plain(true, e, n) == Plain(true, d, n)
    decreases n
  {
    if n > 0 {
      PlainEqual(d, e, n - 1);
    }
  }

  /** Bytes that differ from others in one word, number `k`, which is cleared there. */
  lemma PlainFilled(d: seq<Byte>, e: seq<Byte>, k: nat, w: Word16)
    requires 2 * k + 2 <= |d| == |e|
    requires WordAt(d, k) == 0 && WordAt(e, k) == w
    requires Plain(true, e, 2 * k) == Plain(true, d, 2 * k)
    ensures Plain(true, e, 2 * k + 2) == Plain(true, d, 2 * k + 2) + w
  {
    PlainWord(d, k);
    PlainWord(e, k);
  }

  lemma {:induction false} PlainBehind(d: seq<Byte>, e: seq<Byte>, from: nat, n: nat, w: Word16)
    requires from <= n <= |d| == |e| && forall j :: from <= j < n ==> e[j] == d[j]
    requires Plain(true, e, from) == Plain(true, d, from) + w
    ensures Plain(true, e, n) == Plain(true, d, n) + w
    decreases n
  {
    if n > from {
      PlainBehind(d, e, from, n - 1, w);
    }
  }

  lemma PlainChanged(d: seq<Byte>, e: seq<Byte>, k: nat, w: Word16)
    requires 2 * k + 2 <= |d| == |e|
    requires WordAt(d, k) == 0 && WordAt(e, k) == w
    requires forall j :: 0 <= j < |d| && j != 2 * k && j != 2 * k + 1 ==> e[j] == d[j]
    ensures Plain(true, e, |d|) == Plain(true, d, |d|) + w
  {
    PlainEqual(d, e, 2 * k);
    PlainFilled(d, e, k, w);
    PlainBehind(d, e, 2 * k + 2, |d|, w);
  }

  lemma HalfOf(p: nat) returns (k: nat)
    requires p % 2 == 0
    ensures p == 2 * k
  {
    k := p / 2;
  }

  lemma PatchedWord(d: seq<Byte>, p: nat, k: nat, w: Word16, e: seq<Byte>)
    requires p == 2 * k && p + 2 <= |d| && e == d[p := HighByte(w)][p + 1 := LowByte(w)]
    ensures WordAt(e, k) == w && WordAt(d, k) == BE16(d[p], d[p + 1])
    ensures forall j :: 0 <= j < |d| && j != 2 * k && j != 2 * k + 1 ==> e[j] == d[j]
  {
    PartsWord(w);
  }

  /** Filling a cleared word adds its value to the plain sum. */
  lemma PlainPatch(d: seq<Byte>, p: nat, w: Word16, e: seq<Byte>)
    requires p % 2 == 0 && p + 2 <= |d| && e == d[p := HighByte(w)][p + 1 := LowByte(w)]
    requires d[p] == 0 && d[p + 1] == 0
    ensures Plain(true, e, |d|) == Plain(true, d, |d|) + w
  {
    var k := HalfOf(p);
    PatchedWord(d, p, k, w, e);
    PlainChanged(d, e, k, w);
  }

  lemma CompletedSum(plain: nat, sum: Word16, protocol: Byte)
    requires Alike(plain, sum)
    ensures Alike(plain + FieldValue(sum, protocol), 0xFFFF)
  {
    var w := FieldValue(sum, protocol);
    var k :| Above(plain, sum, k);
    AlikeBy(plain + w, 0xFFFF, if w == 0xFFFF - sum then k else k + 1);
  }

  /** Filling a cleared word with its checksum makes the sum 0xffff. */
  lemma PatchedSum(d: seq<Byte>, p: nat, protocol: Byte, e: seq<Byte>)
    requires p % 2 == 0 && p + 2 <= |d|
    requires d[p] == 0 && d[p + 1] == 0
    requires var w := FieldValue(OnesSum(0, d), protocol); e == d[p := HighByte(w)][p + 1 := LowByte(w)]
    ensures OnesSum(0, e) == 0xFFFF
  {
    var w := FieldValue(OnesSum(0, d), protocol);
    PlainPatch(d, p, w, e);
    OnesSumPlain(0, d);
    OnesSumPlain(0, e);
    CompletedSum(Plain(true, d, |d|), OnesSum(0, d), protocol);
    AlikeUnique(Plain(true, e, |e|), OnesSum(0, e), 0xFFFF);
  }

  /** The walk over extension headers does not look at the message behind them. */
  lemma {:induction false} ChainUnchanged(f: seq<Byte>, g: seq<Byte>, index: nat)
    requires |f| == |g|
    requires var u := Chain(f, index); u.Upper? && f[..u.start] == g[..u.start]
    ensures Chain(g, index) == Chain(f, index)
    decreases |f| - index
  {
    var u := Chain(f, index);
    assert f[index] == f[..u.start][index] && f[index + 1] == f[..u.start][index + 1];
    assert g[index] == g[..u.start][index] && g[index + 1] == g[..u.start][index + 1];
    var after := index + HopSize(f[index + 1]);
    if !IsUpperLayer(f[index]) {
      ChainUnchanged(f, g, after);
    }
  }

  /** Changing the checksum field of a located message does not change what is located. */
  lemma LocateUnchanged(f: seq<Byte>, w: Word16)
    requires Readable(f) && Locate(f).Located? && FieldInside(f)
    ensures Readable(WithField(f, Locate(f).message, w))
    ensures Locate(WithField(f, Locate(f).message, w)) == Locate(f)
  {
    var m := Locate(f).message;
    var g := WithField(f, m, w);
    if m.isIPv6 {
      if IsExtension(f[NEXT_HEADER]) {
        ChainUnchanged(f, g, FIRST_HEADER);
      }
      assert UpperLayer(g) == UpperLayer(f);
      assert FindIPv6(g) == FindIPv6(f);
    } else {
      assert FindIPv4(g) == FindIPv4(f);
    }
  }

  /** The checksum field is among the covered bytes. Over IPv4, UDP and TCP sums end too early
      by the size of the IP options, so that a short message does not have its field covered. */
  predicate Summable(m: Message) {
    m.isIPv6 || m.protocol == PROTOCOL_ICMP || m.protocol == PROTOCOL_IGMP
    || m.ipHeader - IPV4_HEADER + ChecksumField(m.protocol) + 2 <= m.size
  }

  /** Position of the checksum field among the covered bytes. */
  function FieldInCovered(m: Message): (at: nat)
    requires EvenHeader(m)
    ensures at % 2 == 0
  {
    if m.protocol == PROTOCOL_ICMP || m.protocol == PROTOCOL_IGMP then 2
    else if m.isIPv6 then 40 + ChecksumField(m.protocol)
    else 12 + (m.ipHeader - IPV4_HEADER) + ChecksumField(m.protocol)
  }

  /** Patching a word of a frame patches the bytes cut out of the frame. */
  lemma SlicePatched(f: seq<Byte>, pre: seq<Byte>, lo: nat, hi: nat, at: nat, w: Word16)
    requires lo <= at && at + 2 <= hi <= |f|
    ensures var g := f[at := HighByte(w)][at + 1 := LowByte(w)];
            var p := |pre| + (at - lo);
            && pre + g[lo..hi] == (pre + f[lo..hi])[p := HighByte(w)][p + 1 := LowByte(w)]
            && (pre + f[lo..hi])[p] == f[at] && (pre + f[lo..hi])[p + 1] == f[at + 1]
  {
  }

  lemma CoveredPatched(f: seq<Byte>, m: Message, w: Word16)
    requires Inside(f, m) && EvenHeader(m) && Summable(m)
    requires ChecksumField(m.protocol) + 2 <= m.size
    ensures var d := Covered(f, m);
            var g := WithField(f, m, w);
            var p := FieldInCovered(m);
            && Inside(g, m)
            && p + 2 <= |d| && d[p] == f[FieldAt(m)] && d[p + 1] == f[FieldAt(m) + 1]
            && Covered(g, m) == d[p := HighByte(w)][p + 1 := LowByte(w)]
  {
    if m.protocol == PROTOCOL_ICMP || m.protocol == PROTOCOL_IGMP {
      CoveredPatchedBare(f, m, w);
    } else if m.isIPv6 {
      CoveredPatchedIPv6(f, m, w);
    } else {
      CoveredPatchedIPv4(f, m, w);
    }
  }

  lemma CoveredPatchedBare(f: seq<Byte>, m: Message, w: Word16)
    requires Inside(f, m) && (m.protocol == PROTOCOL_ICMP || m.protocol == PROTOCOL_IGMP)
    requires (!m.isIPv6 ==> IPV4_HEADER <= m.ipHeader) && 4 <= m.size
    ensures var d := Covered(f, m);
            var g := WithField(f, m, w);
            && Inside(g, m)
            && 4 <= |d| && d[2] == f[FieldAt(m)] && d[3] == f[FieldAt(m) + 1]
            && Covered(g, m) == d[2 := HighByte(w)][3 := LowByte(w)]
  {
  }

  lemma CoveredPatchedIPv4(f: seq<Byte>, m: Message, w: Word16)
    requires Inside(f, m) && m.protocol != PROTOCOL_ICMP && m.protocol != PROTOCOL_IGMP
    requires !m.isIPv6 && EvenHeader(m) && Summable(m)
    requires ChecksumField(m.protocol) + 2 <= m.size
    ensures var d := Covered(f, m);
            var g := WithField(f, m, w);
            var p := FieldInCovered(m);
            && Inside(g, m)
            && p + 2 <= |d| && d[p] == f[FieldAt(m)] && d[p + 1] == f[FieldAt(m) + 1]
            && Covered(g, m) == d[p := HighByte(w)][p + 1 := LowByte(w)]
  {
    SlicePatched(f, ProtocolAndLength(m.size, m.protocol), IPV4_SOURCE, IPV4_SOURCE + 8 + m.size, FieldAt(m), w);
  }

  lemma CoveredPatchedIPv6(f: seq<Byte>, m: Message, w: Word16)
    requires Inside(f, m) && m.isIPv6 && m.protocol != PROTOCOL_ICMP && m.protocol != PROTOCOL_IGMP
    requires ChecksumField(m.protocol) + 2 <= m.size
    ensures var d := Covered(f, m);
            var g := WithField(f, m, w);
            var p := 40 + ChecksumField(m.protocol);
            && Inside(g, m)
            && p + 2 <= |d| && d[p] == f[FieldAt(m)] && d[p + 1] == f[FieldAt(m) + 1]
            && Covered(g, m) == d[p := HighByte(w)][p + 1 := LowByte(w)]
  {
    var g := WithField(f, m, w);
    var pre := f[SOURCE_ADDRESS..FIRST_HEADER] + LengthWords(m.size, m.protocol);
    assert g[SOURCE_ADDRESS..FIRST_HEADER] == f[SOURCE_ADDRESS..FIRST_HEADER];
    assert |pre| == 40;
    SlicePatched(f, pre, m.start, m.start + m.size, FieldAt(m), w);
    assert Covered(f, m) == pre + f[m.start..m.start + m.size];
    assert Covered(g, m) == pre + g[m.start..m.start + m.size];
  }

  /** A located message that fits the MTU holds its checksum field. */
  lemma FieldInMessage(f: seq<Byte>)
    requires Readable(f) && Locate(f).Located? && FitsMtu(Locate(f).message, Locate(f).headerSize)
    ensures ChecksumField(Locate(f).message.protocol) + 2 <= Locate(f).message.size
  {
  }

  /** The field of a located message lies outside the frame exactly for an ICMPv6 message that
      is cut off in front of it. Such a message is behind extension headers, because its header
      is measured from the end of the IPv6 header, and it is never accepted. */
  lemma FieldOutside(f: seq<Byte>)
    requires Readable(f) && Locate(f).Located?
    ensures var m := Locate(f).message;
            && HasField(m)
            && (!FieldInside(f) <==> m.isIPv6 && m.protocol == PROTOCOL_ICMPV6 && m.start + 4 > |f|)
    ensures !FieldInside(f) ==>
              && FIRST_HEADER < Locate(f).message.start
              && !FitsMtu(Locate(f).message, Locate(f).headerSize)
              && Verdict(f) == INVALID_LENGTH
  {
  }

  /** A hop-by-hop header, and one byte of an ICMPv6 echo request. */
  const CUT_ECHO: seq<Byte> :=
    seq(12, _ => 0) + [0x86, 0xDD, 0x60, 0, 0, 0, 0, 9, 0, 64] + seq(32, _ => 0)
      + [58, 0, 0, 0, 0, 0, 0, 0, 128]

  ghost predicate IsCutEcho(f: seq<Byte>) {
    && |f| == 63 && f[12] == 0x86 && f[13] == 0xDD && f[18] == 0 && f[19] == 9 && f[20] == 0
    && f[54] == 58 && f[55] == 0 && f[62] == 128
  }

  lemma CutEchoLocated(f: seq<Byte>)
    requires IsCutEcho(f)
    ensures Readable(f) && FrameType(f) == FRAME_TYPE_IPV6 && Removable(f)
    ensures Locate(f) == Located(Message(true, IPV6_HEADER, PROTOCOL_ICMPV6, 62, 1), ICMPV6_ECHO)
    ensures FieldAt(Locate(f).message) == 64 > |f|
  {
    assert BE16(f[12], f[13]) == FRAME_TYPE_IPV6;
    assert BE16(f[18], f[19]) == 9;
    assert UpperLayer(f) == Upper(62, PROTOCOL_ICMPV6);
  }

  /** A frame whose checksum field is read behind its end, although its lengths are consistent
      and its extension headers can be removed. */
  lemma FieldBehindFrame()
    ensures Readable(CUT_ECHO) && Removable(CUT_ECHO) && Locate(CUT_ECHO).Located?
    ensures FieldAt(Locate(CUT_ECHO).message) > |CUT_ECHO| && !FieldInside(CUT_ECHO)
  {
    assert IsCutEcho(CUT_ECHO);
    CutEchoLocated(CUT_ECHO);
  }

  /** The checksum of a message whose field is cleared completes the sum of the message. */
  lemma FilledSum(f: seq<Byte>, m: Message)
    requires Inside(f, m) && EvenHeader(m) && Summable(m)
    requires ChecksumField(m.protocol) + 2 <= m.size
    requires f[FieldAt(m)] == 0 && f[FieldAt(m) + 1] == 0
    ensures var g := WithField(f, m, FieldValue(OnesSum(0, Covered(f, m)), m.protocol));
            Inside(g, m) && OnesSum(0, Covered(g, m)) == 0xFFFF
  {
    var w := FieldValue(OnesSum(0, Covered(f, m)), m.protocol);
    CoveredPatched(f, m, w);
    PatchedSum(Covered(f, m), FieldInCovered(m), m.protocol, Covered(WithField(f, m, w), m));
  }

  /** Starting from length plus protocol is summing the rest of the pseudo-header first. */
  lemma PseudoSeed(seed: Word16, head: seq<Byte>, bytes: seq<Byte>)
    requires |head| == 4 && BE16(head[0], head[1]) + BE16(head[2], head[3]) == seed
    ensures OnesSum(seed, bytes) == OnesSum(0, head + bytes)
  {
    assert OnesSumTo(0, head, 1) == BE16(head[0], head[1]);
    assert OnesSum(0, head) == seed;
    OnesSumChain(0, head, bytes);
  }

  /** Over IPv4 without options, the covered bytes are the pseudo-header (RFC 768, RFC 793;
      here with the protocol and length before the addresses) followed by the message. */
  lemma CoveredIsPseudoHeader(f: seq<Byte>, m: Message)
    requires Inside(f, m) && !m.isIPv6 && m.ipHeader == IPV4_HEADER
    requires m.protocol == PROTOCOL_UDP || m.protocol == PROTOCOL_TCP
    ensures Covered(f, m) == ProtocolAndLength(m.size, m.protocol)
                             + f[IPV4_SOURCE..IPV4_SOURCE + 8] + f[m.start..m.start + m.size]
  {
    assert f[IPV4_SOURCE..IPV4_SOURCE + 8 + m.size]
        == f[IPV4_SOURCE..IPV4_SOURCE + 8] + f[m.start..m.start + m.size];
  }

  // ---------------------------------------------------------------------------
  // Stripping extension headers keeps the verdict.
  // ---------------------------------------------------------------------------

  lemma StrippedFind(f: seq<Byte>)
    requires Readable(f) && FrameType(f) == FRAME_TYPE_IPV6
    requires |f| >= FIRST_HEADER && Removable(f)
    ensures var r := Stripped(f);
            && Readable(r) && FrameType(r) == FRAME_TYPE_IPV6
            && match Find(f)
               case NotFound(code) => Find(r) == Find(f)
               case Found(m) => Find(r) == Found(m.(start := FIRST_HEADER))
  {
    StrippedFrame(f);
    var r := Stripped(f);
    assert r[12] == r[..PAYLOAD_LENGTH][12] == f[..PAYLOAD_LENGTH][12] == f[12];
    assert r[13] == r[..PAYLOAD_LENGTH][13] == f[..PAYLOAD_LENGTH][13] == f[13];
  }

  lemma StrippedCovered(f: seq<Byte>, m: Message)
    requires |f| >= FIRST_HEADER && Removable(f)
    requires m.isIPv6 && m.start == UpperLayer(f).start && m.protocol == UpperLayer(f).protocol
    requires Inside(f, m)
    ensures var m' := m.(start := FIRST_HEADER);
            Inside(Stripped(f), m') && Covered(Stripped(f), m') == Covered(f, m)
  {
    StrippedFrame(f);
    var r := Stripped(f);
    assert r[SOURCE_ADDRESS..FIRST_HEADER] == f[SOURCE_ADDRESS..FIRST_HEADER] by {
      assert r[SOURCE_ADDRESS..FIRST_HEADER] == r[NEXT_HEADER + 1..FIRST_HEADER][1..];
      assert f[SOURCE_ADDRESS..FIRST_HEADER] == f[NEXT_HEADER + 1..FIRST_HEADER][1..];
    }
    StrippedMessage(f, m.size);
  }

  lemma StrippedMessage(f: seq<Byte>, size: nat)
    requires |f| >= FIRST_HEADER && Removable(f)
    requires UpperLayer(f).start + size <= |f|
    ensures var start := UpperLayer(f).start;
            && |Stripped(f)| == |f| - (start - FIRST_HEADER)
            && Stripped(f)[FIRST_HEADER..FIRST_HEADER + size] == f[start..start + size]
            && forall j :: FIRST_HEADER <= j < |Stripped(f)| ==> Stripped(f)[j] == f[j + (start - FIRST_HEADER)]
  {
    StrippedFrame(f);
    SameTail(Stripped(f), FIRST_HEADER, f, UpperLayer(f).start, size);
  }

  lemma SameTail(r: seq<Byte>, at: nat, f: seq<Byte>, start: nat, size: nat)
    requires at <= |r| && start + size <= |f| && r[at..] == f[start..]
    ensures at + size <= |r| && r[at..at + size] == f[start..start + size]
    ensures forall j :: at <= j < |r| ==> start <= j + (start - at) < |f| && r[j] == f[j + (start - at)]
  {
    assert |r[at..]| == |f[start..]|;
    assert r[at..at + size] == r[at..][..size];
    assert f[start..start + size] == f[start..][..size];
    forall j | at <= j < |r|
      ensures start <= j + (start - at) < |f| && r[j] == f[j + (start - at)]
    {
      assert r[j] == r[at..][j - at] == f[start..][j - at];
    }
  }

  /** The header checks see the same message; only the room behind the IP header shrinks. */
  lemma StrippedHeaderSize(f: seq<Byte>, m: Message)
    requires |f| >= FIRST_HEADER && Removable(f)
    requires m.isIPv6 && m.start == UpperLayer(f).start && m.protocol == UpperLayer(f).protocol
    requires Inside(f, m) && Inside(Stripped(f), m.(start := FIRST_HEADER))
    ensures var before := HeaderSize(f, m);
            var after := HeaderSize(Stripped(f), m.(start := FIRST_HEADER));
            || after == before
            || (before.Size? && after == Code(INVALID_LENGTH) && m.protocol == PROTOCOL_ICMPV6
                && m.size < before.size)
  {
    StrippedMessage(f, m.size);
  }

  lemma StrippedJudged(f: seq<Byte>, m: Message, size: nat)
    requires |f| >= FIRST_HEADER && Removable(f)
    requires m.isIPv6 && m.start == UpperLayer(f).start && m.protocol == UpperLayer(f).protocol
    requires Inside(f, m) && (m.protocol == PROTOCOL_UDP ==> UDP_HEADER <= m.size)
    ensures var m' := m.(start := FIRST_HEADER);
            && Inside(Stripped(f), m') && (m.protocol == PROTOCOL_UDP ==> FieldAt(m') + 2 <= |Stripped(f)|)
            && Judged(Stripped(f), m', size) == Judged(f, m, size)
  {
    StrippedCovered(f, m);
    StrippedMessage(f, m.size);
  }

  /** A frame has the same checksum verdict before and after its extension headers are removed. */
  lemma StrippedVerdict(f: seq<Byte>)
    requires Readable(f) && FrameType(f) == FRAME_TYPE_IPV6
    requires |f| >= FIRST_HEADER && Removable(f)
    ensures Readable(Stripped(f)) && Verdict(Stripped(f)) == Verdict(f)
  {
    StrippedFind(f);
    var r := Stripped(f);
    if Find(f).Found? {
      var m := Find(f).message;
      StrippedCovered(f, m);
      StrippedHeaderSize(f, m);
      if Locate(f).Located? {
        StrippedJudged(f, m, Locate(f).headerSize);
      }
    }
  }
}
