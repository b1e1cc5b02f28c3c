/**
  * ICMP echo: turning a request into its reply in the same buffer, with both checksums
  * regenerated, and the checksum test of the receive side that judges the result.
  */
module Icmp {
  import opened Words
  import opened Checksum
  import opened Ipv6Extensions
  import opened ProtocolChecksum
  import opened OptionHeaders
  import opened PacketSummaries

  const ECHO_REPLY: Byte := 0
  const TIME_TO_LIVE: Byte := 64

  // Positions in an IPv4 frame.
  const FRAGMENT_OFFSET := ETH_HEADER + 6
  const TTL := ETH_HEADER + 8
  const HEADER_CHECKSUM := ETH_HEADER + 10
  const SOURCE := ETH_HEADER + 12
  const DESTINATION := ETH_HEADER + 16
  const ICMP_TYPE := ETH_HEADER + IPV4_HEADER
  const ICMP_PACKET := ICMP_TYPE + 8

  /** The request with its header fields rewritten and the header checksum cleared. */
  function Readdressed(f: seq<Byte>): (r: seq<Byte>)
    requires |f| >= ICMP_PACKET
    ensures |r| == |f|
  {
    seq(|f|, i requires 0 <= i < |f| => ReaddressedAt(f, i))
  }

  function ReaddressedAt(f: seq<Byte>, i: nat): Byte
    requires |f| >= ICMP_PACKET && i < |f|
  {
    if FRAGMENT_OFFSET <= i < FRAGMENT_OFFSET + 2 || HEADER_CHECKSUM <= i < HEADER_CHECKSUM + 2 then 0
    else if i == TTL then TIME_TO_LIVE
    else if SOURCE <= i < DESTINATION then f[i + 4]
    else if DESTINATION <= i < ICMP_TYPE then f[i - 4]
    else if i == ICMP_TYPE then ECHO_REPLY
    else f[i]
  }

  function IPv4Header(f: seq<Byte>): seq<Byte>
    requires |f| >= ICMP_TYPE
  {
    f[ETH_HEADER..ICMP_TYPE]
  }

  /** With its IP header checksum, as the complement of the header sum. */
  function HeaderFilled(f: seq<Byte>): (r: seq<Byte>)
    requires |f| >= ICMP_PACKET
    ensures |r| == |f|
  {
    var c := 0xFFFF - OnesSum(0, IPv4Header(f));
    f[HEADER_CHECKSUM := HighByte(c)][HEADER_CHECKSUM + 1 := LowByte(c)]
  }

  /** The receive-side checksum test of `prvAllowIPPacketIPv4`. */
  predicate Accepted(f: seq<Byte>)
    requires Readable(f) && |f| > ETH_HEADER && FrameType(f) == FRAME_TYPE_IPV4
    requires ETH_HEADER + IPv4HeaderSize(f) <= |f|
  {
    && OnesSum(0, f[ETH_HEADER..ETH_HEADER + IPv4HeaderSize(f)]) == 0xFFFF
    && Verdict(f) == CORRECT_CRC
  }

  /** The checksum field of an IPv4 frame is part of the frame. */
  lemma IPv4Stored(s: seq<Byte>, len: nat)
    requires len <= |s| && Readable(s[..len]) && FrameType(s[..len]) == FRAME_TYPE_IPV4
    ensures FieldInside(s[..len]) && FieldStored(s, len)
  {
    if Locate(s[..len]).Located? {
      FieldOutside(s[..len]);
    }
  }

  method AllowIPPacket(frame: array<Byte>, len: nat, align: nat) returns (allow: bool)
    requires ETH_HEADER + IPV4_HEADER <= len <= frame.Length < 0x1_0000_0000 && align < 4
    requires Readable(frame[..len]) && FrameType(frame[..len]) == FRAME_TYPE_IPV4
    requires ETH_HEADER + IPv4HeaderSize(frame[..len]) <= len
    modifies frame
    ensures frame[..len] == old(frame[..len])
    ensures allow <==> Accepted(old(frame[..len]))
  {
    var f := frame[..len];
    var sum := GenerateChecksum(0, f[ETH_HEADER..ETH_HEADER + IPv4HeaderSize(f)], (align + ETH_HEADER) % 4);
    if sum != CORRECT_CRC {
      return false;
    }
    IPv4Stored(frame[..], len);
    var result := GenerateProtocolChecksum(frame, len, false, align);
    allow := result == CORRECT_CRC;
  }

  /** A request that reached ICMP: an IPv4 header without options, consistent lengths, and a
      packet within the MTU. */
  predicate EchoRequest(f: seq<Byte>) {
    && |f| >= ICMP_PACKET
    && FrameType(f) == FRAME_TYPE_IPV4
    && IPv4HeaderSize(f) == IPV4_HEADER
    && f[IPV4_PROTOCOL] == PROTOCOL_ICMP
    && var l := Locate(f); l.Located? && FitsMtu(l.message, l.headerSize)
  }

  /** The fields that are rewritten take no part in locating the message. */
  lemma SameMessage(f: seq<Byte>)
    requires EchoRequest(f)
    ensures EchoRequest(HeaderFilled(Readdressed(f)))
    ensures Locate(HeaderFilled(Readdressed(f))) == Locate(f)
  {
    var g := HeaderFilled(Readdressed(f));
    assert g[12] == f[12] && g[13] == f[13] && g[14] == f[14] && g[16] == f[16] && g[17] == f[17];
    assert g[IPV4_PROTOCOL] == f[IPV4_PROTOCOL];
    assert FindIPv4(g) == FindIPv4(f);
  }

  /** A header completed with its checksum sums to 0xffff. */
  lemma FilledHeader(f: seq<Byte>)
    requires |f| >= ICMP_PACKET && f[HEADER_CHECKSUM] == 0 && f[HEADER_CHECKSUM + 1] == 0
    ensures OnesSum(0, IPv4Header(HeaderFilled(f))) == 0xFFFF
  {
    var d: seq<Byte> := IPv4Header(f);
    PatchedSum(d, 10, PROTOCOL_ICMP, IPv4Header(HeaderFilled(f)));
  }

  /** The rebuilt echo reply passes the receive-side checks of the host it is sent to. */
  lemma EchoReplyAccepted(f: seq<Byte>)
    requires EchoRequest(f)
    ensures var g := HeaderFilled(Readdressed(f));
            && Readable(g) && FieldInside(g) && Generated(g).0 == CORRECT_CRC
            && var r := Generated(g).1;
               && Readable(r) && |r| == |f| && FrameType(r) == FRAME_TYPE_IPV4
               && IPv4HeaderSize(r) == IPV4_HEADER
               && Accepted(r)
               && r[SOURCE..DESTINATION] == f[DESTINATION..ICMP_TYPE]
               && r[DESTINATION..ICMP_TYPE] == f[SOURCE..DESTINATION]
               && r[ICMP_TYPE] == ECHO_REPLY
               && r[ICMP_TYPE + 4..] == f[ICMP_TYPE + 4..]
  {
    var g := HeaderFilled(Readdressed(f));
    ReplyGenerated(f);
    FilledHeader(Readdressed(f));
    VerifiesExactly(g);
    var r := Generated(g).1;
    ReplyFields(f, g, r);
    assert r[ETH_HEADER..ETH_HEADER + IPv4HeaderSize(r)] == IPv4Header(r) == IPv4Header(g);
  }

  /** The other fields: the reply is not fragmented and has a new time to live; all that is in front
      of these, the protocol and the code of the message are those of the request. */
  lemma EchoReplyFields(f: seq<Byte>)
    requires EchoRequest(f)
    ensures var g := HeaderFilled(Readdressed(f));
            && Readable(g) && FieldInside(g)
            && var r := Generated(g).1;
               && |r| == |f| && r[..20] == f[..20]
               && r[20] == 0 && r[21] == 0 && r[22] == 64 && r[23] == f[23] && r[35] == f[35]
  {
    var g := HeaderFilled(Readdressed(f));
    ReplyGenerated(f);
    VerifiesExactly(g);
    FieldsKept(f, g, Generated(g).1);
  }

  lemma FieldsKept(f: seq<Byte>, g: seq<Byte>, r: seq<Byte>)
    requires |f| >= ICMP_PACKET && g == HeaderFilled(Readdressed(f)) && |r| == |f|
    requires forall i :: 0 <= i < |r| && i != ICMP_TYPE + 2 && i != ICMP_TYPE + 3 ==> r[i] == g[i]
    ensures r[..20] == f[..20] && r[20] == 0 && r[21] == 0 && r[22] == 64 && r[23] == f[23] && r[35] == f[35]
  {
    var h := Readdressed(f);
    assert forall i :: 0 <= i < |r| && i != HEADER_CHECKSUM && i != HEADER_CHECKSUM + 1 ==> g[i] == h[i];
  }

  lemma ReplyGenerated(f: seq<Byte>)
    requires EchoRequest(f)
    ensures var g := HeaderFilled(Readdressed(f));
            && Readable(g) && FieldInside(g) && Generated(g).0 == CORRECT_CRC
            && Locate(g) == Locate(f)
            && Summable(Locate(g).message) && FieldAt(Locate(g).message) == ICMP_TYPE + 2
  {
    SameMessage(f);
  }

  /** Only the ICMP checksum is written after the header has been filled. */
  lemma ReplyFields(f: seq<Byte>, g: seq<Byte>, r: seq<Byte>)
    requires |f| >= ICMP_PACKET && g == HeaderFilled(Readdressed(f)) && |r| == |f|
    requires forall i :: 0 <= i < |r| && i != ICMP_TYPE + 2 && i != ICMP_TYPE + 3 ==> r[i] == g[i]
    ensures FrameType(r) == FrameType(f) && IPv4HeaderSize(r) == IPv4HeaderSize(f)
    ensures IPv4Header(r) == IPv4Header(g)
    ensures r[SOURCE..DESTINATION] == f[DESTINATION..ICMP_TYPE]
    ensures r[DESTINATION..ICMP_TYPE] == f[SOURCE..DESTINATION]
    ensures r[ICMP_TYPE] == ECHO_REPLY && r[ICMP_TYPE + 4..] == f[ICMP_TYPE + 4..]
  {
    var h := Readdressed(f);
    assert forall i :: 0 <= i < |r| && i != HEADER_CHECKSUM && i != HEADER_CHECKSUM + 1 ==> g[i] == h[i];
  }

  method CopyWithin(frame: array<Byte>, to: nat, bytes: seq<Byte>)
    requires to + |bytes| <= frame.Length
    modifies frame
    ensures forall j :: 0 <= j < frame.Length ==>
              frame[j] == if to <= j < to + |bytes| then bytes[j - to] else old(frame[j])
  {
    for i := 0 to |bytes|
      invariant forall j :: 0 <= j < frame.Length ==>
                  frame[j] == if to <= j < to + i then bytes[j - to] else old(frame[j])
    {
      frame[to + i] := bytes[i];
    }
  }

  /** The fields that are rewritten do not make the frame another one. */
  lemma StillReadable(f: seq<Byte>)
    requires |f| >= ICMP_PACKET && FrameType(f) == FRAME_TYPE_IPV4 && Readable(f)
    ensures var g := HeaderFilled(Readdressed(f));
            Readable(g) && FrameType(g) == FRAME_TYPE_IPV4 && FieldInside(g)
  {
    var g := HeaderFilled(Readdressed(f));
    assert g[12] == f[12] && g[13] == f[13] && g[14] == f[14];
    assert g[..|g|] == g;
    IPv4Stored(g, |g|);
  }

  /** `prvProcessICMPEchoRequest`, for every IPv4 frame. */
  method ProcessEchoRequest(frame: array<Byte>, len: nat, align: nat)
    requires ICMP_PACKET <= len <= frame.Length < 0x1_0000_0000 && align < 4
    requires Readable(frame[..len]) && FrameType(frame[..len]) == FRAME_TYPE_IPV4
    modifies frame
    ensures var g := HeaderFilled(Readdressed(old(frame[..len])));
            Readable(g) && FieldInside(g) && frame[..len] == Generated(g).1
    ensures frame[len..] == old(frame[len..])
  {
    StillReadable(frame[..len]);
    Rewrite(frame, len);
    FillHeader(frame, len, align);
    IPv4Stored(frame[..], len);
    var result := GenerateProtocolChecksum(frame, len, true, align);
  }

  method FillHeader(frame: array<Byte>, len: nat, align: nat)
    requires ICMP_PACKET <= len <= frame.Length && align < 4
    modifies frame
    ensures frame[..len] == HeaderFilled(old(frame[..len]))
    ensures frame[len..] == old(frame[len..])
  {
    var f := frame[..len];
    var sum := GenerateChecksum(0, IPv4Header(f), (align + ETH_HEADER) % 4);
    sum := 0xFFFF - sum;
    frame[HEADER_CHECKSUM] := HighByte(sum);
    frame[HEADER_CHECKSUM + 1] := LowByte(sum);
  }

  /** The field assignments, one after the other. */
  method Rewrite(frame: array<Byte>, len: nat)
    requires ICMP_PACKET <= len <= frame.Length
    modifies frame
    ensures frame[..len] == Readdressed(old(frame[..len]))
    ensures frame[len..] == old(frame[len..])
  {
    ghost var f := frame[..len];
    frame[ICMP_TYPE] := ECHO_REPLY;
    SwapAddresses(frame);
    SetFields(frame);
    assert forall j :: 0 <= j < len ==> frame[j] == ReaddressedAt(f, j);
  }

  method SetFields(frame: array<Byte>)
    requires ICMP_PACKET <= frame.Length
    modifies frame
    ensures forall j :: 0 <= j < frame.Length ==>
              frame[j] == if j == TTL then TIME_TO_LIVE
                          else if FRAGMENT_OFFSET <= j < FRAGMENT_OFFSET + 2
                               || HEADER_CHECKSUM <= j < HEADER_CHECKSUM + 2 then 0
                          else old(frame[j])
  {
    frame[TTL] := TIME_TO_LIVE;
    frame[FRAGMENT_OFFSET], frame[FRAGMENT_OFFSET + 1] := 0, 0;
    frame[HEADER_CHECKSUM], frame[HEADER_CHECKSUM + 1] := 0, 0;
  }

  method SwapAddresses(frame: array<Byte>)
    requires ICMP_PACKET <= frame.Length
    modifies frame
    ensures forall j :: 0 <= j < frame.Length ==>
              frame[j] == if SOURCE <= j < DESTINATION then old(frame[j + 4])
                          else if DESTINATION <= j < ICMP_TYPE then old(frame[j - 4])
                          else old(frame[j])
  {
    var address := frame[DESTINATION..ICMP_TYPE];
    CopyWithin(frame, DESTINATION, frame[SOURCE..DESTINATION]);
    CopyWithin(frame, SOURCE, address);
  }
}
