/**
  * UDP and TCP over IPv4 headers with options. The code sums as many bytes behind the source
  * address as the message has, plus 8, so that options push the end of the message out of the
  * sum. This module says exactly when a generated frame is accepted nevertheless.
  */
module OptionHeaders {
  import opened Words
  import opened Checksum
  import opened Ipv6Extensions
  import opened ProtocolChecksum

  /** UDP and TCP over an IPv4 header whose options push the field out of the covered bytes. */
  predicate Uncovered(m: Message) {
    && !m.isIPv6 && (m.protocol == PROTOCOL_UDP || m.protocol == PROTOCOL_TCP)
    && IPV4_HEADER <= m.ipHeader && m.ipHeader - IPV4_HEADER + ChecksumField(m.protocol) >= m.size
  }

  /** The sum ends between the two bytes of the checksum field. */
  predicate HalfCovered(m: Message) {
    && !m.isIPv6 && (m.protocol == PROTOCOL_UDP || m.protocol == PROTOCOL_TCP)
    && IPV4_HEADER <= m.ipHeader && m.ipHeader - IPV4_HEADER + ChecksumField(m.protocol) + 1 == m.size
  }

  /** The sum that the send side completes: the field counts as zero. */
  function ClearedSum(f: seq<Byte>): Word16
    requires Readable(f) && FieldInside(f) && Locate(f).Located?
  {
    var m := Locate(f).message;
    OnesSum(0, Covered(WithField(f, m, 0), m))
  }

  /** A generated frame with the sum `s` is accepted: always if the field is summed; if it is not,
      only with a sum that is complete already; if half of it is, only when the other half does
      not matter. */
  predicate Accepts(m: Message, s: Word16) {
    || Summable(m)
    || (Uncovered(m) && s == 0xFFFF)
    || (HalfCovered(m) && s % 0x100 == 0xFF && !(m.protocol == PROTOCOL_UDP && s == 0xFFFF))
  }

  // ---------------------------------------------------------------------------
  // Half of the field.
  // ---------------------------------------------------------------------------

  /** Filling in the last byte of an odd number of bytes adds a padded word. */
  lemma SumLastByte(d: seq<Byte>, k: nat, b: Byte, e: seq<Byte>)
    requires |d| == 2 * k + 1 && d[2 * k] == 0 && e == d[2 * k := b]
    ensures OnesSum(0, e) == AddCarry(OnesSum(0, d), BE16(b, 0))
  {
    var front := d[..2 * k];
    assert e[..2 * k] == front;
    OnesSumPrefix(0, front, d, k);
    OnesSumPrefix(0, front, e, k);
    assert WordCount(d) == k + 1 == WordCount(e);
  }

  lemma HighByteCompletes(s: Word16, protocol: Byte)
    ensures AddCarry(s, BE16(HighByte(FieldValue(s, protocol)), 0)) == 0xFFFF
       <==> s % 0x100 == 0xFF && !(protocol == PROTOCOL_UDP && s == 0xFFFF)
  {
    var c := 0xFFFF - s;
    var high, low := c / 0x100, c % 0x100;
    assert c == 0x100 * high + low;
    assert s == 0x100 * (0xFF - high) + (0xFF - low);
    assert s % 0x100 == 0xFF - low;
  }

  lemma SliceLastByte(f: seq<Byte>, pre: seq<Byte>, lo: nat, at: nat, w: Word16)
    requires lo <= at && at + 2 <= |f|
    ensures var g := f[at := HighByte(w)][at + 1 := LowByte(w)];
            var p := |pre| + (at - lo);
            && pre + g[lo..at + 1] == (pre + f[lo..at + 1])[p := HighByte(w)]
            && (pre + f[lo..at + 1])[p] == f[at]
  {
  }

  lemma CoveredHalf(f: seq<Byte>, m: Message, w: Word16) returns (k: nat)
    requires Inside(f, m) && EvenHeader(m) && HalfCovered(m) && FieldAt(m) + 2 <= |f|
    ensures var d := Covered(f, m);
            && |d| == 2 * k + 1 && d[2 * k] == f[FieldAt(m)]
            && Inside(WithField(f, m, w), m) && Covered(WithField(f, m, w), m) == d[2 * k := HighByte(w)]
  {
    k := HalfOf(11 + m.size);
    SliceLastByte(f, ProtocolAndLength(m.size, m.protocol), IPV4_SOURCE, FieldAt(m), w);
  }

  lemma CoveredUntouched(f: seq<Byte>, m: Message, w: Word16)
    requires Inside(f, m) && Uncovered(m) && FieldAt(m) + 2 <= |f|
    ensures Inside(WithField(f, m, w), m) && Covered(WithField(f, m, w), m) == Covered(f, m)
  {
    var g := WithField(f, m, w);
    assert g[IPV4_SOURCE..IPV4_SOURCE + 8 + m.size] == f[IPV4_SOURCE..IPV4_SOURCE + 8 + m.size];
  }

  // ---------------------------------------------------------------------------
  // Exactly when a generated frame is accepted.
  // ---------------------------------------------------------------------------

  /** What the receive side says about a generated frame. */
  lemma GeneratedVerdict(f: seq<Byte>)
    requires Readable(f) && FieldInside(f) && Generated(f).0 == CORRECT_CRC
    ensures Locate(f).Located?
    ensures var m, g := Locate(f).message, Generated(f).1;
            && Readable(g) && Inside(g, m) && EvenHeader(m)
            && g == WithField(WithField(f, m, 0), m, FieldValue(ClearedSum(f), m.protocol))
            && Verdict(g) == if OnesSum(0, Covered(g, m)) == 0xFFFF then CORRECT_CRC else WRONG_CRC
  {
    var m := Locate(f).message;
    var cleared := WithField(f, m, 0);
    FieldInMessage(f);
    LocateUnchanged(f, 0);
    var w := FieldValue(OnesSum(0, Covered(cleared, m)), m.protocol);
    LocateUnchanged(cleared, w);
    PartsWord(w);
  }

  lemma GeneratedSum(f: seq<Byte>)
    requires Readable(f) && FieldInside(f) && Generated(f).0 == CORRECT_CRC
    ensures Locate(f).Located?
    ensures var m, g := Locate(f).message, Generated(f).1;
            && Inside(g, m) && EvenHeader(m)
            && (OnesSum(0, Covered(g, m)) == 0xFFFF <==> Accepts(m, ClearedSum(f)))
  {
    GeneratedVerdict(f);
    var m := Locate(f).message;
    var cleared := WithField(f, m, 0);
    var w := FieldValue(ClearedSum(f), m.protocol);
    FieldInMessage(f);
    LocateUnchanged(f, 0);
    if Summable(m) {
      FilledSum(cleared, m);
    } else if Uncovered(m) {
      CoveredUntouched(cleared, m, w);
    } else {
      var k := CoveredHalf(cleared, m, w);
      SumLastByte(Covered(cleared, m), k, HighByte(w), Covered(Generated(f).1, m));
      HighByteCompletes(ClearedSum(f), m.protocol);
    }
  }

  lemma FieldWritten(f: seq<Byte>, m: Message, w: Word16)
    requires FieldAt(m) + 2 <= |f|
    ensures var g := WithField(WithField(f, m, 0), m, w);
            && |g| == |f|
            && (forall i :: 0 <= i < |f| && i != FieldAt(m) && i != FieldAt(m) + 1 ==> g[i] == f[i])
            && BE16(g[FieldAt(m)], g[FieldAt(m) + 1]) == w
  {
    PartsWord(w);
  }

  lemma UdpNeverZero(s: Word16)
    ensures FieldValue(s, PROTOCOL_UDP) != 0
  {
  }

  lemma FieldValueIs(s: Word16, protocol: Byte)
    ensures FieldValue(s, protocol) == if protocol == 17 && s == 0xFFFF then 0xFFFF else 0xFFFF - s
  {
  }

  /** For every frame and every size of the IPv4 header: a generated frame gets CORRECT_CRC if
      and only if `Accepts`, and WRONG_CRC otherwise. Only the checksum field was written, and a
      UDP field is never 0. */
  lemma VerifiesExactly(f: seq<Byte>)
    requires Readable(f) && FieldInside(f) && Generated(f).0 == CORRECT_CRC
    ensures Locate(f).Located? && Readable(Generated(f).1)
    ensures Verdict(Generated(f).1)
         == if Accepts(Locate(f).message, ClearedSum(f)) then CORRECT_CRC else WRONG_CRC
    ensures var m, g := Locate(f).message, Generated(f).1;
            && |g| == |f|
            && (forall i :: 0 <= i < |f| && i != FieldAt(m) && i != FieldAt(m) + 1 ==> g[i] == f[i])
            && (m.protocol == PROTOCOL_UDP ==> BE16(g[FieldAt(m)], g[FieldAt(m) + 1]) != 0)
  {
    GeneratedVerdict(f);
    GeneratedSum(f);
    var m, s := Locate(f).message, ClearedSum(f);
    FieldWritten(f, m, FieldValue(s, m.protocol));
    UdpNeverZero(s);
  }

  /** The field is the complement of the sum, except that UDP has 0xffff in place of 0. */
  lemma FieldIsComplement(f: seq<Byte>)
    requires Readable(f) && FieldInside(f) && Generated(f).0 == CORRECT_CRC
    ensures Locate(f).Located?
    ensures var m, g := Locate(f).message, Generated(f).1;
            && |g| == |f|
            && BE16(g[FieldAt(m)], g[FieldAt(m) + 1])
               == if m.protocol == 17 && ClearedSum(f) == 0xFFFF then 0xFFFF else 0xFFFF - ClearedSum(f)
  {
    GeneratedVerdict(f);
    var m, s := Locate(f).message, ClearedSum(f);
    FieldWritten(f, m, FieldValue(s, m.protocol));
    FieldValueIs(s, m.protocol);
  }

  // ---------------------------------------------------------------------------
  // Exactly when acceptance does not depend on the content.
  // ---------------------------------------------------------------------------

  /** The frame with everything behind the IPv4 fields blank, except a TCP data offset of 5. */
  function Blanked(f: seq<Byte>, m: Message): (b: seq<Byte>)
    ensures |b| == |f|
  {
    seq(|f|, i requires 0 <= i < |f| => BlankedAt(f, m, i))
  }

  function BlankedAt(f: seq<Byte>, m: Message, i: nat): Byte
    requires i < |f|
  {
    if i < IPV4_SOURCE then f[i]
    else if i == m.start + 12 && m.protocol == PROTOCOL_TCP then 0x50
    else 0
  }

  lemma BlankedFound(f: seq<Byte>, m: Message)
    requires Readable(f) && Find(f) == Found(m) && !m.isIPv6
    ensures Readable(Blanked(f, m)) && Find(Blanked(f, m)) == Found(m)
  {
    var b := Blanked(f, m);
    assert b[12] == f[12] && b[13] == f[13] && b[14] == f[14] && b[16] == f[16] && b[17] == f[17];
    assert b[IPV4_PROTOCOL] == f[IPV4_PROTOCOL];
  }

  lemma BlankedField(f: seq<Byte>, m: Message)
    requires !m.isIPv6 && EvenHeader(m) && m.start == ETH_HEADER + m.ipHeader && FieldAt(m) + 2 <= |f|
    ensures WithField(Blanked(f, m), m, 0) == Blanked(f, m)
  {
    var b := Blanked(f, m);
    assert b[FieldAt(m)] == BlankedAt(f, m, FieldAt(m)) == 0;
    assert b[FieldAt(m) + 1] == BlankedAt(f, m, FieldAt(m) + 1) == 0;
  }

  function FixedHeader(m: Message): nat {
    if m.protocol == PROTOCOL_UDP then UDP_HEADER else TCP_HEADER
  }

  lemma BlankedHeader(f: seq<Byte>, m: Message)
    requires Inside(f, m) && EvenHeader(m) && !m.isIPv6 && FixedHeader(m) <= m.size
    requires m.protocol == PROTOCOL_UDP || m.protocol == PROTOCOL_TCP
    ensures Inside(Blanked(f, m), m) && HeaderSize(Blanked(f, m), m) == Size(FixedHeader(m))
  {
    if m.protocol == PROTOCOL_TCP {
      assert Blanked(f, m)[m.start + 12] == BlankedAt(f, m, m.start + 12) == 0x50;
    }
  }

  lemma BlankedLocated(f: seq<Byte>, m: Message)
    requires Readable(f) && FieldInside(f) && Generated(f).0 == CORRECT_CRC
    requires Locate(f).Located? && m == Locate(f).message
    requires !m.isIPv6 && (m.protocol == PROTOCOL_UDP || m.protocol == PROTOCOL_TCP)
    ensures var b := Blanked(f, m);
            Readable(b) && Locate(b) == Located(m, FixedHeader(m)) && FitsMtu(m, FixedHeader(m))
  {
    BlankedFound(f, m);
    BlankedHeader(f, m);
  }

  lemma BlankedGenerated(f: seq<Byte>, m: Message)
    requires Readable(f) && FieldInside(f) && Generated(f).0 == CORRECT_CRC
    requires Locate(f).Located? && m == Locate(f).message
    requires !m.isIPv6 && (m.protocol == PROTOCOL_UDP || m.protocol == PROTOCOL_TCP)
    ensures var b := Blanked(f, m);
            && Readable(b) && FieldInside(b) && Generated(b).0 == CORRECT_CRC
            && Locate(b).Located? && Locate(b).message == m
            && FieldAt(m) + 2 <= |b| && WithField(b, m, 0) == b
  {
    FieldInMessage(f);
    BlankedLocated(f, m);
    BlankedField(f, m);
  }

  /** A sum of zero words, except one even byte that is too small for a carry. */
  lemma {:induction false} SparseSum(seed: Word16, data: seq<Byte>, p: nat, n: nat)
    requires 2 * n <= |data| + 1 && p < |data| && p % 2 == 0
    requires forall j :: 0 <= j < |data| && j != p ==> data[j] == 0
    requires seed + BE16(data[p], 0) < 0x1_0000
    ensures OnesSumTo(seed, data, n) == seed + if p < 2 * n then BE16(data[p], 0) else 0
    decreases n
  {
    if n > 0 {
      SparseSum(seed, data, p, n - 1);
    }
  }

  /** The summed bytes of the blank frame behind protocol and length. */
  lemma BlankedData(b: seq<Byte>, m: Message, data: seq<Byte>)
    requires Inside(b, m) && EvenHeader(m) && !m.isIPv6 && b == Blanked(b, m)
    requires data == b[IPV4_SOURCE..IPV4_SOURCE + 8 + m.size]
    ensures Sparse(data, m.ipHeader)
  {
    forall j | 0 <= j < |data|
      ensures data[j] == if j == m.ipHeader && m.protocol == PROTOCOL_TCP then 0x50 else 0
    {
      assert data[j] == b[IPV4_SOURCE + j] == BlankedAt(b, m, IPV4_SOURCE + j);
    }
  }

  ghost predicate Sparse(data: seq<Byte>, p: nat) {
    && |data| > 0 && p % 2 == 0
    && (forall j :: 0 <= j < |data| && j != p ==> data[j] == 0)
    && (p < |data| ==> data[p] == 0 || data[p] == 0x50)
  }

  lemma SparseWhole(seed: Word16, head: seq<Byte>, data: seq<Byte>, p: nat)
    requires Sparse(data, p) && seed < 0x100
    requires |head| == 4 && BE16(head[0], head[1]) + BE16(head[2], head[3]) == seed
    ensures OnesSum(0, head + data) == seed || OnesSum(0, head + data) == seed + 0x5000
  {
    PseudoSeed(seed, head, data);
    SparseSum(seed, data, if p < |data| then p else 0, WordCount(data));
  }

  lemma SparseSeed(size: Word16, protocol: Byte, data: seq<Byte>, p: nat)
    requires Sparse(data, p) && size + protocol < 0x100
    ensures var s := OnesSum(0, ProtocolAndLength(size, protocol) + data);
            s == size + protocol || s == size + protocol + 0x5000
  {
    ProtocolAndLengthSum(size, protocol);
    SparseWhole(size + protocol, ProtocolAndLength(size, protocol), data, p);
  }

  predicate IsSmallSum(m: Message, s: Word16) {
    s == m.protocol + m.size || s == m.protocol + m.size + 0x5000
  }

  lemma CoveredData(b: seq<Byte>, m: Message) returns (data: seq<Byte>)
    requires Inside(b, m) && EvenHeader(m) && !m.isIPv6
    requires m.protocol == PROTOCOL_UDP || m.protocol == PROTOCOL_TCP
    ensures IPV4_SOURCE + 8 + m.size <= |b| && data == b[IPV4_SOURCE..IPV4_SOURCE + 8 + m.size]
    ensures Covered(b, m) == ProtocolAndLength(m.size, m.protocol) + data
  {
    data := b[IPV4_SOURCE..IPV4_SOURCE + 8 + m.size];
  }

  /** The blank frame has a small sum: protocol and length, and the data offset if it is summed. */
  lemma BlankedSum(b: seq<Byte>, m: Message)
    requires Inside(b, m) && EvenHeader(m) && !m.isIPv6
    requires m.protocol == PROTOCOL_UDP || m.protocol == PROTOCOL_TCP
    requires m.size < 0x80 && b == Blanked(b, m)
    ensures IsSmallSum(m, OnesSum(0, Covered(b, m)))
  {
    var data := CoveredData(b, m);
    BlankedData(b, m, data);
    SparseSeed(m.size, m.protocol, data, m.ipHeader);
  }

  /** Messages of this shape are accepted after generation, whatever the frame contains. */
  ghost predicate AlwaysAccepted(m: Message) {
    forall f :: Readable(f) && FieldInside(f) && Locate(f).Located? && Locate(f).message == m
                && Generated(f).0 == CORRECT_CRC
                ==> Verdicts(f)
  }

  ghost predicate Verdicts(f: seq<Byte>)
    requires Readable(f) && FieldInside(f)
  {
    Readable(Generated(f).1) && Verdict(Generated(f).1) == CORRECT_CRC
  }

  /** A small sum is not accepted by itself. */
  lemma SmallSumRefused(m: Message, s: Word16)
    requires !Summable(m) && m.size < 0x80 && (m.protocol == PROTOCOL_UDP || m.protocol == PROTOCOL_TCP)
    requires IsSmallSum(m, s)
    ensures !Accepts(m, s)
  {
    var p := m.protocol + m.size;
    assert p < 0xFF;
    assert p % 0x100 == p && (p + 0x5000) % 0x100 == p;
  }

  lemma BlankedTwice(f: seq<Byte>, m: Message)
    ensures Blanked(Blanked(f, m), m) == Blanked(f, m)
  {
  }

  /** A frame that is generated and blank behind its IPv4 fields. */
  ghost predicate IsBlank(b: seq<Byte>, m: Message) {
    && Readable(b) && FieldInside(b) && Generated(b).0 == CORRECT_CRC
    && Locate(b).Located? && m == Locate(b).message
    && b == Blanked(b, m) && FieldAt(m) + 2 <= |b| && WithField(b, m, 0) == b
  }

  /** A blank frame that is generated is dropped unless its whole field is summed. */
  lemma BlankRefused(b: seq<Byte>, m: Message)
    requires IsBlank(b, m) && !Summable(m)
    ensures Readable(Generated(b).1) && Verdict(Generated(b).1) == WRONG_CRC
  {
    BlankedSum(b, m);
    VerifiesExactly(b);
    SmallSumRefused(m, ClearedSum(b));
  }

  lemma BlankedRejected(f: seq<Byte>, m: Message)
    requires Readable(f) && FieldInside(f) && Generated(f).0 == CORRECT_CRC
    requires Locate(f).Located? && m == Locate(f).message && !Summable(m)
    ensures !AlwaysAccepted(m)
  {
    var b := Blanked(f, m);
    BlankedGenerated(f, m);
    BlankedTwice(f, m);
    BlankRefused(b, m);
    assert !Verdicts(b);
  }

  /** Generation guarantees acceptance for every content if and only if the whole field is among
      the summed bytes. `f` is any frame of the shape for which a checksum is generated. */
  lemma GuaranteedExactly(f: seq<Byte>)
    requires Readable(f) && FieldInside(f) && Generated(f).0 == CORRECT_CRC
    ensures Locate(f).Located? && (AlwaysAccepted(Locate(f).message) <==> Summable(Locate(f).message))
  {
    var m := Locate(f).message;
    if Summable(m) {
      forall g | Readable(g) && FieldInside(g) && Locate(g).Located? && Locate(g).message == m
                 && Generated(g).0 == CORRECT_CRC
        ensures Verdicts(g)
      {
        VerifiesExactly(g);
      }
    } else {
      BlankedRejected(f, m);
    }
  }

  // ---------------------------------------------------------------------------
  // A frame that is generated and then rejected.
  // ---------------------------------------------------------------------------

  /** An empty UDP datagram behind a header of 24 bytes. */
  const SHORT_DATAGRAM: seq<Byte> :=
    [0, 0, 0, 0, 0, 0, 0, 0, 0, 0, 0, 0, 8, 0,
     0x46, 0, 0, 32, 0, 0, 0, 0, 64, 17, 0, 0, 0, 0, 0, 0, 0, 0, 0, 0, 0, 0, 0, 0,
     0, 0, 0, 0, 0, 0, 0, 0]

  const SHORT_MESSAGE := Message(false, 24, PROTOCOL_UDP, 38, 8)

  ghost predicate LooksShort(f: seq<Byte>) {
    && |f| == 46 && f[12] == 8 && f[13] == 0 && f[14] == 0x46 && f[16] == 0 && f[17] == 32
    && f[IPV4_PROTOCOL] == 17 && forall j :: IPV4_SOURCE <= j < 46 ==> f[j] == 0
  }

  lemma ShortLocated(f: seq<Byte>)
    requires LooksShort(f)
    ensures Readable(f) && Locate(f) == Located(SHORT_MESSAGE, UDP_HEADER)
  {
    assert f[14] % 0x10 == 6;
    assert FindIPv4(f) == Found(SHORT_MESSAGE);
  }

  lemma ShortBlank(f: seq<Byte>)
    requires LooksShort(f)
    ensures f == Blanked(f, SHORT_MESSAGE) && WithField(f, SHORT_MESSAGE, 0) == f
  {
  }

  lemma ShortIsBlank(f: seq<Byte>)
    requires LooksShort(f)
    ensures IsBlank(f, SHORT_MESSAGE)
  {
    ShortLocated(f);
    ShortBlank(f);
  }

  /** This frame is generated, and the receive side drops the result. */
  lemma ShortDatagramRejected()
    ensures var f := SHORT_DATAGRAM;
            && Readable(f) && FieldInside(f) && Generated(f).0 == CORRECT_CRC
            && Readable(Generated(f).1) && Verdict(Generated(f).1) == WRONG_CRC
  {
    ShortIsBlank(SHORT_DATAGRAM);
    BlankRefused(SHORT_DATAGRAM, SHORT_MESSAGE);
  }
}
