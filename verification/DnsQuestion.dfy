/**
  * The question sent to a DNS server: `prvCreateDNSMessage` writes a host name in wire form,
  * in place, over the dots of a copy of its text.
  */
module DnsQuestion {
  import opened Words
  import opened DnsNames

  /** `sizeof( DNSMessage_t )` and `sizeof( DNSTail_t )`. */
  const HEADER_SIZE := 12
  const TAIL_SIZE := 4

  type HostName = n: Bytes | 0 !in n

  // ---------------------------------------------------------------------------
  // The labels of a host name.
  // ---------------------------------------------------------------------------

  function LabelEnd(n: Bytes, i: nat): (end: nat)
    requires i <= |n|
    ensures i <= end <= |n| && (end < |n| ==> n[end] == DOT)
    ensures forall j :: i <= j < end ==> n[j] != DOT
    decreases |n| - i
  {
    if i == |n| || n[i] == DOT then i else LabelEnd(n, i + 1)
  }

  function LabelsOf(n: Bytes, i: nat): seq<Bytes>
    requires i <= |n|
    decreases |n| - i
  {
    var end := LabelEnd(n, i);
    [n[i..end]] + if end < |n| then LabelsOf(n, end + 1) else []
  }

  predicate IsHostName(n: Bytes) {
    forall l :: l in LabelsOf(n, 0) ==> 1 <= |l| <= MAX_LABEL
  }

  lemma {:induction false} DottedFront(first: Bytes, labels: seq<Bytes>)
    requires |labels| > 0
    ensures Dotted([first] + labels) == first + [DOT] + Dotted(labels)
    decreases |labels|
  {
    var k := |labels| - 1;
    if k == 0 {
      DottedAppend([first], labels[0]);
      assert labels == [labels[0]];
    } else {
      DottedFront(first, labels[..k]);
      assert labels == labels[..k] + [labels[k]];
      assert [first] + labels == ([first] + labels[..k]) + [labels[k]];
      DottedAppend([first] + labels[..k], labels[k]);
    }
  }

  /** The first label and the others. */
  lemma LabelsStep(n: Bytes, i: nat, labels: seq<Bytes>) returns (first: Bytes, rest: seq<Bytes>)
    requires i <= |n| && labels == LabelsOf(n, i)
    ensures labels == [first] + rest && first == n[i..LabelEnd(n, i)]
    ensures LabelEnd(n, i) < |n| ==> |rest| > 0 && rest == LabelsOf(n, LabelEnd(n, i) + 1)
    ensures LabelEnd(n, i) == |n| ==> rest == []
  {
    first := n[i..LabelEnd(n, i)];
    rest := if LabelEnd(n, i) < |n| then LabelsOf(n, LabelEnd(n, i) + 1) else [];
  }

  lemma {:induction false} DottedLabels(n: Bytes, i: nat, labels: seq<Bytes>)
    requires i <= |n| && labels == LabelsOf(n, i)
    ensures Dotted(labels) == n[i..]
    decreases |n| - i
  {
    var first, rest := LabelsStep(n, i, labels);
    if LabelEnd(n, i) < |n| {
      DottedLabels(n, LabelEnd(n, i) + 1, rest);
    }
    DottedStep(n, i, LabelEnd(n, i), first, rest);
  }

  lemma DottedStep(n: Bytes, i: nat, end: nat, first: Bytes, rest: seq<Bytes>)
    requires i <= end <= |n| && first == n[i..end]
    requires if end < |n| then n[end] == DOT && |rest| > 0 && Dotted(rest) == n[end + 1..] else rest == []
    ensures Dotted([first] + rest) == n[i..]
  {
    JoinedAtDot(n, i, end);
    if end < |n| {
      DottedFront(first, rest);
    } else {
      DottedOne(first);
    }
  }

  lemma DottedOne(first: Bytes)
    ensures Dotted([first] + []) == first
  {
  }

  lemma JoinedAtDot(n: Bytes, i: nat, end: nat)
    requires i <= end <= |n|
    ensures end < |n| && n[end] == DOT ==> n[i..end] + [DOT] + n[end + 1..] == n[i..]
    ensures end == |n| ==> n[i..end] == n[i..]
  {
  }

  // ---------------------------------------------------------------------------
  // The message.
  // ---------------------------------------------------------------------------

  /** Byte `k` of the encoded name: lengths in front of the labels, 0 at the end. A length
      is stored in one byte. */
  function WireAt(n: Bytes, k: nat): Byte
    requires k <= |n| + 1
  {
    if k == |n| + 1 then 0
    else if k == 0 || n[k - 1] == DOT then (LabelEnd(n, k) - k) % 0x100
    else n[k - 1]
  }

  function Wire(n: Bytes): (w: Bytes)
    ensures |w| == |n| + 2
  {
    seq(|n| + 2, k requires 0 <= k < |n| + 2 => WireAt(n, k))
  }

  /** The header of a query with one question, on a little-endian host: the identifier is
      stored in host order. */
  function Header(identifier: Word16): (h: Bytes)
    ensures |h| == HEADER_SIZE
  {
    [LowByte(identifier), HighByte(identifier), 1, 0, 0, 1, 0, 0, 0, 0, 0, 0]
  }

  function Tail(hostType: Word16): (t: Bytes)
    ensures |t| == TAIL_SIZE
  {
    [HighByte(hostType), LowByte(hostType), 0, 1]
  }

  function Question(n: Bytes, identifier: Word16, hostType: Word16): Bytes {
    Header(identifier) + Wire(n) + Tail(hostType)
  }

  /** The size that `prvGetPayloadBuffer` asks for. */
  function PayloadSize(n: Bytes): nat {
    HEADER_SIZE + |n| + 2 + 2 + 2
  }

  ghost predicate Encodable(labels: seq<Bytes>) {
    forall l :: l in labels ==> |l| < NAME_IS_OFFSET
  }

  /** From the start of a label on, the bytes are the wire form of the remaining labels. */
  lemma {:induction false} WireIsEncoded(n: Bytes, k: nat, labels: seq<Bytes>)
    requires k <= |n| && (k == 0 || n[k - 1] == DOT)
    requires labels == LabelsOf(n, k) && Encodable(labels)
    ensures Wire(n)[k..] == Encoded(labels)
    decreases |n| - k
  {
    var next := LabelEnd(n, k) + 1;
    var first, rest := LabelsStep(n, k, labels);
    EncodableParts(first, rest);
    if next <= |n| {
      WireIsEncoded(n, next, rest);
    } else {
      WireEnd(n);
    }
    WirePart(n, k, next, first);
    EncodedParts(Wire(n), k, next, first, rest);
  }

  lemma EncodableParts(first: Bytes, rest: seq<Bytes>)
    requires Encodable([first] + rest)
    ensures |first| < NAME_IS_OFFSET && Encodable(rest)
  {
    assert first in [first] + rest;
  }

  lemma WireEnd(n: Bytes)
    ensures Wire(n)[|n| + 1..] == Encoded([])
  {
  }

  lemma EncodedParts(w: Bytes, k: nat, next: nat, first: Bytes, rest: seq<Bytes>)
    requires k < next <= |w| && next == k + 1 + |first| && Encodable([first] + rest) && Encodable(rest)
    requires w[k] == |first| && w[k + 1..next] == first && w[next..] == Encoded(rest)
    ensures w[k..] == Encoded([first] + rest)
  {
    assert ([first] + rest)[1..] == rest;
    assert w[k..] == [w[k]] + w[k + 1..next] + w[next..];
  }

  lemma WireLabel(n: Bytes, k: nat)
    requires k <= |n| && (k == 0 || n[k - 1] == DOT)
    requires LabelEnd(n, k) - k < NAME_IS_OFFSET
    ensures var end := LabelEnd(n, k);
            Wire(n)[k] == end - k && Wire(n)[k + 1..end + 1] == n[k..end]
  {
  }

  lemma WirePart(n: Bytes, k: nat, next: nat, first: Bytes)
    requires k <= |n| && (k == 0 || n[k - 1] == DOT) && next == LabelEnd(n, k) + 1
    requires first == n[k..LabelEnd(n, k)] && |first| < NAME_IS_OFFSET
    ensures next == k + 1 + |first| <= |n| + 1 && Wire(n)[k] == |first| && Wire(n)[k + 1..next] == first
  {
    WireLabel(n, k);
  }

  lemma HostNameLabels(n: Bytes, labels: seq<Bytes>)
    requires IsHostName(n) && labels == LabelsOf(n, 0)
    ensures IsName(labels) && |labels| > 0 && Dotted(labels) == n
    ensures Encoded(labels) == Wire(n) && 0 < Wire(n)[0] < NAME_IS_OFFSET
  {
    var first, rest := LabelsStep(n, 0, labels);
    assert first in labels;
    DottedLabels(n, 0, labels);
    WireIsEncoded(n, 0, labels);
    WireLabel(n, 0);
    assert Wire(n)[0..] == Wire(n) && n[0..] == n;
  }

  lemma NameInQuestion(n: Bytes, identifier: Word16, hostType: Word16)
    ensures var message := Question(n, identifier, hostType);
            |message| == PayloadSize(n) && At(message[HEADER_SIZE..], 0, Wire(n)) && message[HEADER_SIZE] == Wire(n)[0]
  {
    assert Question(n, identifier, hostType)[HEADER_SIZE..] == Wire(n) + Tail(hostType);
  }

  /** The other fields (sections 4.1.1 and 4.1.2 of RFC 1035): recursion is desired, there is one
      question, of the type, in the class of the internet, and no records. */
  lemma QuestionFields(n: Bytes, identifier: Word16, hostType: Word16)
    ensures var q := Question(n, identifier, hostType);
            && |q| == 18 + |n|
            && 0x100 * (q[1] as int) + q[0] == identifier
            && 0x100 * (q[2] as int) + q[3] == 0x0100
            && 0x100 * (q[4] as int) + q[5] == 1 && (forall j :: 6 <= j < 12 ==> q[j] == 0)
            && 0x100 * (q[|q| - 4] as int) + q[|q| - 3] == hostType
            && 0x100 * (q[|q| - 2] as int) + q[|q| - 1] == 1
  {
    PartsWord(identifier);
    PartsWord(hostType);
    var q := Question(n, identifier, hostType);
    assert q == Header(identifier) + (Wire(n) + Tail(hostType));
    assert q[..12] == Header(identifier) && q[|q| - 4..] == Tail(hostType);
    assert q[..12][0] == q[0] && q[..12][1] == q[1] && q[|q| - 4..][0] == q[|q| - 4] && q[|q| - 4..][1] == q[|q| - 3];
  }

  /** Every walker recovers the host name, or its encoded length, from the question, and the
      question fills the requested buffer. */
  lemma QuestionRoundTrip(n: Bytes, identifier: Word16, hostType: Word16, size: nat)
    requires IsHostName(n)
    ensures var message := Question(n, identifier, hostType);
            && |message| == PayloadSize(n)
            && var name := message[HEADER_SIZE..];
               && Decoded(message, name, size) == (if Fits(LabelsOf(n, 0), size) then Some(n) else None)
               && FieldText(name, size) == (if |n| < size then Some((n, |n| + 2)) else None)
               && NameEnd(name, 0) == Some(|n| + 2) && 0 < name[0] < NAME_IS_OFFSET
  {
    var labels, message := LabelsOf(n, 0), Question(n, identifier, hostType);
    HostNameLabels(n, labels);
    NameInQuestion(n, identifier, hostType);
    WalkEncoded(message, message[HEADER_SIZE..], 0, MAX_HOPS, labels);
  }

  // ---------------------------------------------------------------------------
  // prvCreateDNSMessage
  // ---------------------------------------------------------------------------

  /** `strcpy` of the host name behind the gap for its first length. */
  method CopyName(buffer: array<Byte>, at: nat, n: HostName)
    requires at + |n| + 1 <= buffer.Length
    modifies buffer
    ensures forall j :: at <= j < at + |n| ==> buffer[j] == n[j - at]
    ensures buffer[at + |n|] == 0
    ensures forall j :: 0 <= j < at || at + |n| + 1 <= j < buffer.Length ==> buffer[j] == old(buffer[j])
  {
    for k := 0 to |n|
      invariant forall j :: at <= j < at + k ==> buffer[j] == n[j - at]
      invariant forall j :: 0 <= j < at || at + k <= j < buffer.Length ==> buffer[j] == old(buffer[j])
    {
      buffer[at + k] := n[k];
    }
    buffer[at + |n|] := 0;
  }

  /** What is in the buffer when the lengths in front of `start` have been filled in. */
  ghost predicate Filled(buffer: array<Byte>, base: nat, n: HostName, start: nat)
    requires base + |n| + 2 <= buffer.Length
    reads buffer
  {
    && (forall j :: base <= j < base + start && j <= base + |n| + 1 ==> buffer[j] == WireAt(n, j - base))
    && (forall j :: base + start < j <= base + |n| ==> buffer[j] == n[j - base - 1])
    && buffer[base + |n| + 1] == 0
  }

  /** The inner loop: the end of the label whose length byte is at `start`. */
  method FindLabelEnd(buffer: array<Byte>, base: nat, n: HostName, start: nat) returns (index: nat)
    requires base + |n| + 2 <= buffer.Length && start <= |n| && Filled(buffer, base, n, start)
    ensures index == base + 1 + LabelEnd(n, start)
    ensures buffer[index] != 0 ==> index < base + 1 + |n| && n[index - base - 1] == DOT
    ensures buffer[index] == 0 ==> index == base + 1 + |n|
  {
    index := base + start + 1;
    while buffer[index] != 0 && buffer[index] != DOT
      invariant base + start + 1 <= index <= base + |n| + 1
      invariant LabelEnd(n, index - base - 1) == LabelEnd(n, start)
      decreases base + |n| + 1 - index
    {
      index := index + 1;
    }
  }

  /** Fills in one length, and moves on to the dot or the terminator behind the label. */
  method FillLength(buffer: array<Byte>, base: nat, n: HostName, start: nat) returns (index: nat)
    requires base + |n| + 2 <= buffer.Length && Filled(buffer, base, n, start)
    requires start <= |n| && (start == 0 || n[start - 1] == DOT)
    modifies buffer
    ensures index == base + 1 + LabelEnd(n, start) && Filled(buffer, base, n, index - base)
    ensures buffer[index] != 0 ==> index < base + 1 + |n| && n[index - base - 1] == DOT
    ensures buffer[index] == 0 ==> index == base + 1 + |n|
    ensures forall j :: 0 <= j < base || base + |n| + 2 <= j < buffer.Length ==> buffer[j] == old(buffer[j])
  {
    index := FindLabelEnd(buffer, base, n, start);
    var length := index - (base + start + 1);
    buffer[base + start] := length % 0x100;
  }

  /** Walks through the copied name and replaces the dots by lengths. */
  method FillLengths(buffer: array<Byte>, base: nat, n: HostName) returns (index: nat)
    requires base + |n| + 2 <= buffer.Length && Filled(buffer, base, n, 0)
    modifies buffer
    ensures index == base + |n| + 1
    ensures forall j :: base <= j < base + |n| + 2 ==> buffer[j] == WireAt(n, j - base)
    ensures forall j :: 0 <= j < base || base + |n| + 2 <= j < buffer.Length ==> buffer[j] == old(buffer[j])
  {
    var start := base;
    while true
      invariant base <= start <= base + |n| && (start == base || n[start - base - 1] == DOT)
      invariant Filled(buffer, base, n, start - base)
      invariant forall j :: 0 <= j < base || base + |n| + 2 <= j < buffer.Length ==> buffer[j] == old(buffer[j])
      decreases base + |n| - start
    {
      index := FillLength(buffer, base, n, start - base);
      start := index;
      if buffer[index] == 0 {
        return;
      }
    }
  }

  method WriteHeader(buffer: array<Byte>, identifier: nat)
    requires HEADER_SIZE <= buffer.Length
    modifies buffer
    ensures buffer[..HEADER_SIZE] == Header(Wrap16(identifier))
    ensures forall j :: HEADER_SIZE <= j < buffer.Length ==> buffer[j] == old(buffer[j])
  {
    forall j | 0 <= j < HEADER_SIZE {
      buffer[j] := 0;
    }
    buffer[2] := 1;
    buffer[5] := 1;
    buffer[0] := LowByte(Wrap16(identifier));
    buffer[1] := HighByte(Wrap16(identifier));
  }

  method WriteTail(buffer: array<Byte>, at: nat, hostType: Word16)
    requires at + TAIL_SIZE <= buffer.Length
    modifies buffer
    ensures buffer[at..at + TAIL_SIZE] == Tail(hostType)
    ensures forall j :: 0 <= j < at || at + TAIL_SIZE <= j < buffer.Length ==> buffer[j] == old(buffer[j])
  {
    buffer[at], buffer[at + 1] := HighByte(hostType), LowByte(hostType);
    buffer[at + 2], buffer[at + 3] := 0, 1;
  }

  /** `prvCreateDNSMessage`, for every host name. */
  method CreateDnsMessage(buffer: array<Byte>, n: HostName, identifier: nat, hostType: Word16) returns (size: nat)
    requires buffer.Length >= PayloadSize(n)
    modifies buffer
    ensures size == PayloadSize(n)
    ensures buffer[..size] == Question(n, Wrap16(identifier), hostType)
    ensures forall j :: size <= j < buffer.Length ==> buffer[j] == old(buffer[j])
  {
    WriteHeader(buffer, identifier);
    ghost var header := buffer[..HEADER_SIZE];
    CopyName(buffer, HEADER_SIZE + 1, n);
    var index := FillLengths(buffer, HEADER_SIZE, n);
    WriteTail(buffer, index + 1, hostType);
    size := index + TAIL_SIZE + 1;
    assert buffer[..HEADER_SIZE] == header;
    assert buffer[HEADER_SIZE..index + 1] == Wire(n);
    Assembled(buffer[..], HEADER_SIZE, index + 1, size);
  }

  lemma Assembled(b: Bytes, i: nat, j: nat, k: nat)
    requires i <= j <= k <= |b|
    ensures b[..k] == b[..i] + b[i..j] + b[j..k]
  {
  }
}
