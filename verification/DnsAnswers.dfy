/**
  * The answer section of a DNS reply: `parseDNSAnswer` walks over the records, follows the
  * aliases (CNAME records) of the queried name and collects the addresses of their end.
  */
module DnsAnswers {
  import opened Words
  import opened DnsNames

  /** `ipconfigDNS_CACHE_NAME_LENGTH`. */
  const NAME_LENGTH := 254
  /** `sizeof( DNSAnswerRecord_t )`: type, class, time to live and data length. */
  const RECORD_SIZE := 10
  const TYPE_A := 1
  const TYPE_CNAME := 5
  const TYPE_AAAA := 28

  // ---------------------------------------------------------------------------
  // C strings.
  // ---------------------------------------------------------------------------

  /** The bytes in front of the first NUL. */
  function CText(b: Bytes): (t: Bytes)
    ensures 0 !in t
  {
    if |b| == 0 || b[0] == 0 then [] else [b[0]] + CText(b[1..])
  }

  function Fold(b: Byte): Byte {
    if 65 <= b <= 90 then b + 32 else b
  }

  /** `strcasecmp( a, b ) == 0`. */
  predicate SameName(a: Bytes, b: Bytes) {
    |a| == |b| && forall k :: 0 <= k < |a| ==> Fold(a[k]) == Fold(b[k])
  }

  lemma {:induction false} CTextOfBuffer(buffer: Bytes, text: Bytes)
    requires Terminated(buffer, text)
    ensures CText(buffer) == CText(text)
    decreases |text|
  {
    if |text| > 0 {
      assert buffer[0] == buffer[..|text|][0] == text[0];
      if text[0] != 0 {
        assert buffer[1..][..|text| - 1] == buffer[..|text|][1..] == text[1..];
        CTextOfBuffer(buffer[1..], text[1..]);
      }
    }
  }

  // ---------------------------------------------------------------------------
  // Records and the chain of aliases.
  // ---------------------------------------------------------------------------

  /** A record: its owner's name, where its fixed part starts, and the name that its data
      holds when it is an alias. */
  datatype Record = Record(start: nat, owner: Option<Bytes>, header: nat, target: Option<Bytes>)

  /** The record at `start`, when its owner's name can be skipped and its type is there. */
  function RecordAt(message: Bytes, start: nat): (r: Option<Record>)
    requires start <= |message|
    ensures r.Some? ==> start < r.value.header && r.value.header + 2 <= |message|
  {
    var field := message[start..];
    var end := NameEnd(field, 0);
    if end.None? || field[0] == 0 then None
    else
      var header := start + end.value;
      if header + 2 > |message| then None
      else Some(Record(start, Decoded(message, field, NAME_LENGTH), header,
                       if header + RECORD_SIZE <= |message|
                       then Decoded(message, message[header + RECORD_SIZE..], NAME_LENGTH) else None))
  }

  ghost predicate IsRecord(message: Bytes, r: Record) {
    r.start <= |message| && RecordAt(message, r.start) == Some(r)
  }

  function TypeOf(message: Bytes, r: Record): Word16
    requires r.header + 2 <= |message|
  {
    BE16(message[r.header], message[r.header + 1])
  }

  function DataLength(message: Bytes, r: Record): Word16
    requires r.header + RECORD_SIZE <= |message|
  {
    BE16(message[r.header + 8], message[r.header + 9])
  }

  function AddressSize(recordType: Word16): nat {
    if recordType == TYPE_AAAA then 16 else if recordType == TYPE_A then 4 else 0
  }

  predicate IsZero(b: Bytes) {
    forall k :: 0 <= k < |b| ==> b[k] == 0
  }

  /** An address record that is complete; 0.0.0.0 is not an address. */
  predicate HasAddress(message: Bytes, r: Record)
    requires r.header + 2 <= |message|
  {
    var size := AddressSize(TypeOf(message, r));
    && size > 0 && r.header + RECORD_SIZE + size <= |message|
    && (size == 4 ==> !IsZero(message[r.header + RECORD_SIZE..r.header + RECORD_SIZE + size]))
  }

  /** The record is owned by `name`, ignoring case. */
  predicate OwnedBy(r: Record, name: Bytes) {
    r.owner.Some? && SameName(CText(r.owner.value), name)
  }

  /** The name at the end of the chain that starts at `query` and follows the records in
      order. An alias whose target cannot be decoded leads to the empty name. */
  function ChainEnd(message: Bytes, query: Bytes, records: seq<Record>): Bytes
    requires forall r :: r in records ==> r.header + 2 <= |message|
  {
    if |records| == 0 then query
    else
      var last := |records| - 1;
      var name := ChainEnd(message, query, records[..last]);
      if IsAlias(message, records[last]) && OwnedBy(records[last], name)
      then TargetOf(records[last]) else name
  }

  /** A complete CNAME record. */
  predicate IsAlias(message: Bytes, r: Record)
    requires r.header + 2 <= |message|
  {
    TypeOf(message, r) == TYPE_CNAME && r.header + RECORD_SIZE <= |message|
  }

  function TargetOf(r: Record): Bytes {
    if r.target.Some? then CText(r.target.value) else []
  }

  /** A record is used when it holds an address of the name at the end of the chain. */
  predicate Used(message: Bytes, query: Bytes, before: seq<Record>, r: Record)
    requires r.header + 2 <= |message| && forall q :: q in before ==> q.header + 2 <= |message|
  {
    OwnedBy(r, ChainEnd(message, query, before)) && HasAddress(message, r)
  }

  /** Where the next record starts. The data length of a record that is used is ignored. */
  function Following(message: Bytes, query: Bytes, before: seq<Record>, r: Record): nat
    requires r.header + RECORD_SIZE <= |message| && forall q :: q in before ==> q.header + 2 <= |message|
  {
    r.header + RECORD_SIZE
    + if Used(message, query, before, r) then AddressSize(TypeOf(message, r)) else DataLength(message, r)
  }

  /** `records` are the complete records from `start` to `pos`. */
  ghost predicate Walked(message: Bytes, query: Bytes, start: nat, records: seq<Record>, pos: nat) {
    && pos <= |message|
    && (forall r :: r in records ==> r.header + 2 <= |message|)
    && if |records| == 0 then pos == start
       else
         var last := |records| - 1;
         && IsRecord(message, records[last]) && records[last].header + RECORD_SIZE <= |message|
         && Walked(message, query, start, records[..last], records[last].start)
         && pos == Following(message, query, records[..last], records[last])
  }

  /** An address handed to the cache and to the caller. */
  datatype Answer = Answer(record: nat, address: Bytes, ttl: Bytes)

  function AnswerOf(message: Bytes, k: nat, r: Record): Answer
    requires r.header + 2 <= |message| && HasAddress(message, r)
  {
    var data := r.header + RECORD_SIZE;
    Answer(k, message[data..data + AddressSize(TypeOf(message, r))], message[r.header + 4..r.header + 8])
  }

  /** The record gives an answer: it is used and its data length is that of the address. */
  predicate Answers(message: Bytes, query: Bytes, before: seq<Record>, r: Record)
    requires r.header + 2 <= |message| && forall q :: q in before ==> q.header + 2 <= |message|
  {
    Used(message, query, before, r) && DataLength(message, r) == AddressSize(TypeOf(message, r))
  }

  function AnswersOf(message: Bytes, query: Bytes, records: seq<Record>): seq<Answer>
    requires forall r :: r in records ==> r.header + 2 <= |message|
  {
    if |records| == 0 then []
    else
      var last := |records| - 1;
      AnswersOf(message, query, records[..last])
      + if Answers(message, query, records[..last], records[last])
        then [AnswerOf(message, last, records[last])] else []
  }

  predicate GivesAnswer(message: Bytes, query: Bytes, records: seq<Record>, a: Answer)
    requires forall r :: r in records ==> r.header + 2 <= |message|
  {
    && a.record < |records|
    && Answers(message, query, records[..a.record], records[a.record])
    && a == AnswerOf(message, a.record, records[a.record])
  }

  lemma GivesAnswerStep(message: Bytes, query: Bytes, records: seq<Record>, last: nat, a: Answer)
    requires |records| == last + 1 && forall r :: r in records ==> r.header + 2 <= |message|
    ensures GivesAnswer(message, query, records, a) <==>
            || GivesAnswer(message, query, records[..last], a)
            || (Answers(message, query, records[..last], records[last])
                && a == AnswerOf(message, last, records[last]))
  {
    if a.record < last {
      assert records[..last][..a.record] == records[..a.record];
    }
  }

  /** The addresses are exactly those of the records that are owned by the end of the chain
      of the records in front of them. */
  lemma {:induction false} AnswersAreOwned(message: Bytes, query: Bytes, records: seq<Record>, a: Answer)
    requires forall r :: r in records ==> r.header + 2 <= |message|
    ensures a in AnswersOf(message, query, records) <==> GivesAnswer(message, query, records, a)
    decreases |records|
  {
    if |records| > 0 {
      var last := |records| - 1;
      AnswersAreOwned(message, query, records[..last], a);
      GivesAnswerStep(message, query, records, last, a);
    }
  }

  /** The bytes of the owners' names, which is what the code counts as bytes read. */
  function OwnerBytes(records: seq<Record>): nat {
    if |records| == 0 then 0
    else OwnerBytes(records[..|records| - 1]) + NameSize(records[|records| - 1])
  }

  function NameSize(r: Record): nat {
    if r.header >= r.start then r.header - r.start else 0
  }

  /** The bytes of the name at `pos`, if it can be skipped. */
  function NameBytesAt(message: Bytes, pos: nat): nat
    requires pos <= |message|
  {
    var end := NameEnd(message[pos..], 0);
    if end.None? || message[pos] == 0 then 0 else end.value
  }

  // ---------------------------------------------------------------------------
  // An alias whose target cannot be decoded.
  // ---------------------------------------------------------------------------

  /** The owner's text starts with a NUL, which makes it an empty C string. */
  predicate EmptyOwner(r: Record) {
    r.owner.Some? && CText(r.owner.value) == []
  }

  lemma NonEmptyNotOwned(r: Record)
    ensures OwnedBy(r, []) <==> EmptyOwner(r)
  {
  }

  lemma {:induction false} EmptyChainEnd(message: Bytes, query: Bytes, records: seq<Record>, k: nat)
    requires forall r :: r in records ==> r.header + 2 <= |message|
    requires k <= |records| && ChainEnd(message, query, records[..k]) == []
    requires forall j :: k <= j < |records| ==> !EmptyOwner(records[j])
    ensures ChainEnd(message, query, records) == []
    decreases |records|
  {
    if k == |records| {
      assert records[..k] == records;
    } else {
      var last := |records| - 1;
      assert records[..last][..k] == records[..k];
      EmptyChainEnd(message, query, records[..last], k);
    }
  }

  /** Behind an alias with an undecodable target all records are rejected if and only if no
      later owner decodes to a text that starts with a NUL. */
  lemma UndecodableTargetBlocks(message: Bytes, query: Bytes, records: seq<Record>, k: nat)
    requires forall r :: r in records ==> r.header + 2 <= |message|
    requires k < |records| && IsAlias(message, records[k]) && records[k].target.None?
    requires OwnedBy(records[k], ChainEnd(message, query, records[..k]))
    ensures (forall j :: k < j < |records| ==> !OwnedBy(records[j], ChainEnd(message, query, records[..j])))
       <==> (forall j :: k < j < |records| ==> !EmptyOwner(records[j]))
  {
    assert records[..k + 1][..k] == records[..k];
    forall j | k < j < |records| && (forall i :: k < i < j ==> !EmptyOwner(records[i]))
      ensures ChainEnd(message, query, records[..j]) == []
    {
      assert records[..j][..k + 1] == records[..k + 1];
      EmptyChainEnd(message, query, records[..j], k + 1);
    }
    if j :| k < j < |records| && EmptyOwner(records[j]) {
      var first := FirstEmptyOwner(records, k + 1, j);
      NonEmptyNotOwned(records[first]);
    } else {
      forall j | k < j < |records|
        ensures !OwnedBy(records[j], ChainEnd(message, query, records[..j]))
      {
        NonEmptyNotOwned(records[j]);
      }
    }
  }

  lemma {:induction false} FirstEmptyOwner(records: seq<Record>, i: nat, j: nat) returns (first: nat)
    requires i <= j < |records| && EmptyOwner(records[j])
    ensures i <= first <= j && EmptyOwner(records[first])
    ensures forall m :: i <= m < first ==> !EmptyOwner(records[m])
    decreases j - i
  {
    if EmptyOwner(records[i]) {
      first := i;
    } else {
      first := FirstEmptyOwner(records, i + 1, j);
    }
  }

  /** A name of one label of one byte, whatever follows. */
  lemma OneByteName(message: Bytes, field: Bytes, b: Byte)
    requires |field| >= 3 && field[0] == 1 && field[1] == b && field[2] == 0
    ensures Decoded(message, field, NAME_LENGTH) == Some([b]) && NameEnd(field, 0) == Some(3)
  {
    var labels: seq<Bytes> := [[b]];
    assert labels[1..] == [];
    assert Encoded(labels) == LabelThen([b], Encoded([])) == [1, b, 0];
    assert field[0..3] == [1, b, 0];
    WalkEncoded(message, field, 0, MAX_HOPS, labels);
  }

  lemma NoLabelName(message: Bytes, field: Bytes)
    requires |field| >= 1 && field[0] == 0
    ensures Decoded(message, field, NAME_LENGTH) == None
  {
  }

  /** A reply to a question about "a": header, question, and two answers, which are an alias with
      an empty target and an address record whose owner is a label of one NUL byte. */
  const SPOOFED: Bytes :=
    [0, 1, 0x80, 0, 0, 1, 0, 2, 0, 0, 0, 0] + [1, 97, 0, 0, 1, 0, 1]
      + [1, 97, 0, 0, 5, 0, 1, 0, 0, 0, 0, 0, 1, 0]
      + [1, 0, 0, 0, 1, 0, 1, 0, 0, 0, 9, 0, 4, 1, 2, 3, 4]

  ghost predicate IsSpoofed(m: Bytes) {
    && |m| == 50
    && m[19] == 1 && m[20] == 97 && m[21] == 0 && m[22] == 0 && m[23] == 5 && m[30] == 0 && m[31] == 1 && m[32] == 0
    && m[33] == 1 && m[34] == 0 && m[35] == 0 && m[36] == 0 && m[37] == 1 && m[44] == 0 && m[45] == 4
    && m[40] == 0 && m[41] == 0 && m[42] == 0 && m[43] == 9
    && m[46] == 1 && m[47] == 2 && m[48] == 3 && m[49] == 4
  }

  lemma SpoofedBytes()
    ensures IsSpoofed(SPOOFED) && SPOOFED[12..19] == [1, 97, 0, 0, 1, 0, 1]
  {
  }

  lemma SpoofedAlias(m: Bytes) returns (r: Record)
    requires IsSpoofed(m)
    ensures IsRecord(m, r) && r == Record(19, Some([97]), 22, None)
    ensures TypeOf(m, r) == TYPE_CNAME && DataLength(m, r) == 1
  {
    r := Record(19, Some([97]), 22, None);
    var field := m[19..];
    OneByteName(m, field, 97);
    NoLabelName(m, m[32..]);
  }

  lemma SpoofedAddress(m: Bytes) returns (r: Record)
    requires IsSpoofed(m)
    ensures IsRecord(m, r) && r.start == 33 && r.owner == Some([0]) && r.header == 36
    ensures TypeOf(m, r) == TYPE_A && DataLength(m, r) == 4 && HasAddress(m, r)
    ensures AnswerOf(m, 1, r) == Answer(1, [1, 2, 3, 4], [0, 0, 0, 9])
  {
    var field := m[33..];
    OneByteName(m, field, 0);
    r := RecordAt(m, 33).value;
    assert m[40..44] == [0, 0, 0, 9] && m[46..50] == [1, 2, 3, 4];
  }

  /** An alias of the queried name alone. */
  lemma FirstIsAlias(m: Bytes, query: Bytes, r: Record, next: nat)
    requires IsRecord(m, r) && IsAlias(m, r) && OwnedBy(r, query)
    requires next == r.header + RECORD_SIZE + DataLength(m, r) <= |m|
    ensures Walked(m, query, r.start, [r], next)
    ensures ChainEnd(m, query, [r]) == TargetOf(r) && AnswersOf(m, query, [r]) == []
  {
    assert !HasAddress(m, r);
    var nothing: seq<Record> := [];
    assert nothing + [r] == [r];
    HandledNext(m, query, r.start, nothing, r, next);
  }

  /** An address of the alias target behind it. */
  lemma SecondIsUsed(m: Bytes, query: Bytes, first: Record, r: Record, next: nat)
    requires Walked(m, query, first.start, [first], r.start) && AnswersOf(m, query, [first]) == []
    requires IsRecord(m, r) && OwnedBy(r, ChainEnd(m, query, [first])) && HasAddress(m, r)
    requires DataLength(m, r) == AddressSize(TypeOf(m, r)) && next == r.header + RECORD_SIZE + DataLength(m, r)
    ensures Walked(m, query, first.start, [first, r], next)
    ensures AnswersOf(m, query, [first, r]) == [AnswerOf(m, 1, r)]
  {
    assert [first] + [r] == [first, r];
    HandledNext(m, query, first.start, [first], r, next);
  }

  lemma SpoofedRecords(m: Bytes) returns (alias: Record, address: Record)
    requires IsSpoofed(m)
    ensures Walked(m, [97], 19, [alias, address], 50)
    ensures IsAlias(m, alias) && alias.target == None && OwnedBy(alias, [97])
    ensures AnswersOf(m, [97], [alias, address]) == [Answer(1, [1, 2, 3, 4], [0, 0, 0, 9])]
  {
    assert CText([97]) == [97] && CText([0]) == [];
    alias := SpoofedAlias(m);
    address := SpoofedAddress(m);
    FirstIsAlias(m, [97], alias, 33);
    SecondIsUsed(m, [97], alias, address, 50);
  }

  /** In the reply `SPOOFED` to a question about "a" the target of the alias cannot be decoded,
      and the address behind it is accepted all the same. */
  lemma UndecodableTargetDoesNotBlock() returns (alias: Record, address: Record)
    ensures |SPOOFED| == 50 && SPOOFED[12..19] == [1, 97, 0, 0, 1, 0, 1]
    ensures Walked(SPOOFED, [97], 19, [alias, address], 50)
    ensures IsAlias(SPOOFED, alias) && alias.target == None && OwnedBy(alias, [97])
    ensures AnswersOf(SPOOFED, [97], [alias, address]) == [Answer(1, [1, 2, 3, 4], [0, 0, 0, 9])]
  {
    SpoofedBytes();
    alias, address := SpoofedRecords(SPOOFED);
  }

  // ---------------------------------------------------------------------------
  // parseDNSAnswer
  // ---------------------------------------------------------------------------

  datatype Outcome = Next | Malformed | Stop

  /** What happens to the record at `pos`, behind the records `before`. */
  function OutcomeAt(message: Bytes, query: Bytes, before: seq<Record>, pos: nat): Outcome
    requires pos <= |message| && forall q :: q in before ==> q.header + 2 <= |message|
  {
    var r := RecordAt(message, pos);
    if r.None? then Malformed
    else if r.value.header + RECORD_SIZE > |message| then Stop
    else if Following(message, query, before, r.value) > |message| then Malformed
    else Next
  }

  /** The value of the four bytes on a little-endian host. */
  function HostWord(b: Bytes): (w: Word32)
    requires |b| == 4
    ensures w == 0 <==> IsZero(b)
  {
    b[0] + 0x100 * (b[1] as int) + 0x1_0000 * (b[2] as int) + 0x100_0000 * (b[3] as int)
  }

  /** What the caller gets for an answer: IPv6 addresses are reported as 1. */
  function ValueOf(a: Answer): Word32 {
    if |a.address| == 4 then HostWord(a.address) else 1
  }

  function FirstValue(answers: seq<Answer>): Word32 {
    if |answers| == 0 then 0 else ValueOf(answers[0])
  }

  /** At most one answer has been added, and `ipAddress` is its value. */
  ghost predicate NewAddress(before: seq<Answer>, after: seq<Answer>, ipAddress: Word32) {
    || after == before
    || (|after| == |before| + 1 && after[..|before|] == before
        && ipAddress == ValueOf(after[|before|]) && ipAddress != 0)
  }

  lemma FirstNewAddress(before: seq<Answer>, after: seq<Answer>, ipAddress: Word32, result: Word32)
    requires NewAddress(before, after, ipAddress)
    requires result == FirstValue(before) && (result == 0 <==> before == [])
    ensures var first := if |after| > |before| && result == 0 then ipAddress else result;
            first == FirstValue(after) && (first == 0 <==> after == [])
  {
    assert |before| > 0 ==> after[0] == after[..|before|][0];
  }

  /** The fields of `ParseSet_t` that are used here, and `pcExpectedName`. */
  class ParseSet {
    const message: Bytes
    const doStore: bool
    const expected: array<Byte>
    var pos: nat
    var remaining: nat
    const readBefore: nat
    var bytesRead: nat
    var stored: nat
    var ipAddress: Word32
    var answers: seq<Answer>

    constructor (payload: Bytes, start: nat, store: bool, alreadyRead: nat)
      requires start <= |payload|
      ensures readBefore == alreadyRead == bytesRead
      ensures message == payload && doStore == store && pos == start && remaining == |payload| - start
      ensures fresh(expected) && expected.Length == NAME_LENGTH && stored == 0 && answers == []
    {
      message, doStore, pos, remaining := payload, store, start, |payload| - start;
      readBefore, bytesRead, stored, ipAddress, answers := alreadyRead, alreadyRead, 0, 0, [];
      expected := new Byte[NAME_LENGTH];
    }

    /** The cursor and the number of bytes behind it always add up to the message. */
    ghost predicate Valid()
      reads this`pos, this`remaining
    {
      pos + remaining == |message| && expected.Length == NAME_LENGTH
    }

    /** `records` have been handled, and the expected name is the end of their chain. */
    ghost predicate Handled(query: Bytes, start: nat, records: seq<Record>)
      reads this`pos, this`remaining, this`answers, this`stored, this`bytesRead, expected
    {
      && bytesRead == readBefore + OwnerBytes(records)
      && Valid() && Walked(message, query, start, records, pos)
      && CText(expected[..]) == ChainEnd(message, query, records)
      && answers == AnswersOf(message, query, records)
      && stored == if doStore then |answers| else 0
    }

    method Advance(count: nat)
      requires Valid() && count <= remaining
      modifies this`pos, this`remaining
      ensures Valid() && pos == old(pos) + count
    {
      pos := pos + count;
      remaining := remaining - count;
    }

    /** Decodes the name at the cursor and compares it with the expected name. */
    method NameMatches() returns (matches: bool)
      requires Valid()
      ensures var owner := Decoded(message, message[pos..], NAME_LENGTH);
              matches == (owner.Some? && SameName(CText(owner.value), CText(expected[..])))
    {
      var decoded := new Byte[NAME_LENGTH];
      var ok := DecodeName(message, message[pos..], decoded);
      if ok {
        CTextOfBuffer(decoded[..], Decoded(message, message[pos..], NAME_LENGTH).value);
      }
      matches := ok && SameName(CText(decoded[..]), CText(expected[..]));
    }

    /** Reads the owner's name and moves the cursor behind it. */
    method ReadOwner() returns (ok: bool, matches: bool)
      requires Valid()
      modifies this`pos, this`remaining, this`bytesRead
      ensures bytesRead == old(bytesRead) + NameBytesAt(message, old(pos))
      ensures Valid() && (ok <==> RecordAt(message, old(pos)).Some?)
      ensures ok ==> var r := RecordAt(message, old(pos)).value;
                     pos == r.header && matches == OwnedBy(r, CText(expected[..]))
    {
      ok, matches := false, false;
      var length := SkipNameField(message[pos..]);
      if length != 0 {
        matches := NameMatches();
      }
      if length != 0 {
        bytesRead := bytesRead + length;
        Advance(length);
        ok := remaining >= 2;
      }
    }

    /** Is this a complete address record? */
    method SeesAddress(ghost r: Record) returns (accept: bool, size: nat)
      requires Valid() && pos == r.header && r.header + 2 <= |message|
      ensures accept == HasAddress(message, r) && size == AddressSize(TypeOf(message, r))
    {
      accept := false;
      var recordType := BE16(message[pos], message[pos + 1]);
      size := 0;
      if recordType == TYPE_AAAA {
        size := 16;
        accept := remaining >= RECORD_SIZE + size;
      } else if recordType == TYPE_A {
        size := 4;
        if remaining >= RECORD_SIZE + size {
          accept := HostWord(message[pos + RECORD_SIZE..pos + RECORD_SIZE + size]) != 0;
        }
      }
    }

    /** Stores the address when the data length is right; moves on by the address size. */
    method TakeAddress(k: nat, ghost r: Record, size: nat)
      requires Valid() && pos == r.header && r.header + 2 <= |message| && HasAddress(message, r)
      requires size == AddressSize(TypeOf(message, r))
      modifies this`pos, this`remaining, this`answers, this`stored, this`ipAddress
      ensures Valid() && pos == r.header + RECORD_SIZE + size
      ensures answers == old(answers) + if DataLength(message, r) == size then [AnswerOf(message, k, r)] else []
      ensures stored == old(stored) + if doStore then |answers| - |old(answers)| else 0
      ensures NewAddress(old(answers), answers, ipAddress)
    {
      if BE16(message[pos + 8], message[pos + 9]) == size {
        var address := message[pos + RECORD_SIZE..pos + RECORD_SIZE + size];
        if size == 16 {
          ipAddress := 1;
        } else {
          ipAddress := HostWord(address);
        }
        answers := answers + [Answer(k, address, message[pos + 4..pos + 8])];
        if doStore {
          stored := stored + 1;
        }
      }
      Advance(RECORD_SIZE + size);
    }

    /** Skips a record; the target of an alias becomes the expected name. */
    method SkipRecord(ghost r: Record, matches: bool) returns (ok: bool)
      requires Valid() && pos == r.header && r.header + RECORD_SIZE <= |message| && IsRecord(message, r)
      modifies this`pos, this`remaining, expected
      ensures Valid()
      ensures ok <==> r.header + RECORD_SIZE + DataLength(message, r) <= |message|
      ensures ok ==> pos == r.header + RECORD_SIZE + DataLength(message, r)
      ensures CText(expected[..])
           == if matches && TypeOf(message, r) == TYPE_CNAME then TargetOf(r) else old(CText(expected[..]))
    {
      var recordType := BE16(message[pos], message[pos + 1]);
      var dataLength := BE16(message[pos + 8], message[pos + 9]);
      Advance(RECORD_SIZE);
      if matches && recordType == TYPE_CNAME {
        FollowAlias(r);
      }
      ok := remaining >= dataLength;
      if ok {
        Advance(dataLength);
      }
    }

    method FollowAlias(ghost r: Record)
      requires Valid() && pos == r.header + RECORD_SIZE && IsRecord(message, r)
      modifies expected
      ensures CText(expected[..]) == TargetOf(r)
    {
      var ok := DecodeName(message, message[pos..], expected);
      if ok {
        CTextOfBuffer(expected[..], r.target.value);
      }
    }

    /** `records` have been handled and the cursor is behind the owner's name of the next one. */
    ghost predicate AtRecord(query: Bytes, start: nat, records: seq<Record>, r: Record)
      reads this`pos, this`remaining, this`answers, this`stored, this`bytesRead, expected
    {
      && bytesRead == readBefore + OwnerBytes(records) + NameSize(r)
      && Valid() && IsRecord(message, r) && pos == r.header
      && Walked(message, query, start, records, r.start)
      && CText(expected[..]) == ChainEnd(message, query, records)
      && answers == AnswersOf(message, query, records)
      && stored == if doStore then |answers| else 0
    }

    method UseRecord(k: nat, size: nat, ghost query: Bytes, ghost start: nat,
                     ghost records: seq<Record>, ghost r: Record)
      requires AtRecord(query, start, records, r) && k == |records|
      requires Used(message, query, records, r) && size == AddressSize(TypeOf(message, r))
      modifies this`pos, this`remaining, this`answers, this`stored, this`ipAddress
      ensures Handled(query, start, records + [r])
      ensures NewAddress(old(answers), answers, ipAddress)
    {
      TakeAddress(k, r, size);
      HandledNext(message, query, start, records, r, pos);
    }

    method PassRecord(matches: bool, ghost query: Bytes, ghost start: nat, ghost records: seq<Record>, ghost r: Record)
      returns (ok: bool)
      requires AtRecord(query, start, records, r) && r.header + RECORD_SIZE <= |message|
      requires !Used(message, query, records, r) && matches == OwnedBy(r, ChainEnd(message, query, records))
      modifies this`pos, this`remaining, expected
      ensures Valid() && (ok <==> Following(message, query, records, r) <= |message|)
      ensures ok ==> Handled(query, start, records + [r])
    {
      ok := SkipRecord(r, matches);
      if ok {
        HandledNext(message, query, start, records, r, pos);
      }
    }

    /** One round of the loop: the record with number `k`. */
    method ParseRecord(k: nat, ghost query: Bytes, ghost start: nat, ghost records: seq<Record>)
      returns (outcome: Outcome, ghost r: Option<Record>)
      requires Handled(query, start, records) && k == |records|
      modifies this`pos, this`remaining, this`bytesRead, this`answers, this`stored, this`ipAddress, expected
      ensures !outcome.Next? ==> bytesRead == readBefore + OwnerBytes(records) + NameBytesAt(message, old(pos))
      ensures Valid() && outcome == OutcomeAt(message, query, records, old(pos))
      ensures outcome.Next? ==> r.Some? && Handled(query, start, records + [r.value])
      ensures !outcome.Next? ==> answers == old(answers) && stored == old(stored)
      ensures NewAddress(old(answers), answers, ipAddress)
    {
      r := RecordAt(message, pos);
      var ok, matches := ReadOwner();
      if !ok {
        return Malformed, r;
      }
      var accept, size := SeesAddress(r.value);
      if accept && matches {
        UseRecord(k, size, query, start, records, r.value);
        outcome := Next;
      } else if remaining >= RECORD_SIZE {
        ok := PassRecord(matches, query, start, records, r.value);
        outcome := if ok then Next else Malformed;
      } else {
        outcome := Stop;
      }
    }

    /** The loop over the records. `records` are the complete ones, up to `end`. */
    method ParseRecords(count: Word16, capacity: nat, ghost query: Bytes)
      returns (result: Word32, ghost records: seq<Record>, ghost end: nat)
      requires Handled(query, pos, []) && answers == []
      modifies this`pos, this`remaining, this`bytesRead, this`answers, this`stored, this`ipAddress, expected
      ensures Valid() && |records| <= count && Walked(message, query, old(pos), records, end)
      ensures bytesRead == readBefore + OwnerBytes(records)
              + if |records| == count || stored >= capacity then 0 else NameBytesAt(message, end)
      ensures answers == AnswersOf(message, query, records) && stored == if doStore then |answers| else 0
      ensures var outcome := if |records| == count || stored >= capacity then Stop
                             else OutcomeAt(message, query, records, end);
              && !outcome.Next?
              && result == if outcome.Malformed? then 0 else FirstValue(answers)
    {
      ghost var start := pos;
      records, result, end := [], 0, pos;
      var k := 0;
      while k < count && stored < capacity
        invariant k == |records| <= count && end == pos
        invariant Handled(query, start, records)
        invariant result == FirstValue(answers) && (result == 0 <==> answers == [])
      {
        var before := answers;
        var outcome;
        ghost var r;
        outcome, r := ParseRecord(k, query, start, records);
        if !outcome.Next? {
          result := if outcome.Malformed? then 0 else result;
          return;
        }
        FirstNewAddress(before, answers, ipAddress, result);
        records, end := records + [r.value], pos;
        if |answers| > |before| && result == 0 {
          result := ipAddress;
        }
        k := k + 1;
      }
    }

    /** `parseDNSAnswer` behind the header and the questions: `count` is the number of answers
        in the header, `capacity` is `ipconfigDNS_CACHE_ADDRESSES_PER_ENTRY`. */
    method ParseAnswers(count: Word16, capacity: nat, name: Bytes)
      returns (result: Word32, ghost records: seq<Record>, ghost end: nat)
      requires Valid() && stored == 0 && answers == [] && |name| == NAME_LENGTH
      requires bytesRead == readBefore
      modifies this`pos, this`remaining, this`bytesRead, this`answers, this`stored, this`ipAddress, expected
      ensures Valid() && |records| <= count
      ensures Walked(message, CText(name[..NAME_LENGTH - 1]), old(pos), records, end)
      ensures answers == AnswersOf(message, CText(name[..NAME_LENGTH - 1]), records)
      ensures stored == if doStore then |answers| else 0
      ensures bytesRead == readBefore + OwnerBytes(records)
              + if count > Wrap16(old(remaining) / (RECORD_SIZE + 1 + 2)) || |records| == count || stored >= capacity
                then 0 else NameBytesAt(message, end)
      ensures var rejected := count > Wrap16(old(remaining) / (RECORD_SIZE + 1 + 2));
              var outcome := if rejected then Malformed
                             else if |records| == count || stored >= capacity then Stop
                             else OutcomeAt(message, CText(name[..NAME_LENGTH - 1]), records, end);
              && !outcome.Next? && (rejected ==> records == [])
              && result == if outcome.Malformed? then 0 else FirstValue(answers)
    {
      records, result, end := [], 0, pos;
      if count <= Wrap16(remaining / (RECORD_SIZE + 1 + 2)) {
        SetExpected(name);
        result, records, end := ParseRecords(count, capacity, CText(name[..NAME_LENGTH - 1]));
      }
    }

    /** `strncpy` of the queried name, with a terminator. */
    method SetExpected(name: Bytes)
      requires |name| == NAME_LENGTH == expected.Length
      modifies expected
      ensures CText(expected[..]) == CText(name[..NAME_LENGTH - 1])
    {
      for k := 0 to NAME_LENGTH
        invariant forall j :: 0 <= j < k ==> expected[j] == name[j]
      {
        expected[k] := name[k];
      }
      expected[NAME_LENGTH - 1] := 0;
      assert expected[..] == name[..NAME_LENGTH - 1] + [0];
      CTextTerminated(name[..NAME_LENGTH - 1]);
    }
  }

  lemma {:induction false} CTextTerminated(b: Bytes)
    ensures CText(b + [0]) == CText(b)
    decreases |b|
  {
    if |b| > 0 {
      assert (b + [0])[1..] == b[1..] + [0];
      CTextTerminated(b[1..]);
    }
  }

  lemma HandledNext(message: Bytes, query: Bytes, start: nat, records: seq<Record>, r: Record, pos: nat)
    requires IsRecord(message, r) && r.header + RECORD_SIZE <= |message|
    requires Walked(message, query, start, records, r.start)
    requires pos == Following(message, query, records, r) <= |message|
    ensures Walked(message, query, start, records + [r], pos)
    ensures OwnerBytes(records + [r]) == OwnerBytes(records) + NameSize(r)
    ensures ChainEnd(message, query, records + [r])
         == var name := ChainEnd(message, query, records);
            if IsAlias(message, r) && OwnedBy(r, name) then TargetOf(r) else name
    ensures AnswersOf(message, query, records + [r])
         == AnswersOf(message, query, records)
            + if Answers(message, query, records, r) then [AnswerOf(message, |records|, r)] else []
  {
    assert (records + [r])[..|records|] == records;
  }
}
