/**
  * Which names a reply makes the parser expect, and which of its addresses are accepted, stated on
  * the bytes of the message.
  */
module AliasChain {
  import opened Words
  import opened DnsNames
  import opened DnsAnswers

  // ---------------------------------------------------------------------------
  // The reference.
  // ---------------------------------------------------------------------------

  /** The record is owned by a name that is the C string `name`, ignoring case. */
  predicate IsOwner(m: Bytes, r: Record, name: Bytes) {
    && r.start <= |m|
    && var owner := Decoded(m, m[r.start..], 254);
       owner.Some? && SameName(CText(owner.value), name)
  }

  /** A complete alias record (type 5) of `name`. */
  predicate IsAliasOf(m: Bytes, r: Record, name: Bytes) {
    && r.header + 10 <= |m| && m[r.header] == 0 && m[r.header + 1] == 5
    && IsOwner(m, r, name)
  }

  /** The name in the data of the record, which is empty when it cannot be decoded. */
  function NameInData(m: Bytes, r: Record): Bytes
    requires r.header + 10 <= |m|
  {
    var target := Decoded(m, m[r.header + 10..], 254);
    if target.Some? then CText(target.value) else []
  }

  /** A complete address record: IPv6 (type 28), or IPv4 (type 1) except 0.0.0.0. */
  predicate IsAddress(m: Bytes, r: Record) {
    && r.header + 10 <= |m| && m[r.header] == 0
    && if m[r.header + 1] == 28 then r.header + 26 <= |m|
       else
         && m[r.header + 1] == 1 && r.header + 14 <= |m|
         && !(m[r.header + 10] == 0 && m[r.header + 11] == 0 && m[r.header + 12] == 0 && m[r.header + 13] == 0)
  }

  function SizeOfAddress(m: Bytes, r: Record): nat
    requires IsAddress(m, r)
  {
    if m[r.header + 1] == 28 then 16 else 4
  }

  function LengthOfData(m: Bytes, r: Record): nat
    requires r.header + 10 <= |m|
  {
    0x100 * (m[r.header + 8] as int) + m[r.header + 9]
  }

  /** In front of record `n` the aliases `followed` lead from `query` over all `names`: record
      `followed[p]` is the first alias of `names[p]` behind the one before, its data hold
      `names[p + 1]`, and there is no alias of the last name. */
  ghost predicate Leads(m: Bytes, query: Bytes, records: seq<Record>, n: nat, followed: seq<nat>, names: seq<Bytes>)
    requires n <= |records|
  {
    && |names| == |followed| + 1 && names[0] == query
    && (forall p :: 0 <= p < |followed| ==> followed[p] < n && Leg(m, records[followed[p]], names[p], names[p + 1]))
    && (forall p, q :: 0 <= p < q < |followed| ==> followed[p] < followed[q])
    && (forall p, i :: 0 <= p < |names| && 0 <= i < n && Between(followed, p, i) ==>
                         !IsAliasOf(m, records[i], names[p]))
  }

  predicate Leg(m: Bytes, r: Record, name: Bytes, next: Bytes) {
    IsAliasOf(m, r, name) && next == NameInData(m, r)
  }

  /** Record `i` lies behind the first `p` aliases, and in front of the next one if there is one. */
  predicate Between(followed: seq<nat>, p: nat, i: nat) {
    p <= |followed| && (p > 0 ==> followed[p - 1] < i) && (p < |followed| ==> i < followed[p])
  }

  // ---------------------------------------------------------------------------
  // The chain.
  // ---------------------------------------------------------------------------

  ghost predicate AreRecords(m: Bytes, records: seq<Record>) {
    forall k :: 0 <= k < |records| ==> records[k].header + 2 <= |m| && IsRecord(m, records[k])
  }

  lemma RecordIs(m: Bytes, r: Record, name: Bytes)
    requires IsRecord(m, r) && r.header + 2 <= |m|
    ensures OwnedBy(r, name) <==> IsOwner(m, r, name)
    ensures IsAlias(m, r) && OwnedBy(r, name) <==> IsAliasOf(m, r, name)
    ensures IsAliasOf(m, r, name) ==> TargetOf(r) == NameInData(m, r)
    ensures HasAddress(m, r) <==> IsAddress(m, r)
    ensures IsAddress(m, r) ==> AddressSize(TypeOf(m, r)) == SizeOfAddress(m, r)
    ensures r.header + 10 <= |m| ==> DataLength(m, r) == LengthOfData(m, r)
  {
    TypeIs(m, r);
    if r.header + 14 <= |m| {
      ZeroIs(m, r);
    }
  }

  lemma TypeIs(m: Bytes, r: Record)
    requires r.header + 2 <= |m|
    ensures TypeOf(m, r) == 1 <==> m[r.header] == 0 && m[r.header + 1] == 1
    ensures TypeOf(m, r) == 5 <==> m[r.header] == 0 && m[r.header + 1] == 5
    ensures TypeOf(m, r) == 28 <==> m[r.header] == 0 && m[r.header + 1] == 28
  {
  }

  lemma ZeroIs(m: Bytes, r: Record)
    requires r.header + 14 <= |m|
    ensures IsZero(m[r.header + 10..r.header + 14])
       <==> m[r.header + 10] == 0 && m[r.header + 11] == 0 && m[r.header + 12] == 0 && m[r.header + 13] == 0
  {
    var b := m[r.header + 10..r.header + 14];
    assert b[0] == m[r.header + 10] && b[1] == m[r.header + 11] && b[2] == m[r.header + 12] && b[3] == m[r.header + 13];
  }

  /** One more record that is no alias of the last name. */
  lemma LeadsOn(m: Bytes, query: Bytes, records: seq<Record>, last: nat, followed: seq<nat>, names: seq<Bytes>)
    requires last < |records| && Leads(m, query, records, last, followed, names)
    requires !IsAliasOf(m, records[last], names[|followed|])
    ensures Leads(m, query, records, last + 1, followed, names)
  {
  }

  /** One record less, the last of the aliases. */
  lemma LeadsBefore(m: Bytes, query: Bytes, records: seq<Record>, last: nat, followed: seq<nat>, names: seq<Bytes>)
    returns (shorter: seq<nat>, less: seq<Bytes>)
    requires last < |records| && Leads(m, query, records, last + 1, followed, names)
    requires |followed| > 0 && followed[|followed| - 1] == last
    ensures Leads(m, query, records, last, shorter, less)
    ensures Leg(m, records[last], less[|shorter|], names[|followed|])
  {
    shorter, less := followed[..|followed| - 1], names[..|followed|];
    assert Leg(m, records[followed[|followed| - 1]], names[|followed| - 1], names[|followed|]);
    forall p, i | 0 <= p < |less| && 0 <= i < last && Between(shorter, p, i)
      ensures !IsAliasOf(m, records[i], less[p])
    {
      assert Between(followed, p, i);
    }
  }

  /** One record less, which is no alias of the last name. */
  lemma LeadsWithout(m: Bytes, query: Bytes, records: seq<Record>, last: nat, followed: seq<nat>, names: seq<Bytes>)
    requires last < |records| && Leads(m, query, records, last + 1, followed, names)
    requires |followed| > 0 ==> followed[|followed| - 1] != last
    ensures Leads(m, query, records, last, followed, names) && !IsAliasOf(m, records[last], names[|followed|])
  {
    if |followed| > 0 {
      assert Leg(m, records[followed[|followed| - 1]], names[|followed| - 1], names[|followed|]);
      forall p | 0 <= p < |followed|
        ensures followed[p] < last
      {
        assert followed[p] <= followed[|followed| - 1];
      }
    }
    assert Between(followed, |followed|, last);
  }

  lemma ChainEndNext(m: Bytes, query: Bytes, records: seq<Record>, last: nat, name: Bytes)
    requires AreRecords(m, records) && last < |records| && name == ChainEnd(m, query, records[..last])
    ensures ChainEnd(m, query, records[..last + 1])
         == if IsAliasOf(m, records[last], name) then NameInData(m, records[last]) else name
  {
    assert records[..last + 1][..last] == records[..last];
    RecordIs(m, records[last], name);
  }

  /** The last name is the one that is expected. */
  lemma {:induction false} LeadsToEnd(m: Bytes, query: Bytes, records: seq<Record>, n: nat, followed: seq<nat>,
                                      names: seq<Bytes>)
    requires AreRecords(m, records) && n <= |records| && Leads(m, query, records, n, followed, names)
    ensures ChainEnd(m, query, records[..n]) == names[|followed|]
    decreases n
  {
    if n == 0 {
      NoneFollowed(m, query, records, followed, names);
    } else {
      var last, count := n - 1, |followed|;
      if count > 0 && followed[count - 1] == last {
        var shorter, less := LeadsBefore(m, query, records, last, followed, names);
        LeadsToEnd(m, query, records, last, shorter, less);
        ChainEndNext(m, query, records, last, less[|shorter|]);
      } else {
        LeadsWithout(m, query, records, last, followed, names);
        LeadsToEnd(m, query, records, last, followed, names);
        ChainEndNext(m, query, records, last, names[count]);
      }
    }
  }

  lemma NoneFollowed(m: Bytes, query: Bytes, records: seq<Record>, followed: seq<nat>, names: seq<Bytes>)
    requires Leads(m, query, records, 0, followed, names)
    ensures |followed| == 0 && names[0] == query
  {
    if |followed| > 0 {
      FirstIsLess(followed, 0);
    }
  }

  lemma FirstIsLess(followed: seq<nat>, n: nat)
    requires |followed| > 0 && forall p :: 0 <= p < |followed| ==> followed[p] < n
    ensures n > 0
  {
    assert followed[0] < n;
  }

  /** There is such a list of aliases for every number of records. */
  lemma {:induction false} LeadsSomewhere(m: Bytes, query: Bytes, records: seq<Record>, n: nat)
    returns (followed: seq<nat>, names: seq<Bytes>)
    requires n <= |records|
    ensures Leads(m, query, records, n, followed, names)
    decreases n
  {
    if n == 0 {
      followed, names := [], [query];
    } else {
      var last := n - 1;
      followed, names := LeadsSomewhere(m, query, records, last);
      var name := names[|followed|];
      if IsAliasOf(m, records[last], name) {
        var longer, more := followed + [last], names + [NameInData(m, records[last])];
        LeadsFurther(m, query, records, last, followed, names, longer, more);
        followed, names := longer, more;
      } else {
        LeadsOn(m, query, records, last, followed, names);
      }
    }
  }

  lemma LeadsFurther(m: Bytes, query: Bytes, records: seq<Record>, last: nat, followed: seq<nat>, names: seq<Bytes>,
                     longer: seq<nat>, more: seq<Bytes>)
    requires last < |records| && Leads(m, query, records, last, followed, names)
    requires IsAliasOf(m, records[last], names[|followed|])
    requires longer == followed + [last] && more == names + [NameInData(m, records[last])]
    ensures Leads(m, query, records, last + 1, longer, more)
  {
    forall p, i | 0 <= p < |more| && 0 <= i < last + 1 && Between(longer, p, i)
      ensures !IsAliasOf(m, records[i], more[p])
    {
      assert Between(followed, p, i);
    }
  }

  // ---------------------------------------------------------------------------
  // The addresses.
  // ---------------------------------------------------------------------------

  /** Record `r` gives the answer with number `j` under the name `name`. */
  predicate Gives(m: Bytes, r: Record, j: nat, name: Bytes, a: Answer) {
    && IsAddress(m, r) && LengthOfData(m, r) == SizeOfAddress(m, r) && IsOwner(m, r, name)
    && a == Answer(j, m[r.header + 10..r.header + 10 + SizeOfAddress(m, r)], m[r.header + 4..r.header + 8])
  }

  lemma GivesIs(m: Bytes, query: Bytes, before: seq<Record>, r: Record, j: nat, a: Answer)
    requires AreRecords(m, before) && IsRecord(m, r) && r.header + 2 <= |m|
    requires forall q :: q in before ==> q.header + 2 <= |m|
    ensures Answers(m, query, before, r) && a == AnswerOf(m, j, r)
       <==> Gives(m, r, j, ChainEnd(m, query, before), a)
  {
    RecordIs(m, r, ChainEnd(m, query, before));
  }

  /** Record `j` gives an address to the caller if and only if it is a complete address record of
      the right data length, and its owner is the last of the names that the aliases in front of it
      lead to. The address and its time to live are those bytes of the record. */
  lemma AcceptedExactly(m: Bytes, query: Bytes, records: seq<Record>, j: nat, followed: seq<nat>, names: seq<Bytes>,
                        a: Answer)
    requires AreRecords(m, records) && j < |records| && Leads(m, query, records, j, followed, names)
    ensures a in AnswersOf(m, query, records) && a.record == j
       <==> Gives(m, records[j], j, names[|followed|], a)
  {
    AnswersAreOwned(m, query, records, a);
    LeadsToEnd(m, query, records, j, followed, names);
    GivesIs(m, query, records[..j], records[j], j, a);
  }

  /** The next record follows the address, whatever its data length, when the address is used, and
      the data otherwise. */
  lemma NextRecord(m: Bytes, query: Bytes, records: seq<Record>, j: nat, followed: seq<nat>, names: seq<Bytes>,
                   start: nat, pos: nat)
    requires AreRecords(m, records) && j + 1 == |records| && Leads(m, query, records, j, followed, names)
    requires Walked(m, query, start, records, pos)
    ensures pos == records[j].header + 10
                   + if IsAddress(m, records[j]) && IsOwner(m, records[j], names[|followed|])
                     then SizeOfAddress(m, records[j]) else LengthOfData(m, records[j])
  {
    LeadsToEnd(m, query, records, j, followed, names);
    RecordIs(m, records[j], names[|followed|]);
  }

  lemma {:induction false} LeadsPast(m: Bytes, query: Bytes, records: seq<Record>, n: nat, j: nat, followed: seq<nat>,
                                     names: seq<Bytes>)
    requires n <= j <= |records| && Leads(m, query, records, n, followed, names)
    requires forall i :: n <= i < j ==> !IsAliasOf(m, records[i], names[|followed|])
    ensures Leads(m, query, records, j, followed, names)
    decreases j - n
  {
    if n < j {
      LeadsOn(m, query, records, n, followed, names);
      LeadsPast(m, query, records, n + 1, j, followed, names);
    }
  }

  lemma AliasLeads(m: Bytes, query: Bytes, records: seq<Record>, k: nat, j: nat, followed: seq<nat>,
                   names: seq<Bytes>, target: Bytes)
    returns (longer: seq<nat>, more: seq<Bytes>)
    requires k < j < |records| && Leads(m, query, records, k, followed, names)
    requires IsAliasOf(m, records[k], names[|followed|]) && target == NameInData(m, records[k])
    requires forall i :: k < i < j ==> !IsAliasOf(m, records[i], target)
    ensures longer == followed + [k] && more == names + [target] && |longer| == |more| - 1
    ensures Leads(m, query, records, j, longer, more)
  {
    longer, more := followed + [k], names + [target];
    LeadsFurther(m, query, records, k, followed, names, longer, more);
    LeadsPast(m, query, records, k + 1, j, longer, more);
  }

  /** A record is owned by the expected name when its owner is the last name. */
  lemma LeadsOwner(m: Bytes, query: Bytes, records: seq<Record>, j: nat, followed: seq<nat>, names: seq<Bytes>,
                   name: Bytes)
    requires AreRecords(m, records) && j < |records| && Leads(m, query, records, j, followed, names)
    requires name == names[|followed|]
    ensures OwnedBy(records[j], ChainEnd(m, query, records[..j])) <==> IsOwner(m, records[j], name)
  {
    LeadsToEnd(m, query, records, j, followed, names);
    RecordIs(m, records[j], name);
  }

  ghost predicate NoAliasBetween(m: Bytes, records: seq<Record>, k: nat, j: nat, name: Bytes)
    requires j <= |records|
  {
    forall i :: k < i < j ==> !IsAliasOf(m, records[i], name)
  }

  /** Behind an alias that is followed, and no other alias of the name in its data, a record is
      owned by the expected name exactly when its owner is that name. */
  lemma AliasFollowed(m: Bytes, query: Bytes, records: seq<Record>, k: nat, j: nat, followed: seq<nat>,
                      names: seq<Bytes>, name: Bytes)
    requires AreRecords(m, records) && k < j < |records| && Leads(m, query, records, k, followed, names)
    requires IsAliasOf(m, records[k], names[|followed|]) && name == NameInData(m, records[k])
    requires NoAliasBetween(m, records, k, j, name)
    ensures OwnedBy(records[j], ChainEnd(m, query, records[..j])) <==> IsOwner(m, records[j], name)
  {
    var longer, more := AliasLeads(m, query, records, k, j, followed, names, name);
    LeadsOwner(m, query, records, j, longer, more, name);
  }

  lemma WalkedLast(m: Bytes, query: Bytes, start: nat, records: seq<Record>, pos: nat, last: nat)
    requires Walked(m, query, start, records, pos) && |records| == last + 1
    ensures records[last].start <= |m| && Walked(m, query, start, records[..last], records[last].start)
    ensures records[last].header + 2 <= |m| && IsRecord(m, records[last])
  {
  }

  lemma OneMoreRecord(m: Bytes, records: seq<Record>, last: nat)
    requires |records| == last + 1 && AreRecords(m, records[..last])
    requires records[last].header + 2 <= |m| && IsRecord(m, records[last])
    ensures AreRecords(m, records)
  {
    forall k | 0 <= k < last
      ensures records[k].header + 2 <= |m| && IsRecord(m, records[k])
    {
      assert records[..last][k] == records[k];
    }
  }

  /** The records that have been walked over are records of the message. */
  lemma {:induction false} WalkedRecords(m: Bytes, query: Bytes, start: nat, records: seq<Record>, pos: nat)
    requires Walked(m, query, start, records, pos)
    ensures AreRecords(m, records)
    decreases |records|
  {
    if |records| > 0 {
      var last := |records| - 1;
      WalkedLast(m, query, start, records, pos, last);
      WalkedRecords(m, query, start, records[..last], records[last].start);
      OneMoreRecord(m, records, last);
    }
  }

  /** A record with data has 13 bytes at least, so that the test of the number of records in front
      of the loop rejects no message in which that many of them have been walked over. */
  lemma {:induction false} BytesOfRecords(m: Bytes, query: Bytes, start: nat, records: seq<Record>, pos: nat)
    requires Walked(m, query, start, records, pos) && AreRecords(m, records)
    requires forall k :: 0 <= k < |records| ==> records[k].header + 10 <= |m| && LengthOfData(m, records[k]) > 0
    ensures pos >= start + 13 * |records|
    decreases |records|
  {
    if |records| > 0 {
      var last := |records| - 1;
      WalkedLast(m, query, start, records, pos, last);
      FrontRecords(m, records, last);
      BytesOfRecords(m, query, start, records[..last], records[last].start);
      BytesOfRecord(m, records[last]);
      assert Following(m, query, records[..last], records[last]) >= records[last].header + 11;
    }
  }

  lemma FrontRecords(m: Bytes, records: seq<Record>, last: nat)
    requires |records| == last + 1 && AreRecords(m, records)
    requires forall k :: 0 <= k < |records| ==> records[k].header + 10 <= |m| && LengthOfData(m, records[k]) > 0
    ensures AreRecords(m, records[..last])
    ensures forall k :: 0 <= k < last ==>
              records[..last][k].header + 10 <= |m| && LengthOfData(m, records[..last][k]) > 0
  {
  }

  lemma BytesOfRecord(m: Bytes, r: Record)
    requires IsRecord(m, r) && r.header + 10 <= |m| && LengthOfData(m, r) > 0
    ensures r.header >= r.start + 2 && DataLength(m, r) > 0
  {
    SkippedBytes(m[r.start..], 0);
  }

  // ---------------------------------------------------------------------------
  // A reply with an alias.
  // ---------------------------------------------------------------------------

  /** A reply to a question about "a": "a" is an alias of "b", which has the address 1.2.3.4. */
  const ALIASED: Bytes :=
    [0, 1, 0x80, 0, 0, 1, 0, 2, 0, 0, 0, 0] + [1, 97, 0, 0, 1, 0, 1]
      + [1, 97, 0, 0, 5, 0, 1, 0, 0, 0, 0, 0, 3, 1, 98, 0]
      + [1, 98, 0, 0, 1, 0, 1, 0, 0, 0, 9, 0, 4, 1, 2, 3, 4]

  ghost predicate IsAliased(m: Bytes) {
    && |m| == 52
    && m[19] == 1 && m[20] == 97 && m[21] == 0 && m[22] == 0 && m[23] == 5 && m[30] == 0 && m[31] == 3
    && m[32] == 1 && m[33] == 98 && m[34] == 0
    && m[35] == 1 && m[36] == 98 && m[37] == 0 && m[38] == 0 && m[39] == 1
    && m[42] == 0 && m[43] == 0 && m[44] == 0 && m[45] == 9 && m[46] == 0 && m[47] == 4
    && m[48] == 1 && m[49] == 2 && m[50] == 3 && m[51] == 4
  }

  lemma AliasedBytes()
    ensures IsAliased(ALIASED) && ALIASED[12..19] == [1, 97, 0, 0, 1, 0, 1]
  {
  }

  lemma AliasedFirst(m: Bytes) returns (r: Record)
    requires IsAliased(m)
    ensures IsRecord(m, r) && r == Record(19, Some([97]), 22, Some([98]))
    ensures TypeOf(m, r) == TYPE_CNAME && DataLength(m, r) == 3
  {
    r := Record(19, Some([97]), 22, Some([98]));
    var field := m[19..];
    OneByteName(m, field, 97);
    OneByteName(m, m[32..], 98);
  }

  lemma AliasedSecond(m: Bytes) returns (r: Record)
    requires IsAliased(m)
    ensures IsRecord(m, r) && r.start == 35 && r.owner == Some([98]) && r.header == 38
    ensures TypeOf(m, r) == TYPE_A && DataLength(m, r) == 4 && HasAddress(m, r)
    ensures AnswerOf(m, 1, r) == Answer(1, [1, 2, 3, 4], [0, 0, 0, 9])
  {
    var field := m[35..];
    OneByteName(m, field, 98);
    r := RecordAt(m, 35).value;
    assert m[42..46] == [0, 0, 0, 9] && m[48..52] == [1, 2, 3, 4];
  }

  lemma AliasedRecords(m: Bytes) returns (alias: Record, address: Record)
    requires IsAliased(m)
    ensures Walked(m, [97], 19, [alias, address], 52)
    ensures AnswersOf(m, [97], [alias, address]) == [Answer(1, [1, 2, 3, 4], [0, 0, 0, 9])]
  {
    assert CText([97]) == [97] && CText([98]) == [98];
    alias := AliasedFirst(m);
    address := AliasedSecond(m);
    FirstIsAlias(m, [97], alias, 35);
    SecondIsUsed(m, [97], alias, address, 52);
  }

  /** The alias in the reply `ALIASED` is followed, and the address behind it is accepted. */
  lemma AliasedAddressAccepted() returns (alias: Record, address: Record)
    ensures |ALIASED| == 52 && ALIASED[12..19] == [1, 97, 0, 0, 1, 0, 1]
    ensures Walked(ALIASED, [97], 19, [alias, address], 52)
    ensures AnswersOf(ALIASED, [97], [alias, address]) == [Answer(1, [1, 2, 3, 4], [0, 0, 0, 9])]
    ensures FirstValue([Answer(1, [1, 2, 3, 4], [0, 0, 0, 9])]) == 0x0403_0201
  {
    AliasedBytes();
    alias, address := AliasedRecords(ALIASED);
  }

  // ---------------------------------------------------------------------------
  // Comparing names.
  // ---------------------------------------------------------------------------

  /** Names are the same if they differ in the case of ASCII letters only. */
  lemma SameNameExactly(a: Bytes, b: Bytes)
    ensures SameName(a, b)
       <==> |a| == |b| && forall k :: 0 <= k < |a| ==> a[k] == b[k] || IsPair(a[k], b[k]) || IsPair(b[k], a[k])
  {
  }

  /** An upper-case letter and its lower-case letter. */
  predicate IsPair(upper: Byte, lower: Byte) {
    'A' <= upper as char <= 'Z' && lower as int - upper as int == 'a' as int - 'A' as int
  }
}
