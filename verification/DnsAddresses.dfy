/**
  * The addresses of a name in the DNS cache: which ones are kept, and in which order look-ups
  * return them.
  */
module DnsAddresses {
  import opened Words
  import opened TickClock
  import opened DnsCache

  // ---------------------------------------------------------------------------
  // The addresses that are kept.
  // ---------------------------------------------------------------------------

  /** The addresses of the family that the first `n` calls store under the name. */
  function StoredBy(calls: seq<Call>, n: nat, name: Name, v6: bool): seq<Address>
    requires n <= |calls|
  {
    if n == 0 then []
    else StoredBy(calls, n - 1, name, v6) + if Stores(calls[n - 1], name, v6) then [calls[n - 1].address] else []
  }

  /** One more address; when there is no room, it replaces the first one. */
  function Appended(limit: Byte, list: seq<Address>, a: Address): seq<Address>
    requires limit > 0 && |list| <= limit
  {
    if |list| < limit then list + [a] else list[0 := a]
  }

  /** The addresses that are kept of those. */
  function KeptBy(limit: Byte, calls: seq<Call>, n: nat, name: Name, v6: bool): (list: seq<Address>)
    requires n <= |calls| && limit > 0
    ensures |list| <= limit
  {
    if n == 0 then []
    else
      var list := KeptBy(limit, calls, n - 1, name, v6);
      if Stores(calls[n - 1], name, v6) then Appended(limit, list, calls[n - 1].address) else list
  }

  /** All of them are kept, in order, as long as there is room. */
  lemma {:induction false} AllKept(limit: Byte, calls: seq<Call>, n: nat, name: Name, v6: bool)
    requires n <= |calls| && 0 < limit && |StoredBy(calls, n, name, v6)| <= limit
    ensures KeptBy(limit, calls, n, name, v6) == StoredBy(calls, n, name, v6)
    decreases n
  {
    if n > 0 {
      AllKept(limit, calls, n - 1, name, v6);
    }
  }

  /** Row `x` is the entry of the name, and has the addresses. */
  ghost predicate RowHolds(s: State, name: Name, v6: bool, x: nat, list: seq<Address>) {
    && x < |s.rows| && |s.rows[x].addresses| > 0 && IsEntry(s.rows[x], name, v6)
    && s.rows[x].count == |list| <= |s.rows[x].addresses| && s.rows[x].addresses[..|list|] == list
  }

  /** The cache has exactly these addresses for the name. */
  ghost predicate HasList(s: State, name: Name, v6: bool, list: seq<Address>) {
    && (forall j :: 0 <= j < |s.rows| ==> |s.rows[j].addresses| > 0)
    && match FindFrom(s.rows, name, v6, 0)
       case None => list == []
       case Some(x) => list != [] && RowHolds(s, name, v6, x, list)
  }

  /** The call does not empty the entry of the name, or take its row. */
  predicate KeepsEntry(s: State, call: Call, name: Name, v6: bool)
    requires forall j :: 0 <= j < |s.rows| ==> |s.rows[j].addresses| > 0
  {
    var x := FindFrom(s.rows, name, v6, 0);
    x.Some? ==> Spares(s, call, x.value) && (Inserts(s, call) ==> s.free != x.value)
  }

  /** There is one row for the name at most. */
  lemma FoundRow(limit: Byte, s: State, name: Name, v6: bool, x: nat)
    requires Sound(limit, s) && x < |s.rows| && IsEntry(s.rows[x], name, v6)
    ensures FindFrom(s.rows, name, v6, 0) == Some(x)
  {
    assert FindFrom(s.rows, name, v6, 0).Some?;
  }

  lemma StepHasList(limit: Byte, s: State, call: Call, name: Name, v6: bool, list: seq<Address>)
    requires Sound(limit, s) && HasList(s, name, v6, list) && name != [] && KeepsEntry(s, call, name, v6)
    requires |list| <= limit
    ensures HasList(Step(limit, s, call), name, v6,
                    if Stores(call, name, v6) then Appended(limit, list, call.address) else list)
  {
    match call
    case Lookup(other, v6', now) =>
      LookupHasList(limit, s, call, name, v6, list);
    case Update(other, address, ttl, now) =>
      if other == name && address.V6? == v6 {
        OwnUpdate(limit, s, call, name, v6, list);
      } else {
        OtherUpdate(limit, s, call, name, v6, list);
      }
    case Clear =>
      ClearHasList(limit, s, name, v6, list);
  }

  lemma ClearHasList(limit: Byte, s: State, name: Name, v6: bool, list: seq<Address>)
    requires Sound(limit, s) && HasList(s, name, v6, list) && KeepsEntry(s, Clear, name, v6)
    ensures HasList(Step(limit, s, Clear), name, v6, list)
  {
    assert FindFrom(s.rows, name, v6, 0).None?;
  }

  lemma LookupHasList(limit: Byte, s: State, call: Call, name: Name, v6: bool, list: seq<Address>)
    requires Sound(limit, s) && HasList(s, name, v6, list) && call.Lookup? && KeepsEntry(s, call, name, v6)
    ensures HasList(Step(limit, s, call), name, v6, list)
  {
    StepSound(limit, s, call);
    var s' := Step(limit, s, call);
    var x := FindFrom(s.rows, name, v6, 0);
    if x.Some? {
      assert IsEntry(s'.rows[x.value], name, v6);
      FoundRow(limit, s', name, v6, x.value);
    } else {
      NoEntry(s'.rows, name, v6);
    }
  }

  lemma NoEntry(rows: seq<Row>, name: Name, v6: bool)
    requires forall j :: 0 <= j < |rows| ==> |rows[j].addresses| > 0 && !IsEntry(rows[j], name, v6)
    ensures FindFrom(rows, name, v6, 0) == None
  {
  }

  lemma OwnUpdate(limit: Byte, s: State, call: Call, name: Name, v6: bool, list: seq<Address>)
    requires Sound(limit, s) && HasList(s, name, v6, list) && name != [] && |list| <= limit
    requires call.Update? && call.name == name && call.address.V6? == v6
    ensures HasList(Step(limit, s, call), name, v6,
                    if Stores(call, name, v6) then Appended(limit, list, call.address) else list)
  {
    StepSound(limit, s, call);
    var s' := Step(limit, s, call);
    var x := FindFrom(s.rows, name, v6, 0);
    if x.Some? {
      UpdatedList(limit, s.rows[x.value], call.address, call.ttl, call.now, list);
      FoundRow(limit, s', name, v6, x.value);
    } else if |name| < NAME_LENGTH {
      var r := NewRow(limit, name, call.address, call.ttl, call.now);
      assert s'.rows[s.free] == r && r.addresses[..1] == [call.address];
      FoundRow(limit, s', name, v6, s.free);
    }
  }

  lemma UpdatedList(limit: Byte, r: Row, a: Address, ttl: Word32, now: Word32, list: seq<Address>)
    requires RowSound(limit, r) && r.name != [] && 0 < limit && r.count == |list| && r.addresses[..|list|] == list
    requires a.V6? == r.addresses[0].V6?
    ensures var r' := Updated(limit, r, a, ttl, now);
            var list' := Appended(limit, list, a);
            && r'.name == r.name && r'.count == |list'| && |r'.addresses| == limit
            && r'.addresses[..|list'|] == list' && r'.addresses[0].V6? == r.addresses[0].V6?
  {
    assert r.addresses[0] == list[0];
  }

  lemma OtherUpdate(limit: Byte, s: State, call: Call, name: Name, v6: bool, list: seq<Address>)
    requires Sound(limit, s) && HasList(s, name, v6, list) && name != [] && KeepsEntry(s, call, name, v6)
    requires call.Update? && !(call.name == name && call.address.V6? == v6)
    ensures HasList(Step(limit, s, call), name, v6, list)
  {
    StepSound(limit, s, call);
    var s' := Step(limit, s, call);
    var x := FindFrom(s.rows, name, v6, 0);
    if x.Some? {
      assert s'.rows[x.value] == s.rows[x.value];
      FoundRow(limit, s', name, v6, x.value);
    } else {
      NoEntry(s'.rows, name, v6);
    }
  }

  /** In every run from an empty cache in which the entry of the name is not lost, the cache has
      exactly the kept addresses for the name, whatever else is stored and looked up in between. */
  lemma {:induction false} ListOverRun(limit: Byte, states: seq<State>, calls: seq<Call>, n: nat, name: Name, v6: bool)
    requires Run(limit, states, calls) && Initial(limit, states[0]) && n <= |calls| && name != []
    requires forall k :: 0 <= k < n ==> KeepsEntry(states[k], calls[k], name, v6)
    ensures limit > 0 && HasList(states[n], name, v6, KeptBy(limit, calls, n, name, v6)) && Sound(limit, states[n])
    decreases n
  {
    if n == 0 {
      InitialSound(limit, states[0]);
      NoEntry(states[0].rows, name, v6);
    } else {
      ListOverRun(limit, states, calls, n - 1, name, v6);
      StepSound(limit, states[n - 1], calls[n - 1]);
      StepHasList(limit, states[n - 1], calls[n - 1], name, v6, KeptBy(limit, calls, n - 1, name, v6));
    }
  }

  lemma ListCopied(s: State, name: Name, v6: bool, now: Word32, nodes: nat, list: seq<Address>, x: nat)
    requires HasList(s, name, v6, list) && FindFrom(s.rows, name, v6, 0) == Some(x)
    requires Fresh(s.rows[x], now) && nodes >= |list|
    ensures Copied(s, name, v6, now, nodes) == list
  {
  }

  /** A fresh entry gives the caller exactly the addresses that have been stored for the name, in
      order, if they are not more than a row has room for. */
  lemma AllAddressesCopied(limit: Byte, states: seq<State>, calls: seq<Call>, n: nat, name: Name, v6: bool,
                           now: Word32, nodes: nat, x: nat)
    requires Run(limit, states, calls) && Initial(limit, states[0]) && n <= |calls| && name != []
    requires forall k :: 0 <= k < n ==> KeepsEntry(states[k], calls[k], name, v6)
    requires |StoredBy(calls, n, name, v6)| <= limit && nodes >= |StoredBy(calls, n, name, v6)|
    requires (forall j :: 0 <= j < |states[n].rows| ==> |states[n].rows[j].addresses| > 0)
             && FindFrom(states[n].rows, name, v6, 0) == Some(x) && Fresh(states[n].rows[x], now)
    ensures Copied(states[n], name, v6, now, nodes) == StoredBy(calls, n, name, v6)
  {
    ListOverRun(limit, states, calls, n, name, v6);
    AllKept(limit, calls, n, name, v6);
    ListCopied(states[n], name, v6, now, nodes, StoredBy(calls, n, name, v6), x);
  }

  lemma {:induction false} SomeKept(limit: Byte, calls: seq<Call>, n: nat, name: Name, v6: bool, k: nat)
    requires k < n <= |calls| && 0 < limit && Stores(calls[k], name, v6)
    ensures KeptBy(limit, calls, n, name, v6) != []
    decreases n
  {
    if k < n - 1 {
      SomeKept(limit, calls, n - 1, name, v6, k);
    }
  }

  /** An address is found exactly until the time to live of the last one that was stored has passed,
      as long as the entry is not lost. */
  lemma FoundExactly(limit: Byte, states: seq<State>, calls: seq<Call>, n: nat, name: Name, v6: bool,
                     now: Word32, k: nat)
    requires Run(limit, states, calls) && Initial(limit, states[0]) && n <= |calls| && name != []
    requires forall j :: 0 <= j < n ==> KeepsEntry(states[j], calls[j], name, v6)
    requires LastStored(calls[..n], name, v6, k)
    ensures Shaped(limit, states[n])
    ensures Found(states[n], name, v6, now).Some? <==> Difference(now, calls[k].now) < calls[k].ttl
  {
    ListOverRun(limit, states, calls, n, name, v6);
    EveryRun(limit, states, calls, n);
    SomeKept(limit, calls, n, name, v6, k);
    var x := FindFrom(states[n].rows, name, v6, 0).value;
    RecordedRow(calls[..n], states[n].rows[x]);
    var l: nat :| LastStored(calls[..n], name, v6, l) && IsTimeOf(calls[..n], l, states[n].rows[x]);
    LastIsOne(calls[..n], name, v6, k, l);
  }

  lemma LastIsOne(calls: seq<Call>, name: Name, v6: bool, k: nat, l: nat)
    requires LastStored(calls, name, v6, k) && LastStored(calls, name, v6, l)
    ensures k == l
  {
  }

  /** An address that is stored behind a full row replaces the first one only. */
  lemma FirstReplaced(limit: Byte, calls: seq<Call>, n: nat, name: Name, v6: bool)
    requires n < |calls| && limit > 0 && Stores(calls[n], name, v6) && |KeptBy(limit, calls, n, name, v6)| == limit
    ensures KeptBy(limit, calls, n + 1, name, v6) == [calls[n].address] + KeptBy(limit, calls, n, name, v6)[1..]
  {
  }

  // ---------------------------------------------------------------------------
  // Entries that are lost.
  // ---------------------------------------------------------------------------

  /** A look-up of an entry that has become too old removes it, and no other one. */
  lemma ExpiredIsGone(limit: Byte, s: State, name: Name, v6: bool, now: Word32, x: nat)
    requires Sound(limit, s) && FindFrom(s.rows, name, v6, 0) == Some(x) && !Fresh(s.rows[x], now)
    ensures var s' := Step(limit, s, Lookup(name, v6, now));
            && Shaped(limit, s') && FindFrom(s'.rows, name, v6, 0) == None
            && forall j :: 0 <= j < |s.rows| && j != x ==> s'.rows[j] == s.rows[j]
  {
    StepSound(limit, s, Lookup(name, v6, now));
    NoEntry(Step(limit, s, Lookup(name, v6, now)).rows, name, v6);
  }

  /** After a reset nothing is found. */
  lemma NothingBehindClear(limit: Byte, s: State, name: Name, v6: bool)
    requires Sound(limit, s)
    ensures Shaped(limit, Step(limit, s, Clear)) && FindFrom(Step(limit, s, Clear).rows, name, v6, 0) == None
  {
    NoEntry(Step(limit, s, Clear).rows, name, v6);
  }

  // ---------------------------------------------------------------------------
  // The order of look-ups.
  // ---------------------------------------------------------------------------

  /** The calls are look-ups of the name while its entry is fresh. */
  ghost predicate FreshLookups(states: seq<State>, calls: seq<Call>, name: Name, v6: bool, x: nat) {
    && |states| == |calls| + 1
    && forall k :: 0 <= k < |calls| ==>
         && calls[k].Lookup? && calls[k].name == name && calls[k].v6 == v6
         && x < |states[k].rows| && Fresh(states[k].rows[x], calls[k].now)
  }

  /** The 8-bit counter after `k` look-ups. */
  function Counter(current: Byte, k: nat): Byte {
    (current + k) % 0x100
  }

  lemma CounterNext(current: Byte, k: nat)
    ensures NextByte(Counter(current, k)) == Counter(current, k + 1) && Counter(current, 0) == current
  {
  }

  lemma {:induction false} LookupsTurn(limit: Byte, states: seq<State>, calls: seq<Call>, name: Name, v6: bool,
                                       x: nat, list: seq<Address>, k: nat)
    requires Run(limit, states, calls) && Sound(limit, states[0]) && FreshLookups(states, calls, name, v6, x)
    requires RowHolds(states[0], name, v6, x, list) && k <= |calls|
    ensures Sound(limit, states[k]) && RowHolds(states[k], name, v6, x, list)
    ensures states[k].rows[x].current == Counter(states[0].rows[x].current, k)
    decreases k
  {
    if k == 0 {
      CounterNext(states[0].rows[x].current, 0);
    } else {
      LookupsTurn(limit, states, calls, name, v6, x, list, k - 1);
      StepSound(limit, states[k - 1], calls[k - 1]);
      FoundRow(limit, states[k - 1], name, v6, x);
      CounterNext(states[0].rows[x].current, k - 1);
    }
  }

  /** Look-up number `k` returns the address at the counter, modulo the number of addresses. */
  lemma LookupReturns(limit: Byte, states: seq<State>, calls: seq<Call>, name: Name, v6: bool, x: nat,
                      list: seq<Address>, k: nat)
    requires Run(limit, states, calls) && Sound(limit, states[0]) && FreshLookups(states, calls, name, v6, x)
    requires RowHolds(states[0], name, v6, x, list) && k < |calls| && |list| > 0
    ensures Shaped(limit, states[k])
    ensures Found(states[k], name, v6, calls[k].now)
         == Some(list[Counter(states[0].rows[x].current, k) % |list|])
  {
    LookupsTurn(limit, states, calls, name, v6, x, list, k);
    FoundRow(limit, states[k], name, v6, x);
    var r := states[k].rows[x];
    assert r.addresses[..|list|][r.current % r.count] == r.addresses[r.current % r.count];
  }

  /** A new entry starts with its first address. */
  lemma NewEntryStartsFirst(limit: Byte, s: State, call: Call)
    requires Sound(limit, s) && Inserts(s, call)
    ensures Step(limit, s, call).rows[s.free].current == 0
  {
  }
}
