/**
  * The DNS cache: a fixed array of rows, each with the addresses of one family of a host name,
  * filled round-robin. `ipconfigDNS_CACHE_ADDRESSES_PER_ENTRY` is more than 1.
  */
module DnsCache {
  import opened Words
  import opened TickClock

  /** `ipconfigDNS_CACHE_NAME_LENGTH`. */
  const NAME_LENGTH := 254

  /** A host name; NUL does not occur in a C string. */
  type Name = n: seq<Byte> | 0 !in n

  /** `IPv46_Address_t`. */
  datatype Address = V4(ip: Word32) | V6(bytes: seq<Byte>)

  /** `DNSCacheRow_t`; a row without a name is empty. The time to live is in host order. */
  datatype Row = Row(name: Name, addresses: seq<Address>, count: Byte, current: Byte, ttl: Word32, added: Word32)

  /** `xDNSCache` and `uxFreeEntry`. */
  datatype State = State(rows: seq<Row>, free: nat)

  function EmptyRow(limit: Byte): Row {
    Row([], seq(limit, _ => V4(0)), 0, 0, 0, 0)
  }

  // ---------------------------------------------------------------------------
  // The steps.
  // ---------------------------------------------------------------------------

  /** A use of the cache at the time `now`, in seconds of the clock. */
  datatype Call =
    | Lookup(name: Name, v6: bool, now: Word32)
    | Update(name: Name, address: Address, ttl: Word32, now: Word32)
    | Clear

  predicate IsEntry(r: Row, name: Name, v6: bool)
    requires |r.addresses| > 0
  {
    r.name != [] && r.name == name && r.addresses[0].V6? == v6
  }

  ghost predicate Shaped(limit: Byte, s: State) {
    && limit > 1 && |s.rows| > 0 && s.free < |s.rows|
    && forall i :: 0 <= i < |s.rows| ==> |s.rows[i].addresses| == limit
  }

  /** The first row for the name and the family from `i` on. */
  function FindFrom(rows: seq<Row>, name: Name, v6: bool, i: nat): (r: Option<nat>)
    requires i <= |rows| && forall j :: 0 <= j < |rows| ==> |rows[j].addresses| > 0
    ensures match r
            case Some(x) => i <= x < |rows| && IsEntry(rows[x], name, v6)
            case None => forall j :: i <= j < |rows| ==> !IsEntry(rows[j], name, v6)
    decreases |rows| - i
  {
    if i == |rows| then None
    else if IsEntry(rows[i], name, v6) then Some(i) else FindFrom(rows, name, v6, i + 1)
  }

  /** The seconds since the row was updated, in 32 bits. */
  function Age(r: Row, now: Word32): Word32 {
    Difference(now, r.added)
  }

  predicate Fresh(r: Row, now: Word32) {
    Age(r, now) < r.ttl
  }

  function NextByte(b: Byte): Byte {
    if b == 0xFF then 0 else b + 1
  }

  /** A fresh row turns to its next address, an old one is emptied. */
  function LookedUp(r: Row, now: Word32): Row {
    if Fresh(r, now) then r.(current := NextByte(r.current)) else r.(name := [])
  }

  /** Another address, in place of the first one when there is no room. */
  function Updated(limit: Byte, r: Row, address: Address, ttl: Word32, now: Word32): Row
    requires 0 < limit == |r.addresses|
  {
    if r.count < limit
    then r.(addresses := r.addresses[r.count := address], count := r.count + 1, ttl := ttl, added := now)
    else r.(addresses := r.addresses[0 := address], ttl := ttl, added := now)
  }

  function NewRow(limit: Byte, name: Name, address: Address, ttl: Word32, now: Word32): Row
    requires limit > 0
  {
    Row(name, seq(limit, _ => V4(0))[0 := address], 1, 0, ttl, now)
  }

  function Inserted(limit: Byte, s: State, name: Name, address: Address, ttl: Word32, now: Word32): State
    requires limit > 0 && s.free < |s.rows|
  {
    if |name| < NAME_LENGTH then
      State(s.rows[s.free := NewRow(limit, name, address, ttl, now)],
            if s.free + 1 == |s.rows| then 0 else s.free + 1)
    else s
  }

  /** `FreeRTOS_ProcessDNSCache` and `FreeRTOS_dnsclear`. */
  function Step(limit: Byte, s: State, call: Call): State
    requires Shaped(limit, s)
  {
    match call
    case Lookup(name, v6, now) =>
      var x := FindFrom(s.rows, name, v6, 0);
      if x.Some? then s.(rows := s.rows[x.value := LookedUp(s.rows[x.value], now)]) else s
    case Update(name, address, ttl, now) =>
      var x := FindFrom(s.rows, name, address.V6?, 0);
      if x.Some? then s.(rows := s.rows[x.value := Updated(limit, s.rows[x.value], address, ttl, now)])
      else Inserted(limit, s, name, address, ttl, now)
    case Clear => State(seq(|s.rows|, _ => EmptyRow(limit)), 0)
  }

  /** The address that a look-up reads. */
  function Found(s: State, name: Name, v6: bool, now: Word32): Option<Address>
    requires forall j :: 0 <= j < |s.rows| ==> |s.rows[j].addresses| > 0
  {
    var x := FindFrom(s.rows, name, v6, 0);
    if x.Some? && Fresh(s.rows[x.value], now) then Read(s.rows[x.value]) else None
  }

  /** The current address; none if the row's count is not usable as an index. */
  function Read(r: Row): Option<Address> {
    if 0 < r.count <= |r.addresses| then Some(r.addresses[r.current % r.count]) else None
  }

  /** The addresses that a look-up copies, as far as list nodes can be allocated. */
  function Copied(s: State, name: Name, v6: bool, now: Word32, nodes: nat): seq<Address>
    requires forall j :: 0 <= j < |s.rows| ==> |s.rows[j].addresses| > 0
  {
    var x := FindFrom(s.rows, name, v6, 0);
    if x.Some? && Fresh(s.rows[x.value], now) then Listed(s.rows[x.value], nodes) else []
  }

  function Listed(r: Row, nodes: nat): seq<Address> {
    var n := Least(r.count, |r.addresses|);
    r.addresses[..Least(n, nodes)]
  }

  function Least(a: nat, b: nat): nat {
    if a < b then a else b
  }

  // ---------------------------------------------------------------------------
  // What every step keeps.
  // ---------------------------------------------------------------------------

  /** An occupied row has addresses of one family, and its rotation index is defined. */
  ghost predicate RowSound(limit: Byte, r: Row) {
    && |r.addresses| == limit && r.count <= limit && |r.name| < NAME_LENGTH
    && (r.name != [] ==> r.count >= 1)
    && forall j :: 0 <= j < r.count ==> r.addresses[j].V6? == r.addresses[0].V6?
  }

  ghost predicate Sound(limit: Byte, s: State) {
    && Shaped(limit, s)
    && (forall i :: 0 <= i < |s.rows| ==> RowSound(limit, s.rows[i]))
    && (forall i, j :: 0 <= i < j < |s.rows| ==> !IsEntry(s.rows[j], s.rows[i].name, s.rows[i].addresses[0].V6?))
  }

  lemma ReplacedSound(limit: Byte, s: State, x: nat, r: Row, free: nat)
    requires Sound(limit, s) && x < |s.rows| && free < |s.rows| && RowSound(limit, r)
    requires r.name != [] ==>
               forall j :: 0 <= j < |s.rows| && j != x ==> !IsEntry(s.rows[j], r.name, r.addresses[0].V6?)
    ensures Sound(limit, State(s.rows[x := r], free))
  {
  }

  lemma StepSound(limit: Byte, s: State, call: Call)
    requires Sound(limit, s)
    ensures Sound(limit, Step(limit, s, call))
  {
    match call
    case Lookup(name, v6, now) =>
      var x := FindFrom(s.rows, name, v6, 0);
      if x.Some? {
        ReplacedSound(limit, s, x.value, LookedUp(s.rows[x.value], now), s.free);
      }
    case Update(name, address, ttl, now) =>
      var x := FindFrom(s.rows, name, address.V6?, 0);
      if x.Some? {
        ReplacedSound(limit, s, x.value, Updated(limit, s.rows[x.value], address, ttl, now), s.free);
      } else if |name| < NAME_LENGTH {
        ReplacedSound(limit, s, s.free, NewRow(limit, name, address, ttl, now), Step(limit, s, call).free);
      }
    case Clear =>
  }

  ghost predicate Run(limit: Byte, states: seq<State>, calls: seq<Call>) {
    && |states| == |calls| + 1
    && forall k :: 0 <= k < |calls| ==> Shaped(limit, states[k]) && states[k + 1] == Step(limit, states[k], calls[k])
  }

  ghost predicate Initial(limit: Byte, s: State) {
    && Shaped(limit, s) && s.free == 0
    && forall i :: 0 <= i < |s.rows| ==> s.rows[i] == EmptyRow(limit)
  }

  // ---------------------------------------------------------------------------
  // Where an address comes from.
  // ---------------------------------------------------------------------------

  /** The call stores an address of the family under the name. */
  predicate Stores(call: Call, name: Name, v6: bool) {
    call.Update? && call.name == name && call.address.V6? == v6 && |name| < NAME_LENGTH
  }

  /** The cache was not reset behind call `k`. */
  ghost predicate NoClearBehind(calls: seq<Call>, k: nat) {
    forall j :: k < j < |calls| ==> !calls[j].Clear?
  }

  /** The address was stored under the name by one of the calls since the last reset. */
  ghost predicate WasStored(calls: seq<Call>, name: Name, a: Address) {
    exists k: nat :: k < |calls| && Stores(calls[k], name, a.V6?) && calls[k].address == a && NoClearBehind(calls, k)
  }

  /** Call `k` is the last one that stored an address of the family under the name, and the
      cache was not reset since. */
  ghost predicate LastStored(calls: seq<Call>, name: Name, v6: bool, k: nat) {
    && k < |calls| && Stores(calls[k], name, v6) && NoClearBehind(calls, k)
    && forall j :: k < j < |calls| ==> !Stores(calls[j], name, v6)
  }

  /** A row holds addresses stored for its name, and the time of the last of those calls. */
  ghost predicate Recorded(calls: seq<Call>, r: Row) {
    r.name != [] && |r.addresses| > 0 ==>
      && (forall j :: 0 <= j < r.count && j < |r.addresses| ==> WasStored(calls, r.name, r.addresses[j]))
      && exists k: nat :: LastStored(calls, r.name, r.addresses[0].V6?, k)
                     && calls[k].ttl == r.ttl && calls[k].now == r.added
  }

  ghost predicate AllRecorded(calls: seq<Call>, s: State) {
    forall i :: 0 <= i < |s.rows| ==> Recorded(calls, s.rows[i])
  }

  lemma WasStoredBefore(calls: seq<Call>, call: Call, name: Name, a: Address)
    ensures WasStored(calls, name, a) && !call.Clear? ==> WasStored(calls + [call], name, a)
    ensures Stores(call, name, a.V6?) && call.address == a ==> WasStored(calls + [call], name, a)
  {
    var longer := calls + [call];
    if WasStored(calls, name, a) && !call.Clear? {
      var k: nat :| k < |calls| && Stores(calls[k], name, a.V6?) && calls[k].address == a && NoClearBehind(calls, k);
      assert longer[k] == calls[k] && NoClearBehind(longer, k);
    }
    assert longer[|calls|] == call && NoClearBehind(longer, |calls|);
  }

  lemma StillRecorded(calls: seq<Call>, call: Call, r: Row)
    requires Recorded(calls, r) && !call.Clear?
    requires r.name != [] && |r.addresses| > 0 ==> !Stores(call, r.name, r.addresses[0].V6?)
    ensures Recorded(calls + [call], r)
  {
    if r.name != [] && |r.addresses| > 0 {
      forall j | 0 <= j < r.count && j < |r.addresses|
        ensures WasStored(calls + [call], r.name, r.addresses[j])
      {
        WasStoredBefore(calls, call, r.name, r.addresses[j]);
      }
      var k: nat :| LastStored(calls, r.name, r.addresses[0].V6?, k)
                    && calls[k].ttl == r.ttl && calls[k].now == r.added;
      assert NoClearBehind(calls + [call], k);
      assert LastStored(calls + [call], r.name, r.addresses[0].V6?, k);
    }
  }

  /** The row that the call has written. */
  lemma NowRecorded(calls: seq<Call>, call: Call, r: Row)
    requires |r.addresses| > 0 && Stores(call, r.name, r.addresses[0].V6?) && call.ttl == r.ttl && call.now == r.added
    requires forall j :: 0 <= j < r.count && j < |r.addresses| ==>
               r.addresses[j] == call.address || WasStored(calls, r.name, r.addresses[j])
    ensures Recorded(calls + [call], r)
  {
    forall j | 0 <= j < r.count && j < |r.addresses|
      ensures WasStored(calls + [call], r.name, r.addresses[j])
    {
      WasStoredBefore(calls, call, r.name, r.addresses[j]);
    }
    assert LastStored(calls + [call], r.name, r.addresses[0].V6?, |calls|);
  }

  lemma StepRecorded(limit: Byte, s: State, calls: seq<Call>, call: Call)
    requires Sound(limit, s) && AllRecorded(calls, s)
    ensures AllRecorded(calls + [call], Step(limit, s, call))
  {
    var s' := Step(limit, s, call);
    forall i | 0 <= i < |s'.rows|
      ensures Recorded(calls + [call], s'.rows[i])
    {
      match call
      case Lookup(name, v6, now) =>
        StillRecorded(calls, call, s.rows[i]);
      case Update(name, address, ttl, now) =>
        UpdateRecorded(limit, s, calls, call, i);
      case Clear =>
    }
  }

  lemma UpdateRecorded(limit: Byte, s: State, calls: seq<Call>, call: Call, i: nat)
    requires Sound(limit, s) && AllRecorded(calls, s) && call.Update? && i < |s.rows|
    ensures Recorded(calls + [call], Step(limit, s, call).rows[i])
  {
    var x := FindFrom(s.rows, call.name, call.address.V6?, 0);
    var row' := Step(limit, s, call).rows[i];
    if x == Some(i) {
      NowRecorded(calls, call, row');
    } else if x.None? && i == s.free && |call.name| < NAME_LENGTH {
      if call.name != [] {
        NowRecorded(calls, call, row');
      }
    } else {
      StillRecorded(calls, call, s.rows[i]);
    }
  }

  lemma SoundNext(limit: Byte, s: State, calls: seq<Call>, call: Call, s': State)
    requires Sound(limit, s) && AllRecorded(calls, s) && s' == Step(limit, s, call)
    ensures Sound(limit, s') && AllRecorded(calls + [call], s')
  {
    StepSound(limit, s, call);
    StepRecorded(limit, s, calls, call);
  }

  lemma InitialSound(limit: Byte, s: State)
    requires Initial(limit, s)
    ensures Sound(limit, s) && AllRecorded([], s)
  {
  }

  lemma {:induction false} EveryRun(limit: Byte, states: seq<State>, calls: seq<Call>, k: nat)
    requires Run(limit, states, calls) && Initial(limit, states[0]) && k < |states|
    ensures Sound(limit, states[k]) && AllRecorded(calls[..k], states[k])
    decreases k
  {
    if k > 0 {
      var before := calls[..k - 1];
      EveryRun(limit, states, calls, k - 1);
      SoundNext(limit, states[k - 1], before, calls[k - 1], states[k]);
      assert calls[..k] == before + [calls[k - 1]];
    } else {
      InitialSound(limit, states[0]);
    }
  }

  /** In every run, the addresses that are found were stored for that name since the last reset
      of the cache, and so was the last one of the family, less than its time to live ago. */
  lemma FoundIsFresh(limit: Byte, states: seq<State>, calls: seq<Call>, n: nat, name: Name, v6: bool, now: Word32)
    requires Run(limit, states, calls) && Initial(limit, states[0]) && n < |states| && Shaped(limit, states[n])
    requires Found(states[n], name, v6, now).Some?
    ensures var a := Found(states[n], name, v6, now).value; a.V6? == v6 && WasStored(calls[..n], name, a)
    ensures forall nodes, j :: 0 <= j < |Copied(states[n], name, v6, now, nodes)| ==>
              var a := Copied(states[n], name, v6, now, nodes)[j]; a.V6? == v6 && WasStored(calls[..n], name, a)
    ensures exists k: nat :: LastStored(calls[..n], name, v6, k)
                        && Difference(now, calls[k].now) < calls[k].ttl
  {
    EveryRun(limit, states, calls, n);
    var x := FindFrom(states[n].rows, name, v6, 0).value;
    RecordedRow(calls[..n], states[n].rows[x]);
    var k: nat :| LastStored(calls[..n], name, v6, k) && IsTimeOf(calls[..n], k, states[n].rows[x]);
    assert calls[..n][k] == calls[k];
  }

  ghost predicate IsTimeOf(calls: seq<Call>, k: nat, r: Row) {
    k < |calls| && calls[k].Update? && calls[k].ttl == r.ttl && calls[k].now == r.added
  }

  lemma RecordedRow(calls: seq<Call>, r: Row)
    requires Recorded(calls, r) && r.name != [] && |r.addresses| > 0
    ensures forall j :: 0 <= j < r.count && j < |r.addresses| ==> WasStored(calls, r.name, r.addresses[j])
    ensures exists k: nat :: LastStored(calls, r.name, r.addresses[0].V6?, k) && IsTimeOf(calls, k, r)
  {
    var k: nat :| LastStored(calls, r.name, r.addresses[0].V6?, k) && calls[k].ttl == r.ttl && calls[k].now == r.added;
    assert IsTimeOf(calls, k, r);
  }

  /** The calls were made after `ticks[k]` ticks each, and read the clock then. */
  ghost predicate Timed(calls: seq<Call>, ticks: seq<nat>, rate: nat)
    requires rate > 0
  {
    && |ticks| == |calls|
    && forall k :: 0 <= k < |calls| && !calls[k].Clear? ==> calls[k].now == Seconds(ticks[k], rate)
  }

  /** In every run, an address that is found was stored less than its time to live ago, measured
      in ticks, if less than a round of the tick counter has passed since, by at least one second. */
  lemma FoundInTime(limit: Byte, states: seq<State>, calls: seq<Call>, n: nat, name: Name, v6: bool,
                    ticks: seq<nat>, later: nat, rate: nat)
    requires Run(limit, states, calls) && Initial(limit, states[0]) && n < |states| && Shaped(limit, states[n])
    requires rate > 0 && Timed(calls, ticks, rate) && Found(states[n], name, v6, Seconds(later, rate)).Some?
    ensures exists k: nat :: LastStored(calls[..n], name, v6, k) && InTime(calls[k], ticks[k], later, rate)
  {
    var now := Seconds(later, rate);
    FoundIsFresh(limit, states, calls, n, name, v6, now);
    var k: nat :| LastStored(calls[..n], name, v6, k) && Difference(now, calls[k].now) < calls[k].ttl;
    assert calls[..n][k] == calls[k];
    if ticks[k] <= later && later - ticks[k] + rate <= ROUND {
      ToldApart(ticks[k], later - ticks[k], rate, calls[k].ttl);
    }
    assert InTime(calls[k], ticks[k], later, rate);
  }

  ghost predicate InTime(call: Call, stored: nat, later: nat, rate: nat) {
    call.Update? && (stored <= later && later - stored + rate <= ROUND ==> later - stored < call.ttl * rate)
  }

  /** An address with a time to live of one second is found again about a round later: `gap`
      ticks, which may be anything from a round less one second to a round. */
  lemma StaleFound(limit: Byte, s: State, name: Name, address: Address, gap: nat, rate: nat) returns (call: Call)
    requires Initial(limit, s) && 0 < |name| < NAME_LENGTH && 0 < rate <= 0x8000_0000
    requires ROUND - rate < gap <= ROUND
    ensures call == Update(name, address, 1, Seconds(rate - 1, rate))
    ensures var s' := Step(limit, s, call);
            && Run(limit, [s, s'], [call]) && Shaped(limit, s') && gap >= call.ttl * rate
            && Found(s', name, address.V6?, Seconds(rate - 1 + gap, rate)) == Some(address)
  {
    call := Update(name, address, 1, Seconds(rate - 1, rate));
    FirstSecond(rate - 1, rate);
    FirstSecond(rate - 1 + gap, rate);
    var s' := Step(limit, s, call);
    assert FindFrom(s.rows, name, address.V6?, 0).None?;
    assert s'.rows[0] == NewRow(limit, name, address, 1, 0);
    assert IsEntry(s'.rows[0], name, address.V6?);
  }

  // ---------------------------------------------------------------------------
  // How long an entry stays.
  // ---------------------------------------------------------------------------

  /** The call takes a row for a new entry. */
  predicate Inserts(s: State, call: Call)
    requires forall j :: 0 <= j < |s.rows| ==> |s.rows[j].addresses| > 0
  {
    call.Update? && |call.name| < NAME_LENGTH && FindFrom(s.rows, call.name, call.address.V6?, 0).None?
  }

  function Insertions(limit: Byte, states: seq<State>, calls: seq<Call>, k: nat): nat
    requires |states| == |calls| + 1 && k <= |calls|
    requires forall j :: 0 <= j < k ==> forall i :: 0 <= i < |states[j].rows| ==> |states[j].rows[i].addresses| > 0
  {
    if k == 0 then 0
    else Insertions(limit, states, calls, k - 1) + if Inserts(states[k - 1], calls[k - 1]) then 1 else 0
  }

  /** The insertions before row `x` is taken again. */
  function Ahead(x: nat, free: nat, n: nat): nat
    requires x < n && free < n
  {
    if x >= free then x - free else x + n - free
  }

  /** The call does not empty row `x`: it is no reset, and no look-up after its time. */
  predicate Spares(s: State, call: Call, x: nat)
    requires x < |s.rows| && |s.rows[x].addresses| > 0
  {
    match call
    case Clear => false
    case Lookup(name, v6, now) => IsEntry(s.rows[x], name, v6) ==> Fresh(s.rows[x], now)
    case Update(_, _, _, _) => true
  }

  lemma StepSpares(limit: Byte, s: State, call: Call, x: nat)
    requires Sound(limit, s) && x < |s.rows| && s.rows[x].name != [] && Spares(s, call, x)
    requires Inserts(s, call) ==> Ahead(x, s.free, |s.rows|) > 0
    ensures var s' := Step(limit, s, call);
            && |s'.rows| == |s.rows| && s'.free < |s.rows|
            && IsEntry(s'.rows[x], s.rows[x].name, s.rows[x].addresses[0].V6?)
            && Ahead(x, s'.free, |s.rows|) == Ahead(x, s.free, |s.rows|) - if Inserts(s, call) then 1 else 0
  {
  }

  /** An entry that was just inserted in row `x` is still there after as many further
      insertions as there are other rows, if it is not looked up after its time. */
  lemma {:induction false} EntrySurvives(limit: Byte, states: seq<State>, calls: seq<Call>, x: nat, k: nat)
    requires Run(limit, states, calls) && Sound(limit, states[0]) && k <= |calls|
    requires x < |states[0].rows| && states[0].rows[x].name != []
    requires Ahead(x, states[0].free, |states[0].rows|) == |states[0].rows| - 1
    requires Insertions(limit, states, calls, k) <= |states[0].rows| - 1
    requires forall j :: 0 <= j < k ==> x < |states[j].rows| && Spares(states[j], calls[j], x)
    ensures Sound(limit, states[k]) && |states[k].rows| == |states[0].rows|
    ensures IsEntry(states[k].rows[x], states[0].rows[x].name, states[0].rows[x].addresses[0].V6?)
    ensures Ahead(x, states[k].free, |states[0].rows|)
         == |states[0].rows| - 1 - Insertions(limit, states, calls, k)
    decreases k
  {
    if k > 0 {
      EntrySurvives(limit, states, calls, x, k - 1);
      StepSound(limit, states[k - 1], calls[k - 1]);
      StepSpares(limit, states[k - 1], calls[k - 1], x);
    }
  }

  /** After an insertion, all other rows are taken before the new one. */
  lemma InsertedLast(limit: Byte, s: State, call: Call)
    requires Sound(limit, s) && Inserts(s, call)
    ensures var s' := Step(limit, s, call);
            && Ahead(s.free, s'.free, |s'.rows|) == |s.rows| - 1
            && s'.rows[s.free].name == call.name && s'.rows[s.free].addresses[0] == call.address
  {
  }

  // ---------------------------------------------------------------------------
  // The cache.
  // ---------------------------------------------------------------------------

  lemma SmallModulo(x: nat, m: nat)
    requires x < m
    ensures x % m == x
  {
  }

  /** The index of the next address, and the 8-bit counter behind it. */
  method Rotate(current: Byte, count: Byte, limit: Byte) returns (index: nat, next: Byte)
    requires 0 < count <= limit
    ensures index == current % count < count && next == NextByte(current)
  {
    index := current % count;
    SmallModulo(index, limit);
    index := index % limit;
    next := Increment(current);
  }

  method Increment(b: Byte) returns (next: Byte)
    ensures next == NextByte(b)
  {
    next := (b as int + 1) % 0x100;
  }

  /** `xDNSCache` and `uxFreeEntry`; `rate` is `configTICK_RATE_HZ`. */
  class Cache {
    const limit: Byte
    const rate: nat
    const rows: array<Row>
    var freeEntry: nat

    constructor (entries: nat, addresses: Byte, tickRate: nat)
      requires entries > 0 && addresses > 1 && tickRate > 0
      ensures limit == addresses && rate == tickRate
      ensures fresh(rows) && rows.Length == entries && Initial(limit, Current())
    {
      limit, rate, freeEntry := addresses, tickRate, 0;
      rows := new Row[entries](_ => EmptyRow(addresses));
    }

    ghost function Current(): State
      reads this, rows
    {
      State(rows[..], freeEntry)
    }

    /** `FreeRTOS_dnsclear`. */
    method DnsClear()
      requires Sound(limit, Current())
      modifies this, rows
      ensures Current() == Step(limit, old(Current()), Clear)
    {
      for i := 0 to rows.Length
        invariant forall j :: 0 <= j < i ==> rows[j] == EmptyRow(limit)
      {
        rows[i] := EmptyRow(limit);
      }
      freeEntry := 0;
    }

    /** `prvFindEntryIndex`. */
    method FindEntryIndex(name: Name, v6: bool) returns (index: Option<nat>)
      requires Sound(limit, Current())
      ensures index == FindFrom(rows[..], name, v6, 0)
    {
      for i := 0 to rows.Length
        invariant FindFrom(rows[..], name, v6, 0) == FindFrom(rows[..], name, v6, i)
      {
        if rows[i].name != [] {
          if rows[i].name == name {
            if rows[i].addresses[0].V6? == v6 {
              return Some(i);
            }
          }
        }
      }
      index := None;
    }

    /** `prvReadDNSCache`: a list of all addresses of the row; `nodes` is how many list nodes can
        be allocated. */
    method ReadCache(x: nat, nodes: nat) returns (list: seq<Address>)
      requires Sound(limit, Current()) && x < rows.Length
      ensures list == Listed(rows[x], nodes)
    {
      var count := rows[x].count;
      if count > limit {
        count := limit;
      }
      list := [];
      for i := 0 to count
        invariant i <= nodes && list == rows[x].addresses[..i]
      {
        if i == nodes {
          break;
        }
        list := list + [rows[x].addresses[i]];
      }
    }

    /** `prvGetCacheIPEntry`; `wanted` says whether the caller asks for a list. */
    method GetCacheEntry(x: nat, now: Word32, wanted: bool, nodes: nat)
      returns (address: Option<Address>, list: seq<Address>)
      requires Sound(limit, Current()) && x < rows.Length && rows[x].name != []
      modifies rows
      ensures rows[..] == old(rows[..])[x := LookedUp(old(rows[x]), now)]
      ensures address == if Fresh(old(rows[x]), now) then Read(old(rows[x])) else None
      ensures list == if Fresh(old(rows[x]), now) && wanted then Listed(old(rows[x]), nodes) else []
    {
      list := [];
      var age := Wrap32(ROUND + now - rows[x].added);
      if age < rows[x].ttl {
        var index, next := Rotate(rows[x].current, rows[x].count, limit);
        address := Some(rows[x].addresses[index]);
        rows[x] := rows[x].(current := next);
        if wanted {
          list := ReadCache(x, nodes);
        }
      } else {
        rows[x] := rows[x].(name := []);
        address := None;
      }
    }

    /** `prvUpdateCacheEntry`. */
    method UpdateCacheEntry(x: nat, address: Address, ttl: Word32, now: Word32)
      requires Sound(limit, Current()) && x < rows.Length
      modifies rows
      ensures rows[..] == old(rows[..])[x := Updated(limit, old(rows[x]), address, ttl, now)]
    {
      var index: nat := 0;
      if rows[x].count < limit {
        index := rows[x].count;
        rows[x] := rows[x].(count := rows[x].count + 1);
      }
      rows[x] := rows[x].(addresses := rows[x].addresses[index := address]);
      rows[x] := rows[x].(ttl := ttl, added := now);
    }

    /** `prvInsertCacheEntry`. */
    method InsertCacheEntry(name: Name, address: Address, ttl: Word32, now: Word32)
      requires Sound(limit, Current())
      modifies this, rows
      ensures Current() == Inserted(limit, old(Current()), name, address, ttl, now)
    {
      if |name| < NAME_LENGTH {
        rows[freeEntry] := NewRow(limit, name, address, ttl, now);
        freeEntry := freeEntry + 1;
        if freeEntry == rows.Length {
          freeEntry := 0;
        }
      }
    }

    /** The clock, `ticks` ticks after the start. */
    method CurrentTime(ticks: nat) returns (now: Word32)
      requires rate > 0
      ensures now == Seconds(ticks, rate)
    {
      var counter := Wrap32(ticks);
      Quotient(counter, rate);
      now := counter / rate;
    }

    /** `FreeRTOS_ProcessDNSCache` for a look-up. The result is true for an expired row, too;
        the caller's address stays cleared then. */
    method LookUp(name: Name, v6: bool, ticks: nat, wanted: bool, nodes: nat)
      returns (result: bool, address: Option<Address>, list: seq<Address>)
      requires Sound(limit, Current()) && rate > 0
      modifies rows
      ensures Sound(limit, Current())
      ensures Current() == Step(limit, old(Current()), Lookup(name, v6, Seconds(ticks, rate)))
      ensures address == Found(old(Current()), name, v6, Seconds(ticks, rate))
      ensures list == if wanted then Copied(old(Current()), name, v6, Seconds(ticks, rate), nodes) else []
      ensures result == FindFrom(old(rows[..]), name, v6, 0).Some?
    {
      var now := CurrentTime(ticks);
      StepSound(limit, Current(), Lookup(name, v6, now));
      var index := FindEntryIndex(name, v6);
      result, address, list := index.Some?, None, [];
      if result {
        address, list := GetCacheEntry(index.value, now, wanted, nodes);
      }
    }

    /** `FreeRTOS_dnslookup`: 0 when no address is found, or the one that is found is 0. */
    method DnsLookup(name: Name, ticks: nat) returns (ip: Word32)
      requires Sound(limit, Current()) && rate > 0
      modifies rows
      ensures Sound(limit, Current())
      ensures Current() == Step(limit, old(Current()), Lookup(name, false, Seconds(ticks, rate)))
      ensures var found := Found(old(Current()), name, false, Seconds(ticks, rate));
              forall a: Word32 :: a != 0 ==> (ip == a <==> found == Some(V4(a)))
    {
      var result, address, list := LookUp(name, false, ticks, false, 0);
      ip := if address.Some? && address.value.V4? then address.value.ip else 0;
    }

    /** `FreeRTOS_dns_update`. */
    method DnsUpdate(name: Name, address: Address, ttl: Word32, ticks: nat)
      requires Sound(limit, Current()) && rate > 0
      modifies this, rows
      ensures Sound(limit, Current())
      ensures Current() == Step(limit, old(Current()), Update(name, address, ttl, Seconds(ticks, rate)))
    {
      var now := CurrentTime(ticks);
      StepSound(limit, Current(), Update(name, address, ttl, now));
      var index := FindEntryIndex(name, address.V6?);
      if index.Some? {
        UpdateCacheEntry(index.value, address, ttl, now);
      } else {
        InsertCacheEntry(name, address, ttl, now);
      }
    }
  }
}
