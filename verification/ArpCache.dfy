/**
  * The ARP table: a fixed array of rows that behaves like a map from IP addresses to MAC
  * addresses, with ageing and eviction. `ipconfigARP_STORES_REMOTE_ADDRESSES` is 0.
  */
module ArpCache {
  import opened Words

  type Ip = Word32
  /** Six bytes as one number. */
  type Mac = m: nat | m < 0x1_0000_0000_0000
  /** End-points are compared by address; 0 is NULL. */
  type EndPointRef = nat

  /** `ARPCacheRow_t`. */
  datatype Row = Row(ip: Ip, mac: Mac, age: Byte, valid: bool, endPoint: EndPointRef)

  const EMPTY := Row(0, 0, 0, false, 0)

  type Rows = seq<Row>

  /** `ipconfigMAX_ARP_AGE` and `ipconfigMAX_ARP_RETRANSMISSIONS`. */
  datatype Config = Config(maxAge: Byte, retransmissions: Byte)

  // ---------------------------------------------------------------------------
  // Looking up an address.
  // ---------------------------------------------------------------------------

  datatype Lookup = Miss | Waiting | Hit(mac: Mac, endPoint: EndPointRef)

  function Shown(r: Row): Lookup {
    if r.valid then Hit(r.mac, r.endPoint) else Waiting
  }

  /** What the first row for `ip` from `i` on says. */
  function LookupFrom(rows: Rows, ip: Ip, i: nat): Lookup
    requires i <= |rows|
    decreases |rows| - i
  {
    if i == |rows| then Miss else if rows[i].ip == ip then Shown(rows[i]) else LookupFrom(rows, ip, i + 1)
  }

  function LookupIp(rows: Rows, ip: Ip): Lookup {
    LookupFrom(rows, ip, 0)
  }

  ghost predicate Holds(rows: Rows, ip: Ip) {
    exists x :: 0 <= x < |rows| && rows[x].ip == ip
  }

  /** No two rows have the same IP address, or the same MAC address; zero stands for none. */
  ghost predicate Unique(rows: Rows) {
    && (forall x, y :: 0 <= x < y < |rows| && rows[x].ip != 0 ==> rows[x].ip != rows[y].ip)
    && (forall x, y :: 0 <= x < y < |rows| && rows[x].mac != 0 ==> rows[x].mac != rows[y].mac)
  }

  /** A row with an IP address has not expired. */
  ghost predicate Live(rows: Rows) {
    forall x :: 0 <= x < |rows| && rows[x].ip != 0 ==> rows[x].age > 0
  }

  lemma {:induction false} LookupMisses(rows: Rows, ip: Ip, i: nat)
    requires i <= |rows| && forall x :: i <= x < |rows| ==> rows[x].ip != ip
    ensures LookupFrom(rows, ip, i) == Miss
    decreases |rows| - i
  {
    if i < |rows| {
      LookupMisses(rows, ip, i + 1);
    }
  }

  lemma {:induction false} LookupFinds(rows: Rows, ip: Ip, i: nat, x: nat)
    requires i <= x < |rows| && rows[x].ip == ip && forall j :: i <= j < x ==> rows[j].ip != ip
    ensures LookupFrom(rows, ip, i) == Shown(rows[x])
    decreases x - i
  {
    if i < x {
      LookupFinds(rows, ip, i + 1, x);
    }
  }

  /** With unique addresses the table is a map: a row decides the look-up of its address. */
  lemma LookupRow(rows: Rows, ip: Ip, x: nat)
    requires Unique(rows) && ip != 0 && x < |rows| && rows[x].ip == ip
    ensures LookupIp(rows, ip) == Shown(rows[x])
  {
    LookupFinds(rows, ip, 0, x);
  }

  // ---------------------------------------------------------------------------
  // What the operations do to the rows.
  // ---------------------------------------------------------------------------

  predicate HasMac(r: Row, mac: Option<Mac>) {
    mac.Some? && r.mac == mac.value
  }

  predicate IsExact(r: Row, mac: Option<Mac>, ip: Ip) {
    r.ip == ip && HasMac(r, mac)
  }

  /** `CacheLocation_t`, or the row that holds both addresses; -1 is no row. */
  datatype Location = Exact(row: nat) | Elsewhere(ipRow: int, macRow: int, oldest: nat)

  /** No row is older, and those in front of it are younger. */
  ghost predicate IsOldest(rows: Rows, x: nat) {
    && x < |rows|
    && (forall j :: 0 <= j < |rows| ==> rows[j].age >= rows[x].age)
    && (forall j :: 0 <= j < x ==> rows[j].age > rows[x].age)
  }

  ghost predicate Locates(rows: Rows, mac: Option<Mac>, ip: Ip, l: Location) {
    match l
    case Exact(x) =>
      x < |rows| && IsExact(rows[x], mac, ip) && forall j :: 0 <= j < x ==> !IsExact(rows[j], mac, ip)
    case Elsewhere(ipRow, macRow, oldest) =>
      && -1 <= ipRow < |rows| && -1 <= macRow < |rows| && oldest < |rows|
      && (forall x :: 0 <= x < |rows| ==> !IsExact(rows[x], mac, ip))
      && (if ipRow >= 0 then rows[ipRow].ip == ip else !Holds(rows, ip))
      && (if macRow >= 0 then HasMac(rows[macRow], mac) && rows[macRow].ip != ip
          else forall x :: 0 <= x < |rows| ==> !HasMac(rows[x], mac))
      && (ipRow >= 0 && mac.Some? ==> forall j :: ipRow < j < |rows| ==> rows[j].ip != ip)
      && (ipRow >= 0 && mac.None? ==> forall j :: 0 <= j < ipRow ==> rows[j].ip != ip)
      && (macRow >= 0 ==> forall j :: macRow < j < |rows| ==> HasMac(rows[j], mac) ==> rows[j].ip == ip)
      && (ipRow < 0 && macRow < 0 ==> IsOldest(rows, oldest))
  }

  /** The row that will hold the address. */
  function UseRow(l: Location): int {
    match l
    case Exact(x) => x
    case Elsewhere(ipRow, macRow, oldest) => if macRow >= 0 then macRow else if ipRow >= 0 then ipRow else oldest
  }

  /** A row for an address: complete, or waiting for the MAC address. */
  function NewRow(cfg: Config, r: Row, mac: Option<Mac>, ip: Ip, endPoint: EndPointRef, known: bool): Row {
    match mac
    case Some(m) => Row(ip, m, cfg.maxAge, true, endPoint)
    case None => if known then r else r.(ip := ip, age := cfg.retransmissions, valid := false)
  }

  function Placed(cfg: Config, rows: Rows, mac: Option<Mac>, ip: Ip, endPoint: EndPointRef, l: Location): Rows
    requires -1 <= UseRow(l) < |rows| && UseRow(l) >= 0
    requires l.Elsewhere? ==> -1 <= l.ipRow < |rows|
  {
    match l
    case Exact(x) => rows[x := rows[x].(age := cfg.maxAge, valid := true, endPoint := endPoint)]
    case Elsewhere(ipRow, macRow, _) =>
      var cleared := if macRow >= 0 && ipRow >= 0 then rows[ipRow := EMPTY] else rows;
      cleared[UseRow(l) := NewRow(cfg, cleared[UseRow(l)], mac, ip, endPoint, ipRow >= 0)]
  }

  /** `vARPRefreshCacheEntry` for a local address. */
  ghost predicate Refreshed(cfg: Config, rows: Rows, mac: Option<Mac>, ip: Ip, endPoint: EndPointRef, l: Location,
                            rows': Rows)
  {
    Locates(rows, mac, ip, l) && rows' == Placed(cfg, rows, mac, ip, endPoint, l)
  }

  /** The address that loses its row; 0 when there is none. */
  function Victim(rows: Rows, ip: Ip, l: Location): Ip
    requires 0 <= UseRow(l) < |rows|
  {
    if rows[UseRow(l)].ip == ip then 0 else rows[UseRow(l)].ip
  }

  function AgedRow(r: Row): Row {
    if r.age == 0 then r
    else if r.age == 1 then r.(age := 0, ip := 0)
    else r.(age := r.age - 1)
  }

  /** `vARPAgeCache`. */
  function Aged(rows: Rows): Rows {
    seq(|rows|, x requires 0 <= x < |rows| => AgedRow(rows[x]))
  }

  function ClearedRow(r: Row, endPoint: EndPointRef): Row {
    if endPoint == 0 || r.endPoint == endPoint then EMPTY else r
  }

  /** `FreeRTOS_ClearARP`; 0 clears all rows. */
  function Cleared(rows: Rows, endPoint: EndPointRef): Rows {
    seq(|rows|, x requires 0 <= x < |rows| => ClearedRow(rows[x], endPoint))
  }

  /** The first row with both addresses gets the full age: `vARPRefreshCacheEntryAge`. */
  ghost predicate Touched(cfg: Config, rows: Rows, mac: Option<Mac>, ip: Ip, rows': Rows) {
    || (rows' == rows && forall x :: 0 <= x < |rows| ==> !IsExact(rows[x], mac, ip))
    || exists x :: TouchedAt(cfg, rows, mac, ip, x, rows')
  }

  ghost predicate TouchedAt(cfg: Config, rows: Rows, mac: Option<Mac>, ip: Ip, x: nat, rows': Rows) {
    && x < |rows| && IsExact(rows[x], mac, ip) && rows' == rows[x := rows[x].(age := cfg.maxAge)]
    && forall j :: 0 <= j < x ==> !IsExact(rows[j], mac, ip)
  }

  /** The first row with the MAC address is cleared: `ulARPRemoveCacheEntryByMac`. */
  ghost predicate Removed(rows: Rows, mac: Mac, ip: Ip, rows': Rows) {
    || (rows' == rows && ip == 0 && forall x :: 0 <= x < |rows| ==> rows[x].mac != mac)
    || exists x :: RemovedAt(rows, mac, ip, x, rows')
  }

  ghost predicate RemovedAt(rows: Rows, mac: Mac, ip: Ip, x: nat, rows': Rows) {
    && x < |rows| && rows[x].mac == mac && rows[x].ip == ip && rows' == rows[x := EMPTY]
    && forall j :: 0 <= j < x ==> rows[j].mac != mac
  }

  // ---------------------------------------------------------------------------
  // Runs.
  // ---------------------------------------------------------------------------

  /** A call; `local` is whether the address is on the network of an end-point. */
  datatype Call =
    | Refresh(mac: Option<Mac>, ip: Ip, endPoint: EndPointRef, local: bool)
    | Touch(mac: Option<Mac>, ip: Ip)
    | Age
    | Clear(endPoint: EndPointRef)
    | Remove(removed: Mac)

  ghost predicate Step(cfg: Config, rows: Rows, call: Call, rows': Rows) {
    match call
    case Refresh(mac, ip, endPoint, local) =>
      if local then exists l :: Refreshed(cfg, rows, mac, ip, endPoint, l, rows') else rows' == rows
    case Touch(mac, ip) => Touched(cfg, rows, mac, ip, rows')
    case Age => rows' == Aged(rows)
    case Clear(endPoint) => rows' == Cleared(rows, endPoint)
    case Remove(mac) => exists ip :: Removed(rows, mac, ip, rows')
  }

  /** The tables before, between and after the calls. */
  ghost predicate Run(cfg: Config, tables: seq<Rows>, calls: seq<Call>) {
    && |tables| == |calls| + 1
    && forall k :: 0 <= k < |calls| ==> Step(cfg, tables[k], calls[k], tables[k + 1])
  }

  ghost predicate Initial(rows: Rows) {
    forall x :: 0 <= x < |rows| ==> rows[x] == EMPTY
  }

  lemma RefreshUnique(cfg: Config, rows: Rows, mac: Option<Mac>, ip: Ip, endPoint: EndPointRef, l: Location,
                      rows': Rows)
    requires Unique(rows) && Refreshed(cfg, rows, mac, ip, endPoint, l, rows')
    ensures Unique(rows')
  {
  }

  lemma StepUnique(cfg: Config, rows: Rows, call: Call, rows': Rows)
    requires Unique(rows) && Step(cfg, rows, call, rows')
    ensures Unique(rows')
  {
    match call
    case Refresh(mac, ip, endPoint, local) =>
      if local {
        var l :| Refreshed(cfg, rows, mac, ip, endPoint, l, rows');
        RefreshUnique(cfg, rows, mac, ip, endPoint, l, rows');
      }
    case Touch(mac, ip) =>
    case Age =>
    case Clear(endPoint) =>
    case Remove(mac) =>
  }

  lemma StepLive(cfg: Config, rows: Rows, call: Call, rows': Rows)
    requires cfg.maxAge > 0 && cfg.retransmissions > 0
    requires Live(rows) && Step(cfg, rows, call, rows')
    ensures Live(rows')
  {
    match call
    case Refresh(mac, ip, endPoint, local) =>
      if local {
        var l :| Refreshed(cfg, rows, mac, ip, endPoint, l, rows');
      }
    case Touch(mac, ip) =>
    case Age =>
    case Clear(endPoint) =>
    case Remove(mac) =>
  }

  /** In every reachable state the addresses are unique and rows with an address are live. */
  lemma {:induction false} ReachableSound(cfg: Config, tables: seq<Rows>, calls: seq<Call>, k: nat)
    requires Run(cfg, tables, calls) && Initial(tables[0]) && k < |tables|
    ensures Unique(tables[k])
    ensures cfg.maxAge > 0 && cfg.retransmissions > 0 ==> Live(tables[k])
    decreases k
  {
    if k > 0 {
      ReachableSound(cfg, tables, calls, k - 1);
      StepUnique(cfg, tables[k - 1], calls[k - 1], tables[k]);
      if cfg.maxAge > 0 && cfg.retransmissions > 0 {
        StepLive(cfg, tables[k - 1], calls[k - 1], tables[k]);
      }
    }
  }

  // ---------------------------------------------------------------------------
  // Refreshing is an update of the map.
  // ---------------------------------------------------------------------------

  /** The refreshed address is found, with exactly the MAC address and the end-point. */
  lemma RefreshHits(cfg: Config, rows: Rows, mac: Mac, ip: Ip, endPoint: EndPointRef, l: Location, rows': Rows)
    requires Unique(rows) && ip != 0 && Refreshed(cfg, rows, Some(mac), ip, endPoint, l, rows')
    ensures LookupIp(rows', ip) == Hit(mac, endPoint)
  {
    RefreshUnique(cfg, rows, Some(mac), ip, endPoint, l, rows');
    LookupRow(rows', ip, UseRow(l));
  }

  /** A reservation waits for the reply, and does not touch an address that has a row. */
  lemma ReserveWaits(cfg: Config, rows: Rows, ip: Ip, endPoint: EndPointRef, l: Location, rows': Rows)
    requires Unique(rows) && ip != 0 && Refreshed(cfg, rows, None, ip, endPoint, l, rows')
    ensures if Holds(rows, ip) then rows' == rows else LookupIp(rows', ip) == Waiting
  {
    if Holds(rows, ip) {
      assert rows[l.ipRow].ip == ip && rows' == rows[l.ipRow := rows[l.ipRow]];
    } else {
      RefreshUnique(cfg, rows, None, ip, endPoint, l, rows');
      LookupRow(rows', ip, UseRow(l));
    }
  }

  /** A row of another address is kept unless the new entry is put there. */
  lemma RefreshKeepsRow(cfg: Config, rows: Rows, mac: Option<Mac>, ip: Ip, endPoint: EndPointRef, l: Location,
                        rows': Rows, x: nat)
    requires Unique(rows) && Refreshed(cfg, rows, mac, ip, endPoint, l, rows')
    requires x < |rows| && rows[x].ip != ip && x != UseRow(l)
    ensures rows'[x] == rows[x]
  {
  }

  /** One other address at most loses its row; all other look-ups give the same result. */
  lemma RefreshKeepsOthers(cfg: Config, rows: Rows, mac: Option<Mac>, ip: Ip, endPoint: EndPointRef, l: Location,
                           rows': Rows, other: Ip)
    requires Unique(rows) && Refreshed(cfg, rows, mac, ip, endPoint, l, rows')
    requires other != 0 && other != ip
    ensures LookupIp(rows', other) == if other == Victim(rows, ip, l) then Miss else LookupIp(rows, other)
  {
    RefreshUnique(cfg, rows, mac, ip, endPoint, l, rows');
    if x :| 0 <= x < |rows| && rows[x].ip == other {
      if x == UseRow(l) {
        forall y | 0 <= y < |rows|
          ensures rows'[y].ip != other
        {
          if y != x && rows[y].ip != ip {
            RefreshKeepsRow(cfg, rows, mac, ip, endPoint, l, rows', y);
          }
        }
        LookupMisses(rows', other, 0);
      } else {
        RefreshKeepsRow(cfg, rows, mac, ip, endPoint, l, rows', x);
        LookupRow(rows, other, x);
        LookupRow(rows', other, x);
      }
    } else {
      LookupMisses(rows, other, 0);
      LookupMisses(rows', other, 0);
    }
  }

  /** An address loses its row to another one with the same MAC address, or, when neither
      address was known, because its row was the oldest of all and none was free. */
  lemma RefreshEvictsOldest(rows: Rows, mac: Option<Mac>, ip: Ip, l: Location)
    requires Live(rows) && Locates(rows, mac, ip, l) && Victim(rows, ip, l) != 0
    ensures var evicted := rows[UseRow(l)];
            || HasMac(evicted, mac)
            || forall x :: 0 <= x < |rows| ==> rows[x].age >= evicted.age > 0
  {
  }

  // ---------------------------------------------------------------------------
  // Ageing.
  // ---------------------------------------------------------------------------

  function AgedTimes(rows: Rows, n: nat): Rows {
    if n == 0 then rows else Aged(AgedTimes(rows, n - 1))
  }

  /** After `n` periods a row of age more than `n` is `n` younger, any other one has expired. */
  lemma {:induction false} AgedTimesRow(rows: Rows, n: nat, x: nat)
    requires x < |rows| && rows[x].ip != 0 && rows[x].age > 0
    ensures |AgedTimes(rows, n)| == |rows|
    ensures AgedTimes(rows, n)[x]
         == if n < rows[x].age then rows[x].(age := rows[x].age - n) else rows[x].(age := 0, ip := 0)
    decreases n
  {
    if n > 0 {
      AgedTimesRow(rows, n - 1, x);
    }
  }

  lemma {:induction false} AgedTimesUnique(rows: Rows, n: nat)
    requires Unique(rows)
    ensures |AgedTimes(rows, n)| == |rows| && Unique(AgedTimes(rows, n))
    ensures forall x :: 0 <= x < |rows| ==> AgedTimes(rows, n)[x].ip == 0 || AgedTimes(rows, n)[x].ip == rows[x].ip
    decreases n
  {
    if n > 0 {
      AgedTimesUnique(rows, n - 1);
    }
  }

  /** An entry of age n is found with the same result until the nth period, and is a miss
      from then on. */
  lemma ExpiresExactly(rows: Rows, x: nat, n: nat)
    requires Unique(rows) && Live(rows) && x < |rows| && rows[x].ip != 0
    ensures LookupIp(AgedTimes(rows, n), rows[x].ip)
         == if n < rows[x].age then LookupIp(rows, rows[x].ip) else Miss
  {
    RowLives(rows, x, n);
  }

  /** The call gives no new age to a row of `ip`. */
  predicate Leaves(call: Call, ip: Ip) {
    match call
    case Refresh(_, other, _, local) => other != ip || !local
    case Touch(_, other) => other != ip
    case Age => true
    case Clear(_) => true
    case Remove(_) => true
  }

  function Periods(calls: seq<Call>): nat {
    if |calls| == 0 then 0 else Periods(calls[..|calls| - 1]) + if calls[|calls| - 1].Age? then 1 else 0
  }

  /** The rows of `ip` are not younger than `limit`. */
  ghost predicate AtMost(rows: Rows, ip: Ip, limit: int) {
    forall x :: 0 <= x < |rows| && rows[x].ip == ip ==> rows[x].age <= limit
  }

  lemma StepAtMost(cfg: Config, rows: Rows, call: Call, rows': Rows, ip: Ip, limit: int)
    requires ip != 0 && AtMost(rows, ip, limit) && Leaves(call, ip) && Step(cfg, rows, call, rows')
    requires Live(rows)
    ensures AtMost(rows', ip, if call.Age? then limit - 1 else limit)
  {
    match call
    case Refresh(mac, other, endPoint, local) =>
      if local {
        var l :| Refreshed(cfg, rows, mac, other, endPoint, l, rows');
      }
    case Touch(mac, other) =>
    case Age =>
    case Clear(endPoint) =>
    case Remove(mac) =>
  }

  lemma AgeNext(cfg: Config, rows: Rows, call: Call, rows': Rows, ip: Ip, limit: int)
    requires cfg.maxAge > 0 && cfg.retransmissions > 0
    requires Live(rows) && ip != 0 && AtMost(rows, ip, limit) && Leaves(call, ip) && Step(cfg, rows, call, rows')
    ensures Live(rows') && AtMost(rows', ip, if call.Age? then limit - 1 else limit)
  {
    StepAtMost(cfg, rows, call, rows', ip, limit);
    StepLive(cfg, rows, call, rows');
  }

  lemma RunFront(cfg: Config, tables: seq<Rows>, calls: seq<Call>, last: nat) returns (front: seq<Rows>)
    requires Run(cfg, tables, calls) && |calls| == last + 1
    ensures front == tables[..|calls|] && Run(cfg, front, calls[..last])
    ensures front[0] == tables[0] && Step(cfg, front[last], calls[last], tables[last + 1])
  {
    front := tables[..|calls|];
  }

  /** Over any run in which nothing refreshes the address, its row loses one unit of age in
      each period, whatever else is stored, cleared or removed in between. */
  lemma {:induction false} AgeOverRun(cfg: Config, tables: seq<Rows>, calls: seq<Call>, ip: Ip, limit: int)
    requires cfg.maxAge > 0 && cfg.retransmissions > 0
    requires Run(cfg, tables, calls) && Live(tables[0]) && ip != 0 && AtMost(tables[0], ip, limit)
    requires forall k :: 0 <= k < |calls| ==> Leaves(calls[k], ip)
    ensures Live(tables[|calls|]) && AtMost(tables[|calls|], ip, limit - Periods(calls))
    decreases |calls|
  {
    if |calls| > 0 {
      var last := |calls| - 1;
      var front := RunFront(cfg, tables, calls, last);
      AgeOverRun(cfg, front, calls[..last], ip, limit);
      AgeNext(cfg, front[last], calls[last], tables[last + 1], ip, limit - Periods(calls[..last]));
    }
  }

  /** An address that is not refreshed is a miss after as many periods as its age. */
  lemma ExpiresOverRun(cfg: Config, tables: seq<Rows>, calls: seq<Call>, ip: Ip, age: nat)
    requires cfg.maxAge > 0 && cfg.retransmissions > 0
    requires Run(cfg, tables, calls) && Live(tables[0]) && ip != 0 && AtMost(tables[0], ip, age)
    requires forall k :: 0 <= k < |calls| ==> Leaves(calls[k], ip)
    requires Periods(calls) >= age
    ensures LookupIp(tables[|calls|], ip) == Miss
  {
    AgeOverRun(cfg, tables, calls, ip, age);
    LookupMisses(tables[|calls|], ip, 0);
  }

  /** With an age of 0 configured, a row that is stored never expires. */
  lemma ZeroAgeNeverExpires(cfg: Config, rows: Rows, mac: Mac, ip: Ip, endPoint: EndPointRef, l: Location,
                            rows': Rows, n: nat)
    requires cfg.maxAge == 0 && ip != 0 && Unique(rows) && Refreshed(cfg, rows, Some(mac), ip, endPoint, l, rows')
    ensures !Live(rows') && LookupIp(AgedTimes(rows', n), ip) == Hit(mac, endPoint)
  {
    var x := UseRow(l);
    assert rows'[x] == Row(ip, mac, 0, true, endPoint);
    RefreshUnique(cfg, rows, Some(mac), ip, endPoint, l, rows');
    AgedTimesUnique(rows', n);
    StaysAtZero(rows', n, x);
    LookupRow(AgedTimes(rows', n), ip, x);
  }

  /** With no retransmission configured, an address that is reserved waits for ever. */
  lemma ZeroAgeWaitsForever(cfg: Config, rows: Rows, ip: Ip, endPoint: EndPointRef, l: Location, rows': Rows, n: nat)
    requires cfg.retransmissions == 0 && ip != 0 && Unique(rows) && !Holds(rows, ip)
    requires Refreshed(cfg, rows, None, ip, endPoint, l, rows')
    ensures !Live(rows') && LookupIp(AgedTimes(rows', n), ip) == Waiting
  {
    var x := UseRow(l);
    assert rows'[x].ip == ip && rows'[x].age == 0 && !rows'[x].valid;
    RefreshUnique(cfg, rows, None, ip, endPoint, l, rows');
    AgedTimesUnique(rows', n);
    StaysAtZero(rows', n, x);
    LookupRow(AgedTimes(rows', n), ip, x);
  }

  lemma {:induction false} StaysAtZero(rows: Rows, n: nat, x: nat)
    requires x < |rows| && rows[x].age == 0
    ensures |AgedTimes(rows, n)| == |rows| && AgedTimes(rows, n)[x] == rows[x]
    decreases n
  {
    if n > 0 {
      StaysAtZero(rows, n - 1, x);
    }
  }

  /** After clearing an end-point no look-up returns it. */
  lemma {:induction false} ClearedIsGone(rows: Rows, endPoint: EndPointRef, ip: Ip, i: nat)
    requires i <= |rows|
    ensures var r := LookupFrom(Cleared(rows, endPoint), ip, i); r.Hit? ==> r.endPoint != endPoint
    decreases |rows| - i
  {
    if i < |rows| {
      ClearedIsGone(rows, endPoint, ip, i + 1);
    }
  }

  /** Clearing an end-point removes exactly its addresses; clearing all of them, all addresses. */
  lemma ClearedExactly(rows: Rows, endPoint: EndPointRef, ip: Ip, x: nat)
    requires Unique(rows) && ip != 0 && x < |rows| && rows[x].ip == ip
    ensures LookupIp(Cleared(rows, endPoint), ip)
         == if endPoint == 0 || rows[x].endPoint == endPoint then Miss else LookupIp(rows, ip)
  {
    var rows' := Cleared(rows, endPoint);
    LookupRow(rows, ip, x);
    if endPoint == 0 || rows[x].endPoint == endPoint {
      LookupMisses(rows', ip, 0);
    } else {
      assert rows'[x] == rows[x];
      LookupFinds(rows', ip, 0, x);
    }
  }

  /** An entry that is touched is found as before, and for as many periods as a new one. */
  lemma TouchedLives(cfg: Config, rows: Rows, mac: Mac, ip: Ip, rows': Rows, x: nat, n: nat)
    requires cfg.maxAge > 0 && Unique(rows) && Live(rows) && ip != 0
    requires x < |rows| && rows[x].ip == ip && rows[x].mac == mac
    requires Touched(cfg, rows, Some(mac), ip, rows')
    ensures LookupIp(rows', ip) == LookupIp(rows, ip)
    ensures LookupIp(AgedTimes(rows', n), ip) == if n < cfg.maxAge then LookupIp(rows, ip) else Miss
  {
    assert IsExact(rows[x], Some(mac), ip);
    var y: nat :| TouchedAt(cfg, rows, Some(mac), ip, y, rows');
    assert y == x;
    assert Unique(rows') && Live(rows');
    LookupRow(rows, ip, x);
    LookupRow(rows', ip, x);
    ExpiresExactly(rows', x, n);
  }

  /** A stored address is found for as many periods as the configured age, and is a miss from then
      on. */
  lemma StoredLives(cfg: Config, rows: Rows, mac: Mac, ip: Ip, endPoint: EndPointRef, l: Location, rows': Rows, n: nat)
    requires cfg.maxAge > 0 && Unique(rows) && ip != 0 && Refreshed(cfg, rows, Some(mac), ip, endPoint, l, rows')
    ensures LookupIp(AgedTimes(rows', n), ip) == if n < cfg.maxAge then Hit(mac, endPoint) else Miss
  {
    RefreshUnique(cfg, rows, Some(mac), ip, endPoint, l, rows');
    RefreshHits(cfg, rows, mac, ip, endPoint, l, rows');
    assert rows'[UseRow(l)].ip == ip && rows'[UseRow(l)].age == cfg.maxAge;
    RowLives(rows', UseRow(l), n);
  }

  /** An address that is reserved waits for as many periods as there are retransmissions. */
  lemma ReservedWaits(cfg: Config, rows: Rows, ip: Ip, endPoint: EndPointRef, l: Location, rows': Rows, n: nat)
    requires cfg.retransmissions > 0 && Unique(rows) && ip != 0 && !Holds(rows, ip)
    requires Refreshed(cfg, rows, None, ip, endPoint, l, rows')
    ensures LookupIp(AgedTimes(rows', n), ip) == if n < cfg.retransmissions then Waiting else Miss
  {
    RefreshUnique(cfg, rows, None, ip, endPoint, l, rows');
    ReserveWaits(cfg, rows, ip, endPoint, l, rows');
    assert rows'[UseRow(l)].ip == ip && rows'[UseRow(l)].age == cfg.retransmissions;
    RowLives(rows', UseRow(l), n);
  }

  lemma RowLives(rows: Rows, x: nat, n: nat)
    requires Unique(rows) && x < |rows| && rows[x].ip != 0 && rows[x].age > 0
    ensures LookupIp(AgedTimes(rows, n), rows[x].ip)
         == if n < rows[x].age then LookupIp(rows, rows[x].ip) else Miss
  {
    AgedTimesUnique(rows, n);
    AgedTimesRow(rows, n, x);
    LookupRow(rows, rows[x].ip, x);
    if n < rows[x].age {
      LookupRow(AgedTimes(rows, n), rows[x].ip, x);
    } else {
      LookupMisses(AgedTimes(rows, n), rows[x].ip, 0);
    }
  }

  /** Removing a MAC address removes exactly its row. */
  lemma RemovedExactly(rows: Rows, mac: Mac, removed: Ip, rows': Rows, ip: Ip)
    requires Unique(rows) && mac != 0 && ip != 0 && Removed(rows, mac, removed, rows')
    ensures forall x :: 0 <= x < |rows'| ==> rows'[x].mac != mac
    ensures LookupIp(rows', ip) == if ip == removed then Miss else LookupIp(rows, ip)
  {
    if x: nat :| RemovedAt(rows, mac, removed, x, rows') {
      RemovedRow(rows, mac, removed, x, rows', ip);
    }
  }

  lemma RemovedRow(rows: Rows, mac: Mac, removed: Ip, x: nat, rows': Rows, ip: Ip)
    requires Unique(rows) && mac != 0 && ip != 0 && RemovedAt(rows, mac, removed, x, rows')
    ensures forall y :: 0 <= y < |rows'| ==> rows'[y].mac != mac
    ensures LookupIp(rows', ip) == if ip == removed then Miss else LookupIp(rows, ip)
  {
    if ip == removed {
      LookupMisses(rows', ip, 0);
    } else if y :| 0 <= y < |rows| && rows[y].ip == ip {
      LookupRow(rows, ip, y);
      LookupFinds(rows', ip, 0, y);
    } else {
      LookupMisses(rows, ip, 0);
      LookupMisses(rows', ip, 0);
    }
  }

  /** Every table that can be reached from the empty one is live. */
  ghost predicate AlwaysLive(cfg: Config) {
    forall tables: seq<Rows>, calls: seq<Call>, k: nat ::
      Run(cfg, tables, calls) && Initial(tables[0]) && k < |tables| ==> Live(tables[k])
  }

  /** With a configured age of 0, storing or reserving one address is enough. */
  lemma DeadAfterOneCall(cfg: Config)
    requires cfg.maxAge == 0 || cfg.retransmissions == 0
    ensures !AlwaysLive(cfg)
  {
    var mac: Option<Mac> := if cfg.maxAge == 0 then Some(1) else None;
    var rows, l := [EMPTY], Elsewhere(-1, -1, 0);
    var rows' := Placed(cfg, rows, mac, 1, 0, l);
    assert Refreshed(cfg, rows, mac, 1, 0, l, rows');
    assert Step(cfg, rows, Refresh(mac, 1, 0, true), rows');
    var tables, calls := [rows, rows'], [Refresh(mac, 1, 0, true)];
    assert Run(cfg, tables, calls) && Initial(tables[0]);
    assert tables[1][0].ip == 1 && tables[1][0].age == 0;
    assert !Live(tables[1]);
  }

  /** Rows with an address are live in every run if and only if both ages are configured to be
      positive. */
  lemma LiveExactly(cfg: Config)
    ensures cfg.maxAge > 0 && cfg.retransmissions > 0 <==> AlwaysLive(cfg)
  {
    if cfg.maxAge > 0 && cfg.retransmissions > 0 {
      forall tables: seq<Rows>, calls: seq<Call>, k: nat
        | Run(cfg, tables, calls) && Initial(tables[0]) && k < |tables|
        ensures Live(tables[k])
      {
        ReachableSound(cfg, tables, calls, k);
      }
    } else {
      DeadAfterOneCall(cfg);
    }
  }

  // ---------------------------------------------------------------------------
  // The table.
  // ---------------------------------------------------------------------------

  /** `arpMAX_ARP_AGE_BEFORE_NEW_ARP_REQUEST`. */
  const MAX_AGE_BEFORE_REQUEST := 3

  /** Ageing asks for the address of a row that waits or is about to expire. */
  predicate IsRequested(r: Row) {
    r.age > 0 && (!r.valid || r.age - 1 <= MAX_AGE_BEFORE_REQUEST)
  }

  function Requests(rows: Rows, n: nat): seq<Ip>
    requires n <= |rows|
  {
    if n == 0 then [] else Requests(rows, n - 1) + if IsRequested(rows[n - 1]) then [rows[n - 1].ip] else []
  }

  /** Ageing asks for exactly the addresses that wait, and those that have three periods left or
      less; among them are all that expire in this period. */
  lemma {:induction false} RequestsExactly(rows: Rows, n: nat, ip: Ip)
    requires n <= |rows|
    ensures ip in Requests(rows, n)
       <==> exists x :: 0 <= x < n && rows[x].ip == ip && rows[x].age > 0
                        && (!rows[x].valid || AgedRow(rows[x]).age <= 3)
    ensures forall x :: 0 <= x < n && rows[x].ip != 0 && AgedRow(rows[x]).ip == 0 ==> rows[x].ip in Requests(rows, n)
    decreases n
  {
    if n > 0 {
      RequestsExactly(rows, n - 1, ip);
      forall x | 0 <= x < n && rows[x].ip != 0 && AgedRow(rows[x]).ip == 0
        ensures rows[x].ip in Requests(rows, n)
      {
        if x < n - 1 {
          RequestsExactly(rows, n - 1, rows[x].ip);
        }
      }
    }
  }

  /** `arpGRATUITOUS_ARP_PERIOD`, in ticks of a millisecond. */
  const GRATUITOUS_PERIOD := 20000

  /** What announcing looks at in an end-point. */
  datatype EndPoint = EndPoint(up: bool, isIPv6: bool, ip: Ip)

  predicate IsAnnounced(e: EndPoint) {
    e.up && e.ip != 0 && !e.isIPv6
  }

  function Announced(endPoints: seq<EndPoint>, n: nat): seq<Ip>
    requires n <= |endPoints|
  {
    if n == 0 then []
    else Announced(endPoints, n - 1) + if IsAnnounced(endPoints[n - 1]) then [endPoints[n - 1].ip] else []
  }

  /** The addresses are due to be announced again; the tick counter may have wrapped. */
  predicate IsDue(last: Word32, now: Word32) {
    last == 0 || Wrap32(0x1_0000_0000 + now - last) > GRATUITOUS_PERIOD
  }

  /** Exactly the IPv4 addresses of the end-points that are up are announced. */
  lemma {:induction false} AnnouncedExactly(endPoints: seq<EndPoint>, n: nat, ip: Ip)
    requires n <= |endPoints|
    ensures ip in Announced(endPoints, n)
       <==> ip != 0 && exists i :: 0 <= i < n && endPoints[i] == EndPoint(true, false, ip)
    decreases n
  {
    if n > 0 {
      AnnouncedExactly(endPoints, n - 1, ip);
    }
  }

  /** Within a round of the 32-bit tick counter, they are announced again when more than 20 seconds
      have passed. */
  lemma DueExactly(last: nat, now: nat)
    requires last <= now < last + 0x1_0000_0000 && Wrap32(last) != 0
    ensures IsDue(Wrap32(last), Wrap32(now)) <==> now - last > 20000
  {
    WrapGap(last, now - last);
  }

  lemma WrapGap(last: nat, gap: nat)
    requires gap < 0x1_0000_0000
    ensures Wrap32(0x1_0000_0000 + Wrap32(last + gap) - Wrap32(last)) == gap
  {
    assert Wrap32(last + gap) == Wrap32(last) + gap || Wrap32(last + gap) == Wrap32(last) + gap - 0x1_0000_0000;
  }

  /** `xARPCache` and `xLastGratuitousARPTime`. */
  class Table {
    const rows: array<Row>
    const cfg: Config
    var lastAnnounced: Word32

    constructor (entries: nat, config: Config)
      requires entries > 0
      ensures fresh(rows) && rows.Length == entries && cfg == config && Initial(rows[..])
      ensures lastAnnounced == 0
    {
      lastAnnounced := 0;
      rows := new Row[entries](_ => EMPTY);
      cfg := config;
    }

    /** `xIsIPInARPCache`: true exactly when the look-up hits. */
    method IsIpInCache(ip: Ip) returns (found: bool)
      ensures found == LookupIp(rows[..], ip).Hit?
    {
      found := false;
      for x := 0 to rows.Length
        invariant LookupIp(rows[..], ip) == LookupFrom(rows[..], ip, x)
      {
        if rows[x].ip == ip {
          found := rows[x].valid;
          return;
        }
      }
    }

    /** `prvCacheLookup`. */
    method CacheLookup(ip: Ip) returns (result: Lookup)
      ensures result == LookupIp(rows[..], ip)
    {
      result := Miss;
      for x := 0 to rows.Length
        invariant LookupIp(rows[..], ip) == LookupFrom(rows[..], ip, x)
      {
        if rows[x].ip == ip {
          result := if rows[x].valid then Hit(rows[x].mac, rows[x].endPoint) else Waiting;
          return;
        }
      }
    }

    /** `prvFindCacheEntry`; a row with both addresses is refreshed at once. */
    method FindEntry(mac: Option<Mac>, ip: Ip, endPoint: EndPointRef)
      returns (ready: bool, ipRow: int, macRow: int, useRow: nat, ghost l: Location)
      requires rows.Length > 0
      modifies rows
      ensures Locates(old(rows[..]), mac, ip, l)
      ensures if ready then l.Exact? && Refreshed(cfg, old(rows[..]), mac, ip, endPoint, l, rows[..])
              else l == Elsewhere(ipRow, macRow, useRow) && rows[..] == old(rows[..])
    {
      var minAge: Byte := 0xFF;
      ready, ipRow, macRow, useRow := false, -1, -1, 0;
      for x := 0 to rows.Length
        invariant rows[..] == old(rows[..])
        invariant -1 <= ipRow < x && -1 <= macRow < x && useRow < rows.Length
        invariant mac.None? ==> ipRow < 0
        invariant forall j :: 0 <= j < x ==> !IsExact(rows[j], mac, ip)
        invariant if ipRow >= 0 then rows[ipRow].ip == ip else forall j :: 0 <= j < x ==> rows[j].ip != ip
        invariant if macRow >= 0 then HasMac(rows[macRow], mac) && rows[macRow].ip != ip
                  else forall j :: 0 <= j < x ==> HasMac(rows[j], mac) ==> rows[j].ip == ip
        invariant ipRow >= 0 ==> forall j :: ipRow < j < x ==> rows[j].ip != ip
        invariant macRow >= 0 ==> forall j :: macRow < j < x ==> HasMac(rows[j], mac) ==> rows[j].ip == ip
        invariant ipRow < 0 && macRow < 0 ==> forall j :: 0 <= j < x ==> rows[j].age >= minAge
        invariant minAge == 0xFF ==> useRow == 0
        invariant minAge < 0xFF ==>
          useRow < x && rows[useRow].age == minAge
          && (ipRow < 0 && macRow < 0 ==> forall j :: 0 <= j < useRow ==> rows[j].age > minAge)
      {
        var matchingMac := mac.Some? && rows[x].mac == mac.value;
        if rows[x].ip == ip {
          if mac.None? {
            ipRow := x;
            l := Elsewhere(ipRow, macRow, useRow);
            return;
          }
          if matchingMac {
            rows[x] := rows[x].(age := cfg.maxAge, valid := true, endPoint := endPoint);
            ready, l := true, Exact(x);
            return;
          }
          ipRow := x;
        } else if matchingMac {
          macRow := x;
        } else if rows[x].age < minAge {
          minAge := rows[x].age;
          useRow := x;
        }
      }
      l := Elsewhere(ipRow, macRow, useRow);
    }

    /** `vARPRefreshCacheEntry`. */
    method RefreshEntry(mac: Option<Mac>, ip: Ip, endPoint: EndPointRef, local: bool)
      requires rows.Length > 0
      modifies rows
      ensures Step(cfg, old(rows[..]), Refresh(mac, ip, endPoint, local), rows[..])
    {
      if !local {
        return;
      }
      ghost var before := rows[..];
      var ready, ipRow, macRow, useRow;
      ghost var l;
      ready, ipRow, macRow, useRow, l := FindEntry(mac, ip, endPoint);
      if !ready {
        if macRow >= 0 {
          useRow := macRow;
          if ipRow >= 0 {
            rows[ipRow] := EMPTY;
          }
        } else if ipRow >= 0 {
          useRow := ipRow;
        }
        rows[useRow] := rows[useRow].(ip := ip);
        if mac.Some? {
          rows[useRow] := rows[useRow].(mac := mac.value);
          rows[useRow] := rows[useRow].(age := cfg.maxAge, valid := true, endPoint := endPoint);
        } else if ipRow < 0 {
          rows[useRow] := rows[useRow].(age := cfg.retransmissions, valid := false);
        }
      }
      assert Refreshed(cfg, before, mac, ip, endPoint, l, rows[..]);
    }

    /** `vARPRefreshCacheEntryAge`. */
    method RefreshAge(mac: Option<Mac>, ip: Ip)
      modifies rows
      ensures Step(cfg, old(rows[..]), Touch(mac, ip), rows[..])
    {
      if mac.Some? {
        for x := 0 to rows.Length
          invariant rows[..] == old(rows[..])
          invariant forall j :: 0 <= j < x ==> !IsExact(rows[j], mac, ip)
        {
          if rows[x].ip == ip && rows[x].mac == mac.value {
            rows[x] := rows[x].(age := cfg.maxAge);
            assert TouchedAt(cfg, old(rows[..]), mac, ip, x, rows[..]);
            return;
          }
        }
      }
    }

    /** `vARPAgeCache`: the addresses that are asked for and those that are announced, in order. */
    method AgeCache(endPoints: seq<EndPoint>, now: Word32) returns (requests: seq<Ip>, announced: seq<Ip>)
      modifies this`lastAnnounced, rows
      ensures Step(cfg, old(rows[..]), Age, rows[..])
      ensures requests == Requests(old(rows[..]), rows.Length)
      ensures announced == if IsDue(old(lastAnnounced), now) then Announced(endPoints, |endPoints|) else []
      ensures lastAnnounced == if IsDue(old(lastAnnounced), now) then now else old(lastAnnounced)
    {
      requests := AgeRows();
      announced := [];
      if IsDue(lastAnnounced, now) {
        for i := 0 to |endPoints|
          invariant announced == Announced(endPoints, i)
        {
          if endPoints[i].up && endPoints[i].ip != 0 {
            if !endPoints[i].isIPv6 {
              announced := announced + [endPoints[i].ip];
            }
          }
        }
        lastAnnounced := now;
      }
    }

    /** The loop over the rows. */
    method AgeRows() returns (requests: seq<Ip>)
      modifies rows
      ensures Step(cfg, old(rows[..]), Age, rows[..])
      ensures requests == Requests(old(rows[..]), rows.Length)
    {
      requests := [];
      for x := 0 to rows.Length
        invariant forall j :: 0 <= j < x ==> rows[j] == AgedRow(old(rows[j]))
        invariant forall j :: x <= j < rows.Length ==> rows[j] == old(rows[j])
        invariant requests == Requests(old(rows[..]), x)
      {
        if rows[x].age > 0 {
          rows[x] := rows[x].(age := rows[x].age - 1);
          if !rows[x].valid {
            requests := requests + [rows[x].ip];
          } else if rows[x].age <= MAX_AGE_BEFORE_REQUEST {
            requests := requests + [rows[x].ip];
          }
          if rows[x].age == 0 {
            rows[x] := rows[x].(ip := 0);
          }
        }
      }
    }

    /** `FreeRTOS_ClearARP`. */
    method ClearArp(endPoint: EndPointRef)
      modifies rows
      ensures Step(cfg, old(rows[..]), Clear(endPoint), rows[..])
    {
      for x := 0 to rows.Length
        invariant forall j :: 0 <= j < x ==> rows[j] == ClearedRow(old(rows[j]), endPoint)
        invariant forall j :: x <= j < rows.Length ==> rows[j] == old(rows[j])
      {
        if endPoint == 0 || rows[x].endPoint == endPoint {
          rows[x] := EMPTY;
        }
      }
    }

    /** `ulARPRemoveCacheEntryByMac`. */
    method RemoveByMac(mac: Mac) returns (ip: Ip)
      modifies rows
      ensures Removed(old(rows[..]), mac, ip, rows[..])
      ensures Step(cfg, old(rows[..]), Remove(mac), rows[..])
    {
      ip := 0;
      for x := 0 to rows.Length
        invariant rows[..] == old(rows[..])
        invariant forall j :: 0 <= j < x ==> rows[j].mac != mac
      {
        if rows[x].mac == mac {
          ip := rows[x].ip;
          rows[x] := EMPTY;
          assert RemovedAt(old(rows[..]), mac, ip, x, rows[..]);
          return;
        }
      }
    }
  }
}
