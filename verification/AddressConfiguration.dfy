/**
  * The state machine of router discovery and address configuration: `vRAProcess`, with the
  * arrival of neighbour and router advertisements.
  */
module AddressConfiguration {
  import opened Words
  import opened RouterAdvertisement

  /** An IPv6 address; only equality matters here. */
  type Ip = seq<Byte>

  /** `eRAState_t`. */
  datatype Phase = Apply | Wait | IPTest | IPWait | PreLease | Lease | Failed

  /** `ipconfigRA_SEARCH_COUNT`, `ipconfigRA_IP_TEST_COUNT` and their time-outs. */
  datatype Config = Config(searches: nat, tests: nat, searchTimeout: nat, testTimeout: nat)

  /** The part of `IPV6Parameters_t` that is configured. */
  datatype Settings = Settings(address: Ip, prefixLength: nat, prefix: Ip, gateway: Ip)

  /** What the end-point did or learned, in order: a solicitation or a probe for an address was
      attempted, another device claimed the address, the end-point was brought up. */
  datatype Entry = Solicited | Probed(address: Ip) | Conflict(address: Ip) | Up(address: Ip)

  /** `RAData_t` with the settings; `reload` is the timer in ticks of a millisecond, 0 when
      disabled. */
  datatype State = State(phase: Phase, retry: nat, routerReplied: bool, addressInUse: bool, lifetime: nat,
                         settings: Settings, reload: nat, log: seq<Entry>)

  /** A timer call or a reset, and the two kinds of messages; `newIp` is the address that
      `FreeRTOS_CreateIPv6Address` would come up with. */
  datatype Call =
    | Process(reset: bool, newIp: Ip)
    | ReceiveNA(claimed: Ip)
    | ReceiveRA(offer: Offer, newIp: Ip)

  // ---------------------------------------------------------------------------
  // The steps.
  // ---------------------------------------------------------------------------

  /** `xRAProcess_HandleWaitStates`. */
  function Waited(cfg: Config, defaults: Settings, s: State): State {
    match s.phase
    case Wait =>
      if s.retry + 1 < cfg.searches then s.(retry := s.retry + 1, phase := Apply)
      else s.(settings := defaults, routerReplied := false, retry := 0, addressInUse := true, phase := IPTest)
    case IPWait =>
      if s.addressInUse then s.(retry := 0, phase := IPTest, reload := cfg.testTimeout)
      else if s.retry < cfg.tests then s.(retry := s.retry + 1, phase := IPTest, reload := cfg.testTimeout)
      else if s.routerReplied then
        s.(phase := PreLease, reload := Wrap32(1000 * s.lifetime), log := s.log + [Up(s.settings.address)])
      else s.(phase := Failed, reload := 0, log := s.log + [Up(s.settings.address)])
    case _ => s
  }

  /** `xRAProcess_HandleOtherStates`. */
  function Acted(cfg: Config, s: State, newIp: Ip): State {
    match s.phase
    case Apply => s.(phase := Wait, reload := cfg.searchTimeout, log := s.log + [Solicited])
    case IPTest =>
      var address := if s.addressInUse then newIp else s.settings.address;
      s.(phase := IPWait, addressInUse := false, settings := s.settings.(address := address), reload := 1000,
         log := s.log + [Probed(address)])
    case PreLease => s.(phase := Lease)
    case Lease => s.(phase := Apply, retry := 0, reload := 1000)
    case _ => s
  }

  function Reset(s: State): State {
    s.(retry := 0, phase := Apply)
  }

  /** `vRAProcess`. */
  function Processed(cfg: Config, defaults: Settings, s: State, reset: bool, newIp: Ip): State {
    var ready := (if reset then Reset(s) else s).(reload := 5000);
    Acted(cfg, Waited(cfg, defaults, ready), newIp)
  }

  /** The offer of a router is taken, and a new address is needed. */
  function Accepted(s: State, offer: Offer): State {
    s.(settings := Settings(s.settings.address, offer.prefixLength, offer.prefix, offer.router),
       routerReplied := true, retry := 0, lifetime := offer.preferredLifetime, addressInUse := true, phase := IPTest)
  }

  function Step(cfg: Config, defaults: Settings, s: State, call: Call): State {
    match call
    case Process(reset, newIp) => Processed(cfg, defaults, s, reset, newIp)
    case ReceiveNA(claimed) =>
      if s.phase == IPWait && s.settings.address == claimed
      then s.(addressInUse := true, reload := 100, log := s.log + [Conflict(claimed)]) else s
    case ReceiveRA(offer, newIp) =>
      if s.phase == Wait then Processed(cfg, defaults, Accepted(s, offer), false, newIp) else s
  }

  ghost predicate Run(cfg: Config, defaults: Settings, states: seq<State>, calls: seq<Call>) {
    && |states| == |calls| + 1
    && forall k :: 0 <= k < |calls| ==> states[k + 1] == Step(cfg, defaults, states[k], calls[k])
  }

  // ---------------------------------------------------------------------------
  // An end-point comes up only with a probed address.
  // ---------------------------------------------------------------------------

  /** The `n` entries in front of `i` are probes for `a`. */
  ghost predicate ProbedBefore(log: seq<Entry>, i: nat, a: Ip, n: nat) {
    n <= i <= |log| && forall j :: i - n <= j < i ==> log[j] == Probed(a)
  }

  ghost predicate UpsProbed(cfg: Config, log: seq<Entry>) {
    forall i :: 0 <= i < |log| && log[i].Up? ==> ProbedBefore(log, i, log[i].address, cfg.tests + 1)
  }

  /** While an address is probed, the latest entries are the probes for it. */
  ghost predicate Sound(cfg: Config, s: State) {
    && UpsProbed(cfg, s.log) && s.phase !in {IPTest, PreLease}
    && (s.phase == IPWait ==> s.retry <= cfg.tests)
    && (s.phase == IPWait && !s.addressInUse ==> ProbedBefore(s.log, |s.log|, s.settings.address, s.retry + 1))
  }

  lemma LogGrows(cfg: Config, log: seq<Entry>, e: Entry)
    requires UpsProbed(cfg, log)
    requires e.Up? ==> ProbedBefore(log, |log|, e.address, cfg.tests + 1)
    ensures UpsProbed(cfg, log + [e])
  {
    var longer := log + [e];
    forall i | 0 <= i < |longer| && longer[i].Up?
      ensures ProbedBefore(longer, i, longer[i].address, cfg.tests + 1)
    {
      if i < |log| {
        assert ProbedBefore(log, i, log[i].address, cfg.tests + 1);
      }
    }
  }

  /** Between the two halves of a step: the address to be probed next has been probed before
      as often as the retry count says. */
  ghost predicate Ready(cfg: Config, s: State) {
    && UpsProbed(cfg, s.log) && s.phase != IPWait
    && (s.phase == IPTest ==> s.retry <= cfg.tests)
    && (s.phase == IPTest && s.addressInUse ==> s.retry == 0)
    && (s.phase == IPTest && !s.addressInUse ==> ProbedBefore(s.log, |s.log|, s.settings.address, s.retry))
  }

  lemma WaitedReady(cfg: Config, defaults: Settings, s: State)
    requires Sound(cfg, s) || Ready(cfg, s)
    ensures Ready(cfg, Waited(cfg, defaults, s))
  {
    if s.phase == IPWait && !s.addressInUse && s.retry == cfg.tests {
      LogGrows(cfg, s.log, Up(s.settings.address));
    }
  }

  lemma ActedSound(cfg: Config, s: State, newIp: Ip)
    requires Ready(cfg, s)
    ensures Sound(cfg, Acted(cfg, s, newIp))
  {
    var acted := Acted(cfg, s, newIp);
    if s.phase in {Apply, IPTest} {
      LogGrows(cfg, s.log, acted.log[|s.log|]);
    }
  }

  lemma ProcessSound(cfg: Config, defaults: Settings, s: State, reset: bool, newIp: Ip)
    requires Sound(cfg, s) || Ready(cfg, s)
    ensures Sound(cfg, Processed(cfg, defaults, s, reset, newIp))
  {
    var ready := (if reset then Reset(s) else s).(reload := 5000);
    WaitedReady(cfg, defaults, ready);
    ActedSound(cfg, Waited(cfg, defaults, ready), newIp);
  }

  lemma StepSound(cfg: Config, defaults: Settings, s: State, call: Call)
    requires Sound(cfg, s)
    ensures Sound(cfg, Step(cfg, defaults, s, call))
  {
    match call
    case Process(reset, newIp) => ProcessSound(cfg, defaults, s, reset, newIp);
    case ReceiveNA(claimed) => LogGrows(cfg, s.log, Conflict(claimed));
    case ReceiveRA(offer, newIp) =>
      if s.phase == Wait {
        ProcessSound(cfg, defaults, Accepted(s, offer), false, newIp);
      }
  }

  /** Over every run, whatever arrives in between: an end-point is brought up with an address
      only directly after `tests` + 1 probes for it, without a conflict. */
  lemma {:induction false} UpOnlyAfterProbes(cfg: Config, defaults: Settings, states: seq<State>,
                                             calls: seq<Call>, k: nat)
    requires Run(cfg, defaults, states, calls) && k < |states|
    requires states[0].phase == Apply && states[0].log == []
    ensures Sound(cfg, states[k])
    decreases k
  {
    if k > 0 {
      UpOnlyAfterProbes(cfg, defaults, states, calls, k - 1);
      StepSound(cfg, defaults, states[k - 1], calls[k - 1]);
    }
  }

  // ---------------------------------------------------------------------------
  // Without an answer.
  // ---------------------------------------------------------------------------

  function Repeated(e: Entry, n: nat): (r: seq<Entry>)
    ensures |r| == n && forall j :: 0 <= j < n ==> r[j] == e
  {
    if n == 0 then [] else Repeated(e, n - 1) + [e]
  }

  /** The number of solicitations; one is sent even if 0 are configured. */
  function Searches(cfg: Config): nat {
    if cfg.searches == 0 then 1 else cfg.searches
  }

  /** A reset, and then only timer calls. */
  ghost predicate Silent(calls: seq<Call>) {
    && |calls| > 0 && calls[0].Process? && calls[0].reset
    && forall k :: 1 <= k < |calls| ==> calls[k].Process? && !calls[k].reset
  }

  /** The state after the reset and `n` - 1 more calls. */
  ghost predicate Expected(cfg: Config, defaults: Settings, s0: State, s: State, n: nat, a: Ip) {
    var searches := Searches(cfg);
    if n <= searches then
      s.phase == Wait && s.retry == n - 1 && s.log == s0.log + Repeated(Solicited, n)
    else if n <= searches + cfg.tests + 1 then
      && s.phase == IPWait && s.retry == n - searches - 1 && !s.addressInUse && !s.routerReplied
      && s.settings == defaults.(address := a)
      && s.log == s0.log + Repeated(Solicited, searches) + Repeated(Probed(a), n - searches)
    else
      && s.phase == Failed && s.reload == 0 && s.settings == defaults.(address := a)
      && s.log == s0.log + Repeated(Solicited, searches) + Repeated(Probed(a), cfg.tests + 1) + [Up(a)]
  }

  lemma ExpectedNext(cfg: Config, defaults: Settings, s0: State, s: State, n: nat, a: Ip, newIp: Ip)
    requires 1 <= n <= Searches(cfg) + cfg.tests + 1
    requires Expected(cfg, defaults, s0, s, n, a)
    requires n == Searches(cfg) ==> newIp == a
    ensures Expected(cfg, defaults, s0, Processed(cfg, defaults, s, false, newIp), n + 1, a)
  {
    var searches := Searches(cfg);
    if n < searches {
      assert s0.log + Repeated(Solicited, n + 1) == s0.log + Repeated(Solicited, n) + [Solicited];
    } else if n == searches {
      assert Repeated(Probed(a), 1) == [Probed(a)];
    } else if n <= searches + cfg.tests {
      var front := s0.log + Repeated(Solicited, searches);
      assert front + Repeated(Probed(a), n + 1 - searches) == front + Repeated(Probed(a), n - searches) + [Probed(a)];
    }
  }

  /** Without any message, the end-point is brought up in exactly call `searches` + `tests` + 1
      after the reset, with `searches` solicitations and `tests` + 1 probes for one address. */
  lemma {:induction false} SilentRun(cfg: Config, defaults: Settings, states: seq<State>,
                                     calls: seq<Call>, n: nat, a: Ip)
    requires Run(cfg, defaults, states, calls) && Silent(calls)
    requires 1 <= n <= |calls| && n <= Searches(cfg) + cfg.tests + 2
    requires Searches(cfg) < |calls| ==> calls[Searches(cfg)].newIp == a
    ensures Expected(cfg, defaults, states[0], states[n], n, a)
    decreases n
  {
    if n == 1 {
      assert Repeated(Solicited, 1) == [Solicited];
      assert states[1] == Step(cfg, defaults, states[0], calls[0]);
    } else {
      SilentRun(cfg, defaults, states, calls, n - 1, a);
      ExpectedNext(cfg, defaults, states[0], states[n - 1], n - 1, a, calls[n - 1].newIp);
    }
  }

  // ---------------------------------------------------------------------------
  // With an answer.
  // ---------------------------------------------------------------------------

  /** An end-point that waits and receives an offer takes its prefix, prefix length and router, with
      the new address, and probes that address at once. */
  lemma OfferTaken(cfg: Config, defaults: Settings, states: seq<State>, calls: seq<Call>, k: nat)
    requires Run(cfg, defaults, states, calls) && k < |calls| && calls[k].ReceiveRA? && states[k].phase == Wait
    ensures var s, offer, newIp := states[k + 1], calls[k].offer, calls[k].newIp;
            && s.settings == Settings(newIp, offer.prefixLength, offer.prefix, offer.router)
            && s.phase == IPWait && s.retry == 0 && !s.addressInUse && s.routerReplied
            && s.lifetime == offer.preferredLifetime && s.reload == 1000
            && s.log == states[k].log + [Probed(newIp)]
  {
    assert states[k + 1] == Step(cfg, defaults, states[k], calls[k]);
  }

  /** The state `n` timer calls after the offer was taken: the address is probed once more in each
      of `tests` calls, and then the end-point is brought up with it. */
  ghost predicate Announced(cfg: Config, s0: State, s: State, n: nat) {
    var a := s0.settings.address;
    && s.settings == s0.settings && s.routerReplied && s.lifetime == s0.lifetime
    && if n <= cfg.tests then
         && s.phase == IPWait && s.retry == n && !s.addressInUse
         && s.log == s0.log + Repeated(Probed(a), n)
       else s.phase == Lease && s.log == s0.log + Repeated(Probed(a), cfg.tests) + [Up(a)]
  }

  lemma AnnouncedNext(cfg: Config, defaults: Settings, s0: State, s: State, n: nat, newIp: Ip)
    requires n <= cfg.tests && Announced(cfg, s0, s, n)
    ensures Announced(cfg, s0, Processed(cfg, defaults, s, false, newIp), n + 1)
  {
    var a := s0.settings.address;
    assert s0.log + Repeated(Probed(a), n + 1) == s0.log + Repeated(Probed(a), n) + [Probed(a)];
  }

  /** Without a conflict, an end-point that has taken an offer is brought up in exactly call `tests`
      + 1 behind it, with the address that it took, and after `tests` + 1 probes for it. */
  lemma {:induction false} AnnouncedRun(cfg: Config, defaults: Settings, states: seq<State>, calls: seq<Call>,
                                        k: nat, n: nat)
    requires Run(cfg, defaults, states, calls) && k < |calls| && calls[k].ReceiveRA? && states[k].phase == Wait
    requires n <= cfg.tests + 1 && k + n < |calls|
    requires forall j :: k < j <= k + n ==> calls[j].Process? && !calls[j].reset
    ensures Announced(cfg, states[k + 1], states[k + 1 + n], n)
    decreases n
  {
    OfferTaken(cfg, defaults, states, calls, k);
    if n == 0 {
      assert states[k + 1].log + Repeated(Probed(states[k + 1].settings.address), 0) == states[k + 1].log;
    } else {
      AnnouncedRun(cfg, defaults, states, calls, k, n - 1);
      assert states[k + n + 1] == Step(cfg, defaults, states[k + n], calls[k + n]);
      AnnouncedNext(cfg, defaults, states[k + 1], states[k + n], n - 1, calls[k + n].newIp);
    }
  }

  /** When another device claims the address that is probed, the next timer call probes its new
      address, and the count of probes starts again. */
  lemma ConflictProbesNew(cfg: Config, defaults: Settings, states: seq<State>, calls: seq<Call>, k: nat)
    requires Run(cfg, defaults, states, calls) && k + 1 < |calls| && states[k].phase == IPWait
    requires calls[k] == ReceiveNA(states[k].settings.address)
    requires calls[k + 1].Process? && !calls[k + 1].reset
    ensures var s, s', newIp := states[k], states[k + 2], calls[k + 1].newIp;
            && states[k + 1].reload == 100
            && s'.settings == s.settings.(address := newIp) && s'.routerReplied == s.routerReplied
            && s'.phase == IPWait && s'.retry == 0 && !s'.addressInUse
            && s'.log == s.log + [Conflict(s.settings.address), Probed(newIp)]
  {
    assert states[k + 1] == Step(cfg, defaults, states[k], calls[k]);
    assert states[k + 2] == Step(cfg, defaults, states[k + 1], calls[k + 1]);
  }

  /** When the lease has run out, routers are asked again: two timer calls later a solicitation has
      been sent, and the address is kept meanwhile. */
  lemma LeaseRenewed(cfg: Config, defaults: Settings, states: seq<State>, calls: seq<Call>, k: nat)
    requires Run(cfg, defaults, states, calls) && k + 1 < |calls| && states[k].phase == Lease
    requires calls[k].Process? && !calls[k].reset && calls[k + 1].Process? && !calls[k + 1].reset
    ensures var s := states[k + 2];
            && s.phase == Wait && s.retry == 0 && s.settings == states[k].settings
            && s.log == states[k].log + [Solicited] && s.reload == cfg.searchTimeout
  {
    assert states[k + 1] == Step(cfg, defaults, states[k], calls[k]);
    assert states[k + 2] == Step(cfg, defaults, states[k + 1], calls[k + 1]);
  }

  /** Messages that come at another time change nothing. */
  lemma OthersIgnored(cfg: Config, defaults: Settings, states: seq<State>, calls: seq<Call>, k: nat)
    requires Run(cfg, defaults, states, calls) && k < |calls|
    requires (calls[k].ReceiveRA? && states[k].phase != Wait)
             || (calls[k].ReceiveNA? && !(states[k].phase == IPWait && states[k].settings.address == calls[k].claimed))
    ensures states[k + 1] == states[k]
  {
    assert states[k + 1] == Step(cfg, defaults, states[k], calls[k]);
  }

  // ---------------------------------------------------------------------------
  // The timer of a lease.
  // ---------------------------------------------------------------------------

  /** 1000 is 8 times 125, and 125 has an inverse modulo 2^29. */
  lemma MultipleOf1000(lifetime: nat, rounds: nat)
    requires 1000 * lifetime == 0x1_0000_0000 * rounds
    ensures lifetime == 0x2000_0000 * (115964117 * rounds - 27 * lifetime)
  {
    assert 125 * lifetime == 0x2000_0000 * rounds;
  }

  lemma WholeRounds(x: nat) returns (rounds: nat)
    requires Wrap32(x) == 0
    ensures x == 0x1_0000_0000 * rounds
  {
    rounds := x / 0x1_0000_0000;
  }

  lemma NoRemainder(x: nat, rounds: int)
    ensures x == 0x1_0000_0000 * rounds ==> Wrap32(x) == 0
    ensures x == 0x2000_0000 * rounds ==> x % 0x2000_0000 == 0
  {
  }

  lemma WrapsToZero(lifetime: nat)
    ensures Wrap32(1000 * lifetime) == 0 ==> lifetime % 0x2000_0000 == 0
  {
    if Wrap32(1000 * lifetime) == 0 {
      var rounds := WholeRounds(1000 * lifetime);
      MultipleOf1000(lifetime, rounds);
      NoRemainder(lifetime, 115964117 * rounds - 27 * lifetime);
    }
  }

  lemma ZeroWraps(lifetime: nat)
    ensures lifetime % 0x2000_0000 == 0 ==> Wrap32(1000 * lifetime) == 0
  {
    NoRemainder(1000 * lifetime, 125 * (lifetime / 0x2000_0000));
  }

  lemma LeaseTimer(lifetime: nat)
    ensures Wrap32(1000 * lifetime) == 1000 * lifetime <==> lifetime <= 4_294_967
  {
  }

  /** The end-point has been probed often enough, and a router has replied. */
  predicate LeaseStarts(cfg: Config, s: State) {
    s.phase == IPWait && !s.addressInUse && s.retry >= cfg.tests && s.routerReplied
  }

  /** When a lease starts, the timer is set to the preferred lifetime if and only if the lifetime
      in milliseconds fits 32 bits. It is disabled, so that the lease is never renewed, if and only
      if the lifetime is a multiple of 2^29 seconds. */
  lemma LeaseTimeExactly(cfg: Config, defaults: Settings, s: State, newIp: Ip)
    requires LeaseStarts(cfg, s)
    ensures var t := Processed(cfg, defaults, s, false, newIp);
            && t.phase == Lease && t.log == s.log + [Up(s.settings.address)]
            && (t.reload == 1000 * s.lifetime <==> s.lifetime <= 4_294_967)
            && (t.reload == 0 <==> s.lifetime % 0x2000_0000 == 0)
  {
    WrapsToZero(s.lifetime);
    ZeroWraps(s.lifetime);
    LeaseTimer(s.lifetime);
  }

  // ---------------------------------------------------------------------------
  // The end-point.
  // ---------------------------------------------------------------------------

  /** The fields of `NetworkEndPoint_t` that the process works on. */
  class EndPoint {
    const cfg: Config
    const defaults: Settings
    /** `bWantRA`. */
    const wanted: bool
    var phase: Phase
    var retry: nat
    var routerReplied: bool
    var addressInUse: bool
    var lifetime: nat
    var settings: Settings
    var reload: nat
    ghost var log: seq<Entry>

    constructor (config: Config, initial: Settings, wantRA: bool)
      ensures cfg == config && defaults == initial && wanted == wantRA && phase == Apply && log == []
    {
      cfg, defaults, settings, wanted := config, initial, initial, wantRA;
      phase, retry, routerReplied, addressInUse, lifetime, reload, log := Apply, 0, false, false, 0, 0, [];
    }

    ghost function Current(): State
      reads this
    {
      State(phase, retry, routerReplied, addressInUse, lifetime, settings, reload, log)
    }

    /** `xRAProcess_HandleWaitStates`. */
    method HandleWaitStates()
      modifies this
      ensures Current() == Waited(cfg, defaults, old(Current()))
    {
      if phase == Wait {
        retry := retry + 1;
        if retry < cfg.searches {
          phase := Apply;
        } else {
          settings := defaults;
          routerReplied, retry, addressInUse, phase := false, 0, true, IPTest;
        }
      } else if phase == IPWait {
        if addressInUse {
          retry, phase, reload := 0, IPTest, cfg.testTimeout;
        } else if retry < cfg.tests {
          retry, phase, reload := retry + 1, IPTest, cfg.testTimeout;
        } else {
          if routerReplied {
            reload, phase := Wrap32(1000 * lifetime), PreLease;
          } else {
            phase, reload := Failed, 0;
          }
          log := log + [Up(settings.address)];
        }
      }
    }

    /** `xRAProcess_HandleOtherStates`. */
    method HandleOtherStates(newIp: Ip)
      modifies this
      ensures Current() == Acted(cfg, old(Current()), newIp)
    {
      match phase
      case Apply =>
        log := log + [Solicited];
        reload, phase := cfg.searchTimeout, Wait;
      case IPTest =>
        if addressInUse {
          addressInUse := false;
          settings := settings.(address := newIp);
        }
        log := log + [Probed(settings.address)];
        reload, phase := 1000, IPWait;
      case PreLease =>
        phase := Lease;
      case Lease =>
        retry, phase := 0, Apply;
        reload := 1000;
      case _ =>
    }

    /** `vRAProcess`. */
    method RunProcess(reset: bool, newIp: Ip)
      modifies this
      ensures Current() == Step(cfg, defaults, old(Current()), Process(reset, newIp))
    {
      reload := 5000;
      if reset {
        retry, phase := 0, Apply;
      }
      HandleWaitStates();
      HandleOtherStates(newIp);
    }

    /** What a message does to the end-point. */
    ghost function Heard(s: State, call: Call): State {
      if wanted then Step(cfg, defaults, s, call) else s
    }

    /** The end-point in `vReceiveNA`. */
    method AcceptNA(claimed: Ip)
      modifies this
      ensures Current() == Heard(old(Current()), ReceiveNA(claimed))
    {
      if wanted && phase == IPWait {
        if settings.address == claimed {
          addressInUse := true;
          reload := 100;
          log := log + [Conflict(claimed)];
        }
      }
    }

    /** The waiting end-point in `vReceiveRA`, for a valid offer. */
    method AcceptRA(offer: Offer, newIp: Ip)
      requires wanted && phase == Wait
      modifies this
      ensures Current() == Heard(old(Current()), ReceiveRA(offer, newIp))
    {
      settings := settings.(prefixLength := offer.prefixLength, prefix := offer.prefix);
      settings := settings.(gateway := offer.router);
      routerReplied, retry, lifetime := true, 0, offer.preferredLifetime;
      addressInUse, phase := true, IPTest;
      RunProcess(false, newIp);
    }
  }

  /** The end-points of an interface. */
  ghost predicate Distinct(points: seq<EndPoint>) {
    forall i, j :: 0 <= i < j < |points| ==> points[i] != points[j]
  }

  /** `vReceiveNA`. */
  method DeliverNA(points: seq<EndPoint>, claimed: Ip)
    requires Distinct(points)
    modifies points
    ensures forall i :: 0 <= i < |points| ==>
              points[i].Current() == points[i].Heard(old(points[i].Current()), ReceiveNA(claimed))
  {
    for i := 0 to |points|
      invariant forall j :: 0 <= j < i ==>
                  points[j].Current() == points[j].Heard(old(points[j].Current()), ReceiveNA(claimed))
      invariant forall j :: i <= j < |points| ==> points[j].Current() == old(points[j].Current())
    {
      points[i].AcceptNA(claimed);
    }
  }

  predicate ValidPrefixLength(offer: Offer) {
    1 <= offer.prefixLength <= 128
  }

  /** The loop of `vReceiveRA`; `newIps` has the address that each end-point would create. A
      prefix length that is not valid ends it at the first end-point that waits. */
  method DeliverRA(points: seq<EndPoint>, offer: Offer, newIps: seq<Ip>)
    requires Distinct(points) && |newIps| == |points|
    modifies points
    ensures forall i :: 0 <= i < |points| ==>
              points[i].Current()
              == if ValidPrefixLength(offer) then points[i].Heard(old(points[i].Current()), ReceiveRA(offer, newIps[i]))
                 else old(points[i].Current())
  {
    for i := 0 to |points|
      invariant forall j :: 0 <= j < i ==>
                  points[j].Current()
                  == if ValidPrefixLength(offer)
                     then points[j].Heard(old(points[j].Current()), ReceiveRA(offer, newIps[j]))
                     else old(points[j].Current())
      invariant forall j :: i <= j < |points| ==> points[j].Current() == old(points[j].Current())
    {
      if points[i].wanted && points[i].phase == Wait {
        if offer.prefixLength == 0 || offer.prefixLength > 128 {
          break;
        }
        points[i].AcceptRA(offer, newIps[i]);
      }
    }
  }
}
