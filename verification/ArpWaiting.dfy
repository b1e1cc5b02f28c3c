/**
  * The one-slot buffer for a frame that waits for the resolution of its sender's address:
  * `pxARPWaitingNetworkBuffer` and the ARP resolution timer. The IP-task fills the slot when
  * it processes a frame; an ARP reply or the timer empties it.
  */
module ArpWaiting {
  import opened Words

  /** `usFrameType`. */
  datatype FrameType = IPv4 | Arp | IPv6 | Other

  /** A network buffer: its identity, and what its frame says. */
  datatype Buffer = Buffer(id: nat, frameType: FrameType, source: Word32)

  /** `IPTimer_t`. */
  datatype Timer = Timer(active: bool, expired: bool, remaining: nat, reload: nat)

  /** `eFrameProcessingResult_t`, as far as it decides about the buffer. */
  datatype Verdict = ReturnFrame | Consumed | WaitingResolution | ReleaseBuffer

  /** The slot is filled, or emptied by handing the buffer back or releasing it. */
  datatype Event = Stored(buffer: Buffer) | Requeued(buffer: Buffer) | Freed(buffer: Buffer)

  /** Where the buffers are: in the slot, in the event queue of the IP-task, free, or in the
      hands of another part of the stack; and the history of the slot. */
  datatype State = State(waiting: Option<Buffer>, timer: Timer, queue: seq<Buffer>, free: multiset<Buffer>,
                         elsewhere: multiset<Buffer>, history: seq<Event>)

  /** What may happen, in any order. Of the kernel's answers, `expired` and `remaining` are
      those of `xTaskCheckForTimeOut`, `sent` is that of `xSendEventStructToIPTask`. An IPv6
      frame that waits is for the slot of neighbour discovery, which may have room. */
  datatype Call =
    | Receive(buffer: Buffer)
    | Process(verdict: Verdict, roomForIPv6: bool)
    | GiveBack(given: Buffer)
    | Reply(sender: Word32, sent: bool)
    | CheckTimers(expired: bool, remaining: nat)

  const RESOLUTION_MAX_DELAY: nat := 2000

  /** A driver fills a free buffer, the IP-task takes a queued one, a consumer returns one. */
  predicate Enabled(s: State, call: Call) {
    match call
    case Receive(b) => b in s.free
    case Process(_, _) => |s.queue| > 0
    case GiveBack(b) => b in s.elsewhere
    case Reply(_, _) => true
    case CheckTimers(_, _) => true
  }

  // ---------------------------------------------------------------------------
  // The properties.
  // ---------------------------------------------------------------------------

  /** How many times the buffer is somewhere. */
  function Places(s: State, b: Buffer): nat {
    s.free[b] + s.elsewhere[b] + multiset(s.queue)[b] + if s.waiting == Some(b) then 1 else 0
  }

  /** Every buffer that was stored has left once, in one of the two ways, before the next one
      was stored; the one in the slot has not. */
  ghost predicate Alternates(history: seq<Event>, waiting: Option<Buffer>) {
    && (forall k :: 0 <= k < |history| ==> (history[k].Stored? <==> k % 2 == 0))
    && (forall k :: 1 <= k < |history| && !history[k].Stored? ==> history[k].buffer == history[k - 1].buffer)
    && (if |history| > 0 && history[|history| - 1].Stored?
        then waiting == Some(history[|history| - 1].buffer) else waiting.None?)
  }

  /** The slot is occupied exactly when the resolution timer is active. */
  ghost predicate Sound(s: State) {
    && (s.waiting.Some? <==> s.timer.active)
    && (s.waiting.Some? ==> s.waiting.value.frameType in {IPv4, Arp})
    && Alternates(s.history, s.waiting)
  }

  // ---------------------------------------------------------------------------
  // The steps.
  // ---------------------------------------------------------------------------

  /** `prvIPTimerStart`. */
  function Started(t: Timer, time: nat): Timer {
    t.(remaining := time, expired := time == 0, active := true)
  }

  /** `prvIPTimerCheck`: an expired timer is started again with its reload time. */
  function Checked(t: Timer, expired: bool, remaining: nat): (Timer, bool) {
    if !t.active then (t, false)
    else if t.expired then (Started(t, t.reload), true)
    else if expired then (Started(t, t.reload), true)
    else (t.(remaining := remaining), false)
  }

  function Released(s: State, b: Buffer): State {
    s.(free := s.free + multiset{b})
  }

  function Processed(s: State, verdict: Verdict, roomForIPv6: bool): State
    requires |s.queue| > 0
  {
    var b, rest := s.queue[0], s.(queue := s.queue[1..]);
    match verdict
    case ReturnFrame => Released(rest, b)
    case Consumed => rest.(elsewhere := rest.elsewhere + multiset{b})
    case ReleaseBuffer => Released(rest, b)
    case WaitingResolution =>
      if b.frameType in {IPv4, Arp} && s.waiting.None?
      then rest.(waiting := Some(b), timer := Started(s.timer, RESOLUTION_MAX_DELAY),
                 history := s.history + [Stored(b)])
      else if b.frameType == IPv6 && roomForIPv6 then rest.(elsewhere := rest.elsewhere + multiset{b})
      else Released(rest, b)
  }

  function Replied(s: State, sender: Word32, sent: bool): State {
    if s.waiting.Some? && s.waiting.value.frameType != IPv6 && s.waiting.value.source == sender then
      var b := s.waiting.value;
      var emptied := s.(waiting := None, timer := s.timer.(active := false));
      if sent then emptied.(queue := s.queue + [b], history := s.history + [Requeued(b)])
      else Released(emptied, b).(history := s.history + [Freed(b)])
    else s
  }

  function TimersChecked(s: State, expired: bool, remaining: nat): State {
    var (timer, due) := Checked(s.timer, expired, remaining);
    if due && s.waiting.Some?
    then Released(s.(timer := timer.(active := false), waiting := None), s.waiting.value)
         .(history := s.history + [Freed(s.waiting.value)])
    else s.(timer := timer)
  }

  function Step(s: State, call: Call): State
    requires Enabled(s, call)
  {
    match call
    case Receive(b) => s.(free := s.free - multiset{b}, queue := s.queue + [b])
    case Process(verdict, roomForIPv6) => Processed(s, verdict, roomForIPv6)
    case GiveBack(b) => Released(s.(elsewhere := s.elsewhere - multiset{b}), b)
    case Reply(sender, sent) => Replied(s, sender, sent)
    case CheckTimers(expired, remaining) => TimersChecked(s, expired, remaining)
  }

  lemma AlternatesStored(history: seq<Event>, b: Buffer)
    requires Alternates(history, None)
    ensures Alternates(history + [Stored(b)], Some(b))
  {
  }

  lemma AlternatesLeft(history: seq<Event>, b: Buffer, e: Event)
    requires Alternates(history, Some(b)) && e in {Requeued(b), Freed(b)}
    ensures Alternates(history + [e], None)
  {
  }

  lemma StepSound(s: State, call: Call)
    requires Sound(s) && Enabled(s, call)
    ensures Sound(Step(s, call))
  {
    match call
    case Receive(b) =>
    case Process(_, _) =>
      if s.waiting.None? {
        AlternatesStored(s.history, s.queue[0]);
      }
    case GiveBack(b) =>
    case Reply(sender, sent) =>
      if s.waiting.Some? {
        AlternatesLeft(s.history, s.waiting.value, if sent then Requeued(s.waiting.value) else Freed(s.waiting.value));
      }
    case CheckTimers(expired, remaining) =>
      if s.waiting.Some? {
        AlternatesLeft(s.history, s.waiting.value, Freed(s.waiting.value));
      }
  }

  lemma FirstQueued(queue: seq<Buffer>, c: Buffer)
    requires |queue| > 0
    ensures multiset(queue)[c] == multiset(queue[1..])[c] + if c == queue[0] then 1 else 0
  {
    assert queue == [queue[0]] + queue[1..];
  }

  lemma LastQueued(queue: seq<Buffer>, b: Buffer, c: Buffer)
    ensures multiset(queue + [b])[c] == multiset(queue)[c] + if c == b then 1 else 0
  {
  }

  lemma ProcessConserves(s: State, verdict: Verdict, roomForIPv6: bool, c: Buffer)
    requires |s.queue| > 0
    ensures Places(Processed(s, verdict, roomForIPv6), c) == Places(s, c)
  {
    FirstQueued(s.queue, c);
  }

  lemma ReplyConserves(s: State, sender: Word32, sent: bool, c: Buffer)
    ensures Places(Replied(s, sender, sent), c) == Places(s, c)
  {
    if s.waiting.Some? {
      LastQueued(s.queue, s.waiting.value, c);
    }
  }

  lemma TimersConserve(s: State, expired: bool, remaining: nat, c: Buffer)
    ensures Places(TimersChecked(s, expired, remaining), c) == Places(s, c)
  {
  }

  /** No step loses a buffer or releases one twice. */
  lemma StepConserves(s: State, call: Call, c: Buffer)
    requires Enabled(s, call)
    ensures Places(Step(s, call), c) == Places(s, c)
  {
    match call
    case Receive(b) => LastQueued(s.queue, b, c);
    case Process(verdict, roomForIPv6) => ProcessConserves(s, verdict, roomForIPv6, c);
    case GiveBack(b) =>
    case Reply(sender, sent) => ReplyConserves(s, sender, sent, c);
    case CheckTimers(expired, remaining) => TimersConserve(s, expired, remaining, c);
  }

  ghost predicate Run(states: seq<State>, calls: seq<Call>) {
    && |states| == |calls| + 1
    && forall k :: 0 <= k < |calls| ==> Enabled(states[k], calls[k]) && states[k + 1] == Step(states[k], calls[k])
  }

  /** Nothing is waiting, and the timer has been disabled. */
  ghost predicate Initial(s: State) {
    s.waiting.None? && !s.timer.active && s.history == []
  }

  /** In every interleaving the slot is occupied exactly when the timer is active, every
      buffer that was stored left once, and no buffer is lost or multiplied. */
  lemma {:induction false} EveryRun(states: seq<State>, calls: seq<Call>, k: nat)
    requires Run(states, calls) && Initial(states[0]) && k < |states|
    ensures Sound(states[k]) && forall b :: Places(states[k], b) == Places(states[0], b)
    decreases k
  {
    if k > 0 {
      EveryRun(states, calls, k - 1);
      StepSound(states[k - 1], calls[k - 1]);
      forall b ensures Places(states[k], b) == Places(states[0], b) {
        StepConserves(states[k - 1], calls[k - 1], b);
      }
    }
  }

  /** With distinct buffers, the one in the slot is not free, not queued and in no other hands. */
  lemma HeldIsNotReleased(states: seq<State>, calls: seq<Call>, k: nat, b: Buffer)
    requires Run(states, calls) && Initial(states[0]) && k < |states|
    requires Places(states[0], b) <= 1
    requires states[k].waiting == Some(b)
    ensures b !in states[k].free && b !in states[k].queue && b !in states[k].elsewhere && states[k].timer.active
  {
    EveryRun(states, calls, k);
    assert b in multiset(states[k].queue) <==> b in states[k].queue;
  }

  /** In every run the slot keeps its buffer until a reply of the frame's sender arrives, or the
      timer runs out; and those empty it. */
  lemma LeavesExactly(states: seq<State>, calls: seq<Call>, k: nat, b: Buffer)
    requires Run(states, calls) && Initial(states[0]) && k < |calls| && states[k].waiting == Some(b)
    ensures states[k + 1].waiting == Some(b) || states[k + 1].waiting == None
    ensures states[k + 1].waiting == None
       <==> match calls[k]
            case Reply(sender, _) => sender == b.source
            case CheckTimers(expired, _) => expired || states[k].timer.expired
            case _ => false
  {
    EveryRun(states, calls, k);
  }

  /** A buffer whose sender has replied is behind all others in the queue, or free when the event
      cannot be sent; one that has waited too long is free. Nothing else moves. */
  lemma LeavesTo(states: seq<State>, calls: seq<Call>, k: nat, b: Buffer)
    requires Run(states, calls) && Initial(states[0]) && k < |calls|
    requires states[k].waiting == Some(b) && states[k + 1].waiting == None
    ensures var s, s' := states[k], states[k + 1];
            && s'.elsewhere == s.elsewhere
            && if calls[k].Reply? && calls[k].sent then s'.queue == s.queue + [b] && s'.free == s.free
               else s'.queue == s.queue && s'.free == s.free + multiset{b}
  {
    EveryRun(states, calls, k);
  }

  /** The slot is filled exactly by the first buffer in the queue, when its frame is an IPv4 or ARP
      frame that has to wait, and then for at most the resolution delay. */
  lemma FilledExactly(states: seq<State>, calls: seq<Call>, k: nat)
    requires Run(states, calls) && Initial(states[0]) && k < |calls| && states[k].waiting == None
    ensures states[k + 1].waiting.Some?
       <==> && calls[k].Process? && calls[k].verdict.WaitingResolution?
            && (states[k].queue[0].frameType.IPv4? || states[k].queue[0].frameType.Arp?)
    ensures states[k + 1].waiting.Some? ==>
              && states[k + 1].waiting.value == states[k].queue[0] && states[k + 1].queue == states[k].queue[1..]
              && states[k + 1].timer.remaining == 2000 && !states[k + 1].timer.expired
  {
    EveryRun(states, calls, k);
  }

  // ---------------------------------------------------------------------------
  // The IP-task.
  // ---------------------------------------------------------------------------

  class IpTask {
    var waiting: Option<Buffer>
    var timer: Timer
    var queue: seq<Buffer>
    var free: multiset<Buffer>
    var elsewhere: multiset<Buffer>
    ghost var history: seq<Event>

    /** `prvIPTask_Initialise`: the resolution timer is disabled. */
    constructor (pool: multiset<Buffer>)
      ensures Initial(TaskState()) && forall b :: Places(TaskState(), b) == pool[b]
    {
      waiting, timer := None, Timer(false, false, 0, 0);
      queue, free, elsewhere, history := [], pool, multiset{}, [];
    }

    ghost function TaskState(): State
      reads this
    {
      State(waiting, timer, queue, free, elsewhere, history)
    }

    method ReleaseNetworkBuffer(b: Buffer)
      modifies this`free
      ensures TaskState() == Released(old(TaskState()), b)
    {
      free := free + multiset{b};
    }

    /** The end of `prvProcessEthernetPacket`, for the next buffer in the queue. */
    method ProcessEthernetPacket(verdict: Verdict, roomForIPv6: bool)
      requires Enabled(TaskState(), Process(verdict, roomForIPv6))
      modifies this
      ensures TaskState() == Step(old(TaskState()), Process(verdict, roomForIPv6))
    {
      var b := queue[0];
      queue := queue[1..];
      match verdict
      case ReturnFrame =>
        ReleaseNetworkBuffer(b);
      case Consumed =>
        elsewhere := elsewhere + multiset{b};
      case WaitingResolution =>
        if b.frameType == IPv4 || b.frameType == Arp {
          if waiting.None? {
            waiting := Some(b);
            TimerStart(RESOLUTION_MAX_DELAY);
            history := history + [Stored(b)];
          } else {
            ReleaseNetworkBuffer(b);
          }
        } else if b.frameType == IPv6 && roomForIPv6 {
          elsewhere := elsewhere + multiset{b};
        } else {
          ReleaseNetworkBuffer(b);
        }
      case ReleaseBuffer =>
        ReleaseNetworkBuffer(b);
    }

    /** The slot in `vARPProcessPacketReply`. */
    method ProcessPacketReply(sender: Word32, sent: bool)
      modifies this
      ensures TaskState() == Step(old(TaskState()), Reply(sender, sent))
    {
      if waiting.Some? && waiting.value.frameType != IPv6 {
        if sender == waiting.value.source {
          if sent {
            queue := queue + [waiting.value];
            history := history + [Requeued(waiting.value)];
          } else {
            ReleaseNetworkBuffer(waiting.value);
            history := history + [Freed(waiting.value)];
          }
          waiting := None;
          timer := timer.(active := false);
        }
      }
    }

    method TimerStart(time: nat)
      modifies this`timer
      ensures timer == Started(old(timer), time)
    {
      timer := timer.(remaining := time);
      timer := if time == 0 then timer.(expired := true) else timer.(expired := false);
      timer := timer.(active := true);
    }

    /** `prvIPTimerCheck`. */
    method TimerCheck(expired: bool, remaining: nat) returns (due: bool)
      modifies this`timer
      ensures (timer, due) == Checked(old(timer), expired, remaining)
    {
      due := false;
      if timer.active {
        if !timer.expired {
          timer := timer.(remaining := remaining);
          if expired {
            timer := timer.(expired := true);
          }
        }
        if timer.expired {
          TimerStart(timer.reload);
          due := true;
        }
      }
    }

    /** The ARP resolution part of `vCheckNetworkTimers`. */
    method CheckNetworkTimers(expired: bool, remaining: nat)
      modifies this
      ensures TaskState() == Step(old(TaskState()), CheckTimers(expired, remaining))
    {
      var due := TimerCheck(expired, remaining);
      if due {
        if waiting.Some? {
          timer := timer.(active := false);
          ReleaseNetworkBuffer(waiting.value);
          history := history + [Freed(waiting.value)];
          waiting := None;
        }
      }
    }
  }
}
