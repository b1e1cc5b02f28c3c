/**
  * The UDP socket that all DHCP clients of one IP version share: it is created for the first
  * end-point that needs it and closed for the last one that leaves.
  */
module DhcpSocket {
  import opened Words

  /** A socket is identified by its address. */
  type Socket = nat

  /** The global socket and its user count, the socket field of every end-point, and the
      sockets that the stack has open for DHCP. */
  datatype State = State(shared: Option<Socket>, users: nat, endPoints: seq<Option<Socket>>, open: set<Socket>)

  /** `created` is the socket that `FreeRTOS_socket` returns, if any; `bound` is whether
      `vSocketBind` succeeds. */
  datatype Call =
    | CreateIPv4(endPoint: nat, created: Option<Socket>, bound: bool)
    | CreateIPv6(endPoint: nat, newSocket: Socket)
    | Close(endPoint: nat)

  /** A new socket differs from those that are open. For IPv6 the source asserts that it is
      valid and can be bound. */
  predicate Enabled(s: State, call: Call) {
    && call.endPoint < |s.endPoints|
    && (call.CreateIPv4? && call.created.Some? ==> call.created.value !in s.open)
    && (call.CreateIPv6? ==> call.newSocket !in s.open)
  }

  // ---------------------------------------------------------------------------
  // The steps.
  // ---------------------------------------------------------------------------

  function Joined(s: State, e: nat, socket: Socket): State
    requires e < |s.endPoints|
  {
    s.(endPoints := s.endPoints[e := Some(socket)], users := s.users + 1)
  }

  function Opened(s: State, e: nat, socket: Socket): State
    requires e < |s.endPoints|
  {
    State(Some(socket), 1, s.endPoints[e := Some(socket)], s.open + {socket})
  }

  /** `prvCloseDHCPSocket` and `prvCloseDHCPv6Socket`. */
  function Left(s: State, e: nat): State
    requires e < |s.endPoints|
  {
    if s.endPoints[e].None? || s.endPoints[e] != s.shared || s.users == 0 then s
    else if s.users == 1 then State(None, 0, s.endPoints[e := None], s.open - {s.endPoints[e].value})
    else s.(users := s.users - 1, endPoints := s.endPoints[e := None])
  }

  function Step(s: State, call: Call): State
    requires Enabled(s, call)
  {
    var e := call.endPoint;
    match call
    case CreateIPv4(_, created, bound) =>
      if s.shared.Some? && s.endPoints[e] == s.shared then s
      else if s.shared.Some? then Joined(s, e, s.shared.value)
      else if created.None? then s.(endPoints := s.endPoints[e := None])
      else if bound then Opened(s, e, created.value)
      else Left(Opened(s, e, created.value), e)
    case CreateIPv6(_, newSocket) =>
      if s.shared.Some? && s.endPoints[e] == s.shared then s
      else if s.shared.Some? then Joined(s, e, s.shared.value)
      else Opened(s, e, newSocket)
    case Close(_) => Left(s, e)
  }

  // ---------------------------------------------------------------------------
  // What every step keeps.
  // ---------------------------------------------------------------------------

  /** The number of end-points that hold a socket. */
  function Holders(endPoints: seq<Option<Socket>>): nat {
    if |endPoints| == 0 then 0
    else Holders(endPoints[..|endPoints| - 1]) + if endPoints[|endPoints| - 1].Some? then 1 else 0
  }

  lemma {:induction false} HoldersUpdate(endPoints: seq<Option<Socket>>, e: nat, x: Option<Socket>)
    requires e < |endPoints|
    ensures Holders(endPoints[e := x]) + (if endPoints[e].Some? then 1 else 0)
         == Holders(endPoints) + (if x.Some? then 1 else 0)
    decreases |endPoints|
  {
    var last := |endPoints| - 1;
    if e == last {
      assert endPoints[e := x][..last] == endPoints[..last];
    } else {
      assert endPoints[e := x][..last] == endPoints[..last][e := x];
      HoldersUpdate(endPoints[..last], e, x);
    }
  }

  lemma {:induction false} SomeHolder(endPoints: seq<Option<Socket>>)
    ensures Holders(endPoints) > 0 <==> exists e :: 0 <= e < |endPoints| && endPoints[e].Some?
    decreases |endPoints|
  {
    if |endPoints| > 0 {
      var last := |endPoints| - 1;
      SomeHolder(endPoints[..last]);
      if e :| 0 <= e < last && endPoints[e].Some? {
        assert endPoints[..last][e].Some?;
      }
    }
  }

  /** The user count is the number of end-points that hold the socket, which is the shared one
      for each of them; it is the only socket that is open, and open while it has users. */
  ghost predicate Sound(s: State) {
    && s.users == Holders(s.endPoints)
    && (forall e :: 0 <= e < |s.endPoints| && s.endPoints[e].Some? ==> s.endPoints[e] == s.shared)
    && (s.shared.Some? <==> s.users > 0)
    && s.open == (if s.shared.Some? then {s.shared.value} else {})
  }

  lemma OpenedSound(s: State, e: nat, socket: Socket)
    requires Sound(s) && s.shared.None? && e < |s.endPoints|
    ensures Sound(Opened(s, e, socket)) && s.endPoints[e].None?
  {
    HoldersUpdate(s.endPoints, e, Some(socket));
  }

  lemma LeftSound(s: State, e: nat)
    requires Sound(s) && e < |s.endPoints|
    ensures Sound(Left(s, e)) && Left(s, e).endPoints[e].None?
  {
    HoldersUpdate(s.endPoints, e, None);
    SomeHolder(s.endPoints);
    SomeHolder(Left(s, e).endPoints);
  }

  lemma StepSound(s: State, call: Call)
    requires Sound(s) && Enabled(s, call)
    ensures Sound(Step(s, call))
  {
    var e := call.endPoint;
    match call
    case CreateIPv4(_, created, bound) =>
      if s.shared.Some? {
        HoldersUpdate(s.endPoints, e, s.shared);
      } else if created.None? {
        HoldersUpdate(s.endPoints, e, None);
      } else {
        OpenedSound(s, e, created.value);
        LeftSound(Opened(s, e, created.value), e);
      }
    case CreateIPv6(_, newSocket) =>
      if s.shared.Some? {
        HoldersUpdate(s.endPoints, e, s.shared);
      } else {
        OpenedSound(s, e, newSocket);
      }
    case Close(_) =>
      LeftSound(s, e);
  }

  /** After a successful creation the end-point holds the shared socket; after closing it holds
      none, and the socket is closed exactly when it was the last user. */
  lemma CreateAndClose(s: State, e: nat)
    requires Sound(s) && e < |s.endPoints|
    ensures forall created: Option<Socket>, bound :: Enabled(s, CreateIPv4(e, created, bound)) ==>
              var t := Step(s, CreateIPv4(e, created, bound));
              t.endPoints[e] == (if s.shared.Some? then s.shared else if bound then created else None)
    ensures forall newSocket :: Enabled(s, CreateIPv6(e, newSocket)) ==>
              var t := Step(s, CreateIPv6(e, newSocket));
              t.endPoints[e] == t.shared && t.shared.Some?
    ensures Step(s, Close(e)).endPoints[e].None?
    ensures Step(s, Close(e)).open != s.open <==> s.users == 1 && s.endPoints[e].Some?
  {
    LeftSound(s, e);
    SomeHolder(s.endPoints);
    HoldersUpdate(s.endPoints, e, None);
  }

  /** No call changes what other end-points hold, and a socket that has users is not replaced. */
  lemma OthersKeep(s: State, call: Call, i: nat)
    requires Sound(s) && Enabled(s, call) && i < |s.endPoints| && i != call.endPoint
    ensures Step(s, call).endPoints[i] == s.endPoints[i]
    ensures s.endPoints[i].Some? ==> Step(s, call).shared == s.shared && Step(s, call).open == s.open
  {
    SomeHolder(s.endPoints);
    StepSound(s, call);
  }

  ghost predicate Run(states: seq<State>, calls: seq<Call>) {
    && |states| == |calls| + 1
    && forall k :: 0 <= k < |calls| ==> Enabled(states[k], calls[k]) && states[k + 1] == Step(states[k], calls[k])
  }

  /** For any number of end-points and in every sequence of calls. */
  lemma {:induction false} EveryRun(states: seq<State>, calls: seq<Call>, k: nat)
    requires Run(states, calls) && k < |states|
    requires states[0].shared.None? && states[0].users == 0 && states[0].open == {}
    requires forall e :: 0 <= e < |states[0].endPoints| ==> states[0].endPoints[e].None?
    ensures Sound(states[k])
    decreases k
  {
    if k > 0 {
      EveryRun(states, calls, k - 1);
      StepSound(states[k - 1], calls[k - 1]);
    } else {
      SomeHolder(states[0].endPoints);
    }
  }

  // ---------------------------------------------------------------------------
  // The socket of one IP version.
  // ---------------------------------------------------------------------------

  /** `xDHCPv4Socket` and `xDHCPSocketUserCount`, or the same for IPv6, with `xDHCPSocket` of
      every end-point. */
  class SharedSocket {
    var shared: Option<Socket>
    var users: nat
    var endPoints: seq<Option<Socket>>
    var open: set<Socket>

    constructor (count: nat)
      ensures Current() == State(None, 0, seq(count, _ => None), {})
    {
      shared, users, endPoints, open := None, 0, seq(count, _ => None), {};
    }

    ghost function Current(): State
      reads this
    {
      State(shared, users, endPoints, open)
    }

    /** `prvCloseDHCPSocket` and `prvCloseDHCPv6Socket`. */
    method CloseSocket(e: nat)
      requires e < |endPoints|
      modifies this
      ensures Current() == Left(old(Current()), e)
    {
      if endPoints[e].None? || endPoints[e] != shared {
      } else if users > 0 {
        users := users - 1;
        if users == 0 {
          open := open - {endPoints[e].value};
          shared := None;
        }
        endPoints := endPoints[e := None];
      }
    }

    /** `prvCreateDHCPSocket`. */
    method CreateSocketIPv4(e: nat, created: Option<Socket>, bound: bool)
      requires Enabled(Current(), CreateIPv4(e, created, bound))
      modifies this
      ensures Current() == Step(old(Current()), CreateIPv4(e, created, bound))
    {
      if shared.Some? && endPoints[e] == shared {
      } else if shared.None? {
        shared := created;
        if shared.Some? {
          open := open + {shared.value};
          users := 1;
          endPoints := endPoints[e := shared];
          if !bound {
            CloseSocket(e);
          }
        } else {
          endPoints := endPoints[e := None];
        }
      } else {
        users := users + 1;
        endPoints := endPoints[e := shared];
      }
    }

    /** `prvCreateDHCPv6Socket`. */
    method CreateSocketIPv6(e: nat, newSocket: Socket)
      requires Enabled(Current(), CreateIPv6(e, newSocket))
      modifies this
      ensures Current() == Step(old(Current()), CreateIPv6(e, newSocket))
    {
      if shared.Some? && endPoints[e] == shared {
      } else if shared.None? {
        shared := Some(newSocket);
        open := open + {newSocket};
        users := 1;
      } else {
        users := users + 1;
      }
      endPoints := endPoints[e := shared];
    }
  }
}
