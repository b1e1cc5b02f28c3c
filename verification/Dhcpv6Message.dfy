/**
  * The messages of the DHCPv6 client: the options written by `prvSendDHCPMessage`, and the
  * comparison of an echoed client identifier in `prvDHCPv6_handleOption`.
  */
module Dhcpv6Message {
  import opened Words
  import opened BitConfig

  /** `DHCPv6_SEND_MAX_BUFFER_SIZE`, `dhcpIPv6_CLIENT_DUID_LENGTH` and
      `DHCPv6_MAX_CLIENT_SERVER_ID_LENGTH`. */
  const BUFFER_SIZE := 256
  const DUID_LENGTH := 14
  const MAX_ID_LENGTH := 128

  const OPTION_CLIENT_ID: Word16 := 1
  const OPTION_SERVER_ID: Word16 := 2
  const OPTION_IA_NA: Word16 := 3
  const OPTION_OPTION_LIST: Word16 := 6
  const OPTION_ELAPSED_TIME: Word16 := 8
  const OPTION_DNS_SERVERS: Word16 := 23
  const OPTION_IA_PD: Word16 := 25
  const OPTION_IA_PREFIX: Word16 := 26

  const IAID: Word32 := 0x27FE_8F95

  /** What goes into a message: it is a Solicit (1) or a Request (3). */
  datatype Client = Client(request: bool, transaction: Bytes, timeStamp: Word32, mac: Bytes,
                           serverType: Word16, serverHardware: Word16, serverId: Bytes,
                           prefixLength: Byte, prefix: Bytes)

  predicate IsClient(c: Client) {
    |c.transaction| == 3 && |c.mac| == 6 && |c.serverId| <= MAX_ID_LENGTH && |c.prefix| == 16
  }

  // ---------------------------------------------------------------------------
  // Options (section 22.1 of RFC 3315).
  // ---------------------------------------------------------------------------

  datatype Opt = Opt(code: Word16, data: Bytes)

  function E16(w: Word16): (b: Bytes)
    ensures |b| == 2
  {
    Encoded(Item16(w))
  }

  function E32(w: Word32): (b: Bytes)
    ensures |b| == 4
  {
    Encoded(Item32(w))
  }

  function OptionBytes(o: Opt): (b: Bytes)
    requires |o.data| < 0x1_0000
    ensures |b| == 4 + |o.data|
  {
    E16(o.code) + E16(|o.data|) + o.data
  }

  /** The data of every option fits its 16-bit length. */
  ghost predicate Short(options: seq<Opt>) {
    forall k :: 0 <= k < |options| ==> |options[k].data| < 0x1_0000
  }

  function AllOptions(options: seq<Opt>): Bytes
    requires Short(options)
  {
    if |options| == 0 then [] else OptionBytes(options[0]) + AllOptions(options[1..])
  }

  /** The options that lie one behind the other from `i` to the end, if they do. */
  function Walk(b: Bytes, i: nat): Option<seq<Opt>>
    requires i <= |b|
    decreases |b| - i
  {
    if i == |b| then Some([])
    else if i + 4 > |b| then None
    else
      var length := BE16(b[i + 2], b[i + 3]);
      if i + 4 + length > |b| then None
      else
        var rest := Walk(b, i + 4 + length);
        if rest.None? then None
        else Some([Opt(BE16(b[i], b[i + 1]), b[i + 4..i + 4 + length])] + rest.value)
  }

  ghost predicate EndsWith(b: Bytes, i: nat, tail: Bytes) {
    i + |tail| == |b| && b[i..] == tail
  }

  /** The option is at `i`. */
  ghost predicate IsOption(b: Bytes, i: nat, o: Opt) {
    && i + 4 + |o.data| <= |b|
    && BE16(b[i], b[i + 1]) == o.code && BE16(b[i + 2], b[i + 3]) == |o.data|
    && b[i + 4..i + 4 + |o.data|] == o.data
  }

  lemma FirstOption(b: Bytes, i: nat, o: Opt, rest: Bytes)
    requires |o.data| < 0x1_0000 && EndsWith(b, i, OptionBytes(o) + rest)
    ensures IsOption(b, i, o) && EndsWith(b, i + 4 + |o.data|, rest)
  {
    var all := b[i..];
    PartsWord(o.code);
    PartsWord(|o.data|);
    assert b[i] == all[0] && b[i + 1] == all[1] && b[i + 2] == all[2] && b[i + 3] == all[3];
    assert all[4..4 + |o.data|] == o.data;
    assert b[i + 4..i + 4 + |o.data|] == all[4..4 + |o.data|];
    assert b[i + 4 + |o.data|..] == all[4 + |o.data|..];
  }

  lemma WalkEnd(b: Bytes, i: nat)
    requires i == |b|
    ensures Walk(b, i) == Some([])
  {
  }

  lemma WalkNext(b: Bytes, i: nat, o: Opt, rest: seq<Opt>)
    requires IsOption(b, i, o) && Walk(b, i + 4 + |o.data|) == Some(rest)
    ensures Walk(b, i) == Some([o] + rest)
  {
  }

  lemma AllOptionsFirst(options: seq<Opt>) returns (o: Opt, rest: seq<Opt>)
    requires |options| > 0 && Short(options)
    ensures options == [o] + rest && Short(rest) && |o.data| < 0x1_0000
    ensures AllOptions(options) == OptionBytes(o) + AllOptions(rest)
  {
    o, rest := options[0], options[1..];
  }

  /** The walk over options that were written one behind the other gives back exactly these. */
  lemma {:induction false} WalkOptions(b: Bytes, i: nat, options: seq<Opt>)
    requires Short(options)
    requires EndsWith(b, i, AllOptions(options))
    ensures Walk(b, i) == Some(options)
    decreases |options|
  {
    if |options| == 0 {
      WalkEnd(b, i);
    } else {
      var o, rest := AllOptionsFirst(options);
      FirstOption(b, i, o, AllOptions(rest));
      WalkOptions(b, i + 4 + |o.data|, rest);
      WalkNext(b, i, o, rest);
    }
  }

  // ---------------------------------------------------------------------------
  // The message.
  // ---------------------------------------------------------------------------

  /** DUID-LLT: type, hardware type, time and link-layer address. */
  function ClientDuid(c: Client): (b: Bytes)
    requires IsClient(c)
    ensures |b| == DUID_LENGTH
  {
    E16(1) + E16(1) + E32(c.timeStamp) + c.mac
  }

  function ServerDuid(c: Client): (b: Bytes)
    ensures |b| == 4 + |c.serverId|
  {
    E16(c.serverType) + E16(c.serverHardware) + c.serverId
  }

  function PrefixOption(c: Client): (o: Opt)
    requires IsClient(c)
    ensures |o.data| == 25
  {
    Opt(OPTION_IA_PREFIX, E32(4500) + E32(7200) + [c.prefixLength] + c.prefix)
  }

  function Delegation(c: Client): (o: Opt)
    requires IsClient(c)
    ensures |o.data| == 41
  {
    Opt(OPTION_IA_PD, E32(IAID) + E32(3600) + E32(5400) + OptionBytes(PrefixOption(c)))
  }

  function NonTemporary(): (o: Opt)
    ensures |o.data| == 12
  {
    Opt(OPTION_IA_NA, E32(IAID) + E32(4500) + E32(7200))
  }

  function OptionList(): (o: Opt)
    ensures |o.data| == 4
  {
    Opt(OPTION_OPTION_LIST, E16(0x17) + E16(0x18))
  }

  function When(condition: bool, o: Opt): seq<Opt> {
    if condition then [o] else []
  }

  function Options(c: Client): (options: seq<Opt>)
    requires IsClient(c)
    ensures Short(options)
  {
    [Opt(OPTION_CLIENT_ID, ClientDuid(c))]
    + When(|c.serverId| > 0, Opt(OPTION_SERVER_ID, ServerDuid(c)))
    + When(c.request, OptionList())
    + [Opt(OPTION_ELAPSED_TIME, E16(0))]
    + [Delegation(c)]
    + [NonTemporary()]
    + When(c.request, Opt(OPTION_DNS_SERVERS, []))
  }

  function MessageHeader(c: Client): (b: Bytes)
    requires IsClient(c)
    ensures |b| == 4
  {
    [if c.request then 3 else 1] + c.transaction
  }

  function Message(c: Client): Bytes
    requires IsClient(c)
  {
    MessageHeader(c) + AllOptions(Options(c))
  }

  lemma BehindHeader(header: Bytes, rest: Bytes)
    ensures EndsWith(header + rest, |header|, rest)
  {
  }

  /** The options tile the message from byte 4 to its end. */
  lemma MessageTiles(c: Client)
    requires IsClient(c)
    ensures |Message(c)| >= 4 && Walk(Message(c), 4) == Some(Options(c))
  {
    var options := Options(c);
    BehindHeader(MessageHeader(c), AllOptions(options));
    WalkOptions(Message(c), 4, options);
  }

  /** The prefix option tiles the delegation that contains it. */
  lemma DelegationTiles(c: Client)
    requires IsClient(c)
    ensures Walk(Delegation(c).data, 12) == Some([PrefixOption(c)])
  {
    var inner := PrefixOption(c);
    BehindHeader(E32(IAID) + E32(3600) + E32(5400), OptionBytes(inner));
    OneOption(inner);
    WalkOptions(Delegation(c).data, 12, [inner]);
  }

  lemma OneOption(o: Opt)
    requires |o.data| < 0x1_0000
    ensures AllOptions([o]) == OptionBytes(o)
  {
    assert [o][1..] == [];
  }

  /** The bytes of a message: Solicit (1) or Request (3) and the transaction, the client
      identifier, the server identifier if there is one, for a Request the options that are asked
      for (23 and 24), no elapsed time, the delegation of a prefix and the address that are wanted,
      and for a Request an empty list of DNS servers. */
  function Expected(c: Client): Bytes
    requires IsClient(c)
  {
    [if c.request then 3 else 1] + c.transaction
    + ([0, 1, 0, 14, 0, 1, 0, 1] + Bytes32(c.timeStamp) + c.mac)
    + (if |c.serverId| == 0 then []
       else [0, 2] + Bytes16(4 + |c.serverId|) + Bytes16(c.serverType) + Bytes16(c.serverHardware) + c.serverId)
    + (if c.request then [0, 6, 0, 4, 0, 23, 0, 24] else [])
    + [0, 8, 0, 2, 0, 0]
    + ([0, 25, 0, 41, 0x27, 0xFE, 0x8F, 0x95, 0, 0, 0x0E, 0x10, 0, 0, 0x15, 0x18]
       + [0, 26, 0, 25, 0, 0, 0x11, 0x94, 0, 0, 0x1C, 0x20, c.prefixLength] + c.prefix)
    + [0, 3, 0, 12, 0x27, 0xFE, 0x8F, 0x95, 0, 0, 0x11, 0x94, 0, 0, 0x1C, 0x20]
    + (if c.request then [0, 23, 0, 0] else [])
  }

  /** Values in network order. */
  function Bytes16(w: Word16): Bytes {
    [w / 0x100, w % 0x100]
  }

  function Bytes32(d: Word32): Bytes {
    [d / 0x100_0000, (d / 0x1_0000) % 0x100, (d / 0x100) % 0x100, d % 0x100]
  }

  lemma Bytes16Is(w: Word16)
    ensures E16(w) == Bytes16(w)
  {
  }

  lemma Bytes32Is(d: Word32)
    ensures E32(d) == Bytes32(d)
  {
  }

  lemma OptionIs(o: Opt)
    requires |o.data| < 0x1_0000
    ensures OptionBytes(o) == Bytes16(o.code) + Bytes16(|o.data|) + o.data
  {
    Bytes16Is(o.code);
    Bytes16Is(|o.data|);
  }

  lemma ClientIdIs(c: Client)
    requires IsClient(c)
    ensures OptionBytes(Opt(OPTION_CLIENT_ID, ClientDuid(c)))
         == [0, 1, 0, 14, 0, 1, 0, 1] + Bytes32(c.timeStamp) + c.mac
  {
    Bytes16Is(1);
    Bytes32Is(c.timeStamp);
    OptionIs(Opt(OPTION_CLIENT_ID, ClientDuid(c)));
  }

  lemma ServerIdIs(c: Client)
    requires IsClient(c)
    ensures OptionBytes(Opt(OPTION_SERVER_ID, ServerDuid(c)))
         == [0, 2] + Bytes16(4 + |c.serverId|) + Bytes16(c.serverType) + Bytes16(c.serverHardware) + c.serverId
  {
    Bytes16Is(c.serverType);
    Bytes16Is(c.serverHardware);
    OptionIs(Opt(OPTION_SERVER_ID, ServerDuid(c)));
  }

  lemma ShortOptionsAre()
    ensures OptionBytes(OptionList()) == [0, 6, 0, 4, 0, 23, 0, 24]
    ensures OptionBytes(Opt(OPTION_ELAPSED_TIME, E16(0))) == [0, 8, 0, 2, 0, 0]
    ensures OptionBytes(Opt(OPTION_DNS_SERVERS, [])) == [0, 23, 0, 0]
  {
    OptionIs(OptionList());
    OptionIs(Opt(OPTION_ELAPSED_TIME, E16(0)));
    OptionIs(Opt(OPTION_DNS_SERVERS, []));
  }

  lemma TimesAre()
    ensures E32(IAID) == [0x27, 0xFE, 0x8F, 0x95]
    ensures E32(3600) == [0, 0, 0x0E, 0x10] && E32(5400) == [0, 0, 0x15, 0x18]
    ensures E32(4500) == [0, 0, 0x11, 0x94] && E32(7200) == [0, 0, 0x1C, 0x20]
  {
  }

  lemma DelegationIs(c: Client)
    requires IsClient(c)
    ensures OptionBytes(Delegation(c))
         == [0, 25, 0, 41, 0x27, 0xFE, 0x8F, 0x95, 0, 0, 0x0E, 0x10, 0, 0, 0x15, 0x18]
            + [0, 26, 0, 25, 0, 0, 0x11, 0x94, 0, 0, 0x1C, 0x20, c.prefixLength] + c.prefix
  {
    TimesAre();
    OptionIs(PrefixOption(c));
    OptionIs(Delegation(c));
  }

  lemma NonTemporaryIs()
    ensures OptionBytes(NonTemporary())
         == [0, 3, 0, 12, 0x27, 0xFE, 0x8F, 0x95, 0, 0, 0x11, 0x94, 0, 0, 0x1C, 0x20]
  {
    TimesAre();
    OptionIs(NonTemporary());
  }

  lemma WhenIs(condition: bool, o: Opt)
    requires |o.data| < 0x1_0000
    ensures Short(When(condition, o)) && AllOptions(When(condition, o)) == if condition then OptionBytes(o) else []
  {
    OneOption(o);
  }

  lemma Beside(before: seq<Opt>, bytes: Bytes, more: seq<Opt>) returns (all: seq<Opt>, allBytes: Bytes)
    requires Short(before) && Short(more) && AllOptions(before) == bytes
    ensures all == before + more && allBytes == bytes + AllOptions(more)
    ensures Short(all) && AllOptions(all) == allBytes
  {
    AllOptionsAppend(before, more);
    all, allBytes := before + more, bytes + AllOptions(more);
  }

  lemma BesideEachOther(a: seq<Opt>, b: seq<Opt>, c: seq<Opt>, d: seq<Opt>, e: seq<Opt>, f: seq<Opt>, g: seq<Opt>)
    requires Short(a) && Short(b) && Short(c) && Short(d) && Short(e) && Short(f) && Short(g)
    ensures Short(a + b + c + d + e + f + g)
    ensures AllOptions(a + b + c + d + e + f + g)
         == AllOptions(a) + AllOptions(b) + AllOptions(c) + AllOptions(d) + AllOptions(e) + AllOptions(f)
            + AllOptions(g)
  {
    var all, bytes := Beside(a, AllOptions(a), b);
    all, bytes := Beside(all, bytes, c);
    all, bytes := Beside(all, bytes, d);
    all, bytes := Beside(all, bytes, e);
    all, bytes := Beside(all, bytes, f);
    all, bytes := Beside(all, bytes, g);
  }

  lemma OptionsAre(c: Client)
    requires IsClient(c)
    ensures AllOptions(Options(c))
         == OptionBytes(Opt(OPTION_CLIENT_ID, ClientDuid(c)))
            + (if |c.serverId| > 0 then OptionBytes(Opt(OPTION_SERVER_ID, ServerDuid(c))) else [])
            + (if c.request then OptionBytes(OptionList()) else [])
            + OptionBytes(Opt(OPTION_ELAPSED_TIME, E16(0))) + OptionBytes(Delegation(c)) + OptionBytes(NonTemporary())
            + (if c.request then OptionBytes(Opt(OPTION_DNS_SERVERS, [])) else [])
  {
    var server, list, dns := Opt(OPTION_SERVER_ID, ServerDuid(c)), OptionList(), Opt(OPTION_DNS_SERVERS, []);
    WhenIs(|c.serverId| > 0, server);
    WhenIs(c.request, list);
    WhenIs(c.request, dns);
    OneOption(Opt(OPTION_CLIENT_ID, ClientDuid(c)));
    OneOption(Opt(OPTION_ELAPSED_TIME, E16(0)));
    OneOption(Delegation(c));
    OneOption(NonTemporary());
    BesideEachOther([Opt(OPTION_CLIENT_ID, ClientDuid(c))], When(|c.serverId| > 0, server), When(c.request, list),
                    [Opt(OPTION_ELAPSED_TIME, E16(0))], [Delegation(c)], [NonTemporary()], When(c.request, dns));
  }

  /** The message is exactly these bytes, for every client. */
  lemma MessageIsExpected(c: Client)
    requires IsClient(c)
    ensures Message(c) == Expected(c)
  {
    ClientIdIs(c);
    ServerIdIs(c);
    ShortOptionsAre();
    DelegationIs(c);
    NonTemporaryIs();
    OptionsAre(c);
  }

  // ---------------------------------------------------------------------------
  // prvSendDHCPMessage
  // ---------------------------------------------------------------------------

  /** The stream is without error and holds `content`, and `n` more bytes fit. */
  ghost predicate Contains(m: BitStream, content: Bytes, n: nat)
    reads m, m.contents
  {
    m.HasRoom(n) && m.Content() == content
  }

  method Put8(m: BitStream, value: Byte, ghost content: Bytes, ghost n: nat)
    requires n >= 1 && Contains(m, content, n)
    modifies m, m.contents
    ensures Contains(m, content + [value], n - 1)
  {
    m.Write8(value);
  }

  method Put16(m: BitStream, value: Word16, ghost content: Bytes, ghost n: nat)
    requires n >= 2 && Contains(m, content, n)
    modifies m, m.contents
    ensures Contains(m, content + E16(value), n - 2)
  {
    m.Write16(value);
  }

  method Put32(m: BitStream, value: Word32, ghost content: Bytes, ghost n: nat)
    requires n >= 4 && Contains(m, content, n)
    modifies m, m.contents
    ensures Contains(m, content + E32(value), n - 4)
  {
    m.Write32(value);
  }

  method PutBytes(m: BitStream, data: Bytes, ghost content: Bytes, ghost n: nat)
    requires n >= |data| && Contains(m, content, n)
    modifies m, m.contents
    ensures Contains(m, content + data, n - |data|)
  {
    m.WriteBytes(data);
  }

  lemma Joined(content: Bytes, a: Bytes, b: Bytes)
    ensures content + a + b == content + (a + b)
  {
  }

  lemma Nothing(content: Bytes)
    ensures content + [] == content
  {
  }

  lemma OptionJoined(content: Bytes, header: Bytes, data: Bytes, o: Opt)
    requires |o.data| < 0x1_0000 && header == E16(o.code) + E16(|o.data|) && data == o.data
    ensures content + header + data == content + OptionBytes(o)
  {
    Joined(content, header, data);
  }

  method PutHeader(m: BitStream, code: Word16, length: Word16, ghost content: Bytes, ghost n: nat)
    requires n >= 4 && Contains(m, content, n)
    modifies m, m.contents
    ensures Contains(m, content + (E16(code) + E16(length)), n - 4)
  {
    Put16(m, code, content, n);
    Put16(m, length, content + E16(code), n - 2);
    Joined(content, E16(code), E16(length));
  }

  method PutClientDuid(m: BitStream, c: Client, ghost content: Bytes, ghost n: nat)
    requires IsClient(c) && n >= DUID_LENGTH && Contains(m, content, n)
    modifies m, m.contents
    ensures Contains(m, content + ClientDuid(c), n - DUID_LENGTH)
  {
    Put16(m, 1, content, n);
    Put16(m, 1, content + E16(1), n - 2);
    Joined(content, E16(1), E16(1));
    Put32(m, c.timeStamp, content + (E16(1) + E16(1)), n - 4);
    Joined(content, E16(1) + E16(1), E32(c.timeStamp));
    PutBytes(m, c.mac, content + (E16(1) + E16(1) + E32(c.timeStamp)), n - 8);
    Joined(content, E16(1) + E16(1) + E32(c.timeStamp), c.mac);
  }

  method PutClientId(m: BitStream, c: Client, ghost content: Bytes, ghost n: nat) returns (duid: Bytes)
    requires IsClient(c) && n >= 18 && Contains(m, content, n)
    modifies m, m.contents
    ensures Contains(m, content + OptionBytes(Opt(OPTION_CLIENT_ID, ClientDuid(c))), n - 18)
    ensures duid == ClientDuid(c)
  {
    ghost var header := E16(OPTION_CLIENT_ID) + E16(14);
    PutHeader(m, OPTION_CLIENT_ID, 14, content, n);
    PutClientDuid(m, c, content + header, n - 4);
    duid := LastBytes(m, content + header, ClientDuid(c), n - 18);
    OptionJoined(content, header, ClientDuid(c), Opt(OPTION_CLIENT_ID, ClientDuid(c)));
  }

  method LastBytes(m: BitStream, ghost content: Bytes, ghost data: Bytes, ghost n: nat) returns (last: Bytes)
    requires |data| == DUID_LENGTH && Contains(m, content + data, n)
    modifies m`hasError
    ensures Contains(m, content + data, n) && last == data
  {
    var peeked := m.PeekLast(DUID_LENGTH);
    assert (content + data)[|content|..] == data;
    assert m.contents[m.index - DUID_LENGTH..m.index] == m.Content()[|content|..];
    last := peeked.value;
  }

  method PutServerId(m: BitStream, c: Client, ghost content: Bytes, ghost n: nat)
    requires IsClient(c) && n >= 8 + |c.serverId| && Contains(m, content, n)
    modifies m, m.contents
    ensures Contains(m, content + AllOptions(When(|c.serverId| > 0, Opt(OPTION_SERVER_ID, ServerDuid(c)))),
                  n - 8 - |c.serverId|)
  {
    ghost var o := Opt(OPTION_SERVER_ID, ServerDuid(c));
    if |c.serverId| != 0 {
      ghost var front := content + (E16(OPTION_SERVER_ID) + E16(|c.serverId| + 4));
      PutHeader(m, OPTION_SERVER_ID, |c.serverId| + 4, content, n);
      Put16(m, c.serverType, front, n - 4);
      Put16(m, c.serverHardware, front + E16(c.serverType), n - 6);
      Joined(front, E16(c.serverType), E16(c.serverHardware));
      PutBytes(m, c.serverId, front + (E16(c.serverType) + E16(c.serverHardware)), n - 8);
      Joined(front, E16(c.serverType) + E16(c.serverHardware), c.serverId);
      OptionJoined(content, E16(OPTION_SERVER_ID) + E16(|c.serverId| + 4), ServerDuid(c), o);
      OneOption(o);
    } else {
      Nothing(content);
    }
  }

  method PutOptionList(m: BitStream, c: Client, ghost content: Bytes, ghost n: nat)
    requires n >= 8 && Contains(m, content, n)
    modifies m, m.contents
    ensures Contains(m, content + AllOptions(When(c.request, OptionList())), n - 8)
  {
    if c.request {
      ghost var header := E16(OPTION_OPTION_LIST) + E16(4);
      PutHeader(m, OPTION_OPTION_LIST, 4, content, n);
      Put16(m, 0x17, content + header, n - 4);
      Put16(m, 0x18, content + header + E16(0x17), n - 6);
      Joined(content + header, E16(0x17), E16(0x18));
      OptionJoined(content, header, OptionList().data, OptionList());
      OneOption(OptionList());
    } else {
      Nothing(content);
    }
  }

  method PutElapsedTime(m: BitStream, ghost content: Bytes, ghost n: nat)
    requires n >= 6 && Contains(m, content, n)
    modifies m, m.contents
    ensures Contains(m, content + OptionBytes(Opt(OPTION_ELAPSED_TIME, E16(0))), n - 6)
  {
    ghost var header := E16(OPTION_ELAPSED_TIME) + E16(2);
    PutHeader(m, OPTION_ELAPSED_TIME, 2, content, n);
    Put16(m, 0, content + header, n - 4);
    OptionJoined(content, header, E16(0), Opt(OPTION_ELAPSED_TIME, E16(0)));
  }

  method PutThree(m: BitStream, a: Word32, b: Word32, c: Word32, ghost content: Bytes, ghost n: nat)
    requires n >= 12 && Contains(m, content, n)
    modifies m, m.contents
    ensures Contains(m, content + (E32(a) + E32(b) + E32(c)), n - 12)
  {
    Put32(m, a, content, n);
    Put32(m, b, content + E32(a), n - 4);
    Joined(content, E32(a), E32(b));
    Put32(m, c, content + (E32(a) + E32(b)), n - 8);
    Joined(content, E32(a) + E32(b), E32(c));
  }

  method PutPrefix(m: BitStream, c: Client, ghost content: Bytes, ghost n: nat)
    requires IsClient(c) && n >= 29 && Contains(m, content, n)
    modifies m, m.contents
    ensures Contains(m, content + OptionBytes(PrefixOption(c)), n - 29)
  {
    ghost var header := E16(OPTION_IA_PREFIX) + E16(25);
    ghost var front := content + header;
    PutHeader(m, OPTION_IA_PREFIX, 25, content, n);
    Put32(m, 4500, front, n - 4);
    Put32(m, 7200, front + E32(4500), n - 8);
    Joined(front, E32(4500), E32(7200));
    Put8(m, c.prefixLength, front + (E32(4500) + E32(7200)), n - 12);
    Joined(front, E32(4500) + E32(7200), [c.prefixLength]);
    PutBytes(m, c.prefix, front + (E32(4500) + E32(7200) + [c.prefixLength]), n - 13);
    Joined(front, E32(4500) + E32(7200) + [c.prefixLength], c.prefix);
    OptionJoined(content, header, PrefixOption(c).data, PrefixOption(c));
  }

  method PutDelegation(m: BitStream, c: Client, ghost content: Bytes, ghost n: nat)
    requires IsClient(c) && n >= 45 && Contains(m, content, n)
    modifies m, m.contents
    ensures Contains(m, content + OptionBytes(Delegation(c)), n - 45)
  {
    ghost var header := E16(OPTION_IA_PD) + E16(41);
    ghost var times := E32(IAID) + E32(3600) + E32(5400);
    PutHeader(m, OPTION_IA_PD, 41, content, n);
    PutThree(m, IAID, 3600, 5400, content + header, n - 4);
    PutPrefix(m, c, content + header + times, n - 16);
    Joined(content + header, times, OptionBytes(PrefixOption(c)));
    OptionJoined(content, header, Delegation(c).data, Delegation(c));
  }

  method PutNonTemporary(m: BitStream, ghost content: Bytes, ghost n: nat)
    requires n >= 16 && Contains(m, content, n)
    modifies m, m.contents
    ensures Contains(m, content + OptionBytes(NonTemporary()), n - 16)
  {
    ghost var header := E16(OPTION_IA_NA) + E16(12);
    PutHeader(m, OPTION_IA_NA, 12, content, n);
    PutThree(m, IAID, 4500, 7200, content + header, n - 4);
    OptionJoined(content, header, NonTemporary().data, NonTemporary());
  }

  method PutDnsServers(m: BitStream, c: Client, ghost content: Bytes, ghost n: nat)
    requires n >= 4 && Contains(m, content, n)
    modifies m, m.contents
    ensures Contains(m, content + AllOptions(When(c.request, Opt(OPTION_DNS_SERVERS, []))), n - 4)
  {
    if c.request {
      PutHeader(m, OPTION_DNS_SERVERS, 0, content, n);
      OptionJoined(content, E16(OPTION_DNS_SERVERS) + E16(0), [], Opt(OPTION_DNS_SERVERS, []));
      Nothing(content + (E16(OPTION_DNS_SERVERS) + E16(0)));
      OneOption(Opt(OPTION_DNS_SERVERS, []));
    } else {
      Nothing(content);
    }
  }

  lemma {:induction false} AllOptionsAppend(a: seq<Opt>, b: seq<Opt>)
    requires Short(a) && Short(b)
    ensures AllOptions(a + b) == AllOptions(a) + AllOptions(b)
    decreases |a|
  {
    if |a| == 0 {
      assert a + b == b;
    } else {
      assert (a + b)[1..] == a[1..] + b;
      AllOptionsAppend(a[1..], b);
    }
  }

  /** Options that are written behind others. */
  lemma MoreOptions(header: Bytes, before: seq<Opt>, more: seq<Opt>)
    requires Short(before) && Short(more)
    ensures Short(before + more)
    ensures header + AllOptions(before) + AllOptions(more) == header + AllOptions(before + more)
  {
    AllOptionsAppend(before, more);
    Joined(header, AllOptions(before), AllOptions(more));
  }

  lemma OneMoreOption(header: Bytes, before: seq<Opt>, o: Opt)
    requires Short(before) && |o.data| < 0x1_0000
    ensures Short(before + [o]) && header + AllOptions(before) + OptionBytes(o) == header + AllOptions(before + [o])
  {
    MoreOptions(header, before, [o]);
    OneOption(o);
  }

  /** The options up to the client's request list. */
  method PutIdentifiers(m: BitStream, c: Client, ghost header: Bytes) returns (duid: Bytes, ghost options: seq<Opt>)
    requires IsClient(c) && Contains(m, header, BUFFER_SIZE - 4)
    modifies m, m.contents
    ensures Short(options)
    ensures options == [Opt(OPTION_CLIENT_ID, ClientDuid(c))]
                       + When(|c.serverId| > 0, Opt(OPTION_SERVER_ID, ServerDuid(c))) + When(c.request, OptionList())
    ensures Contains(m, header + AllOptions(options), 80) && duid == ClientDuid(c)
  {
    options := [Opt(OPTION_CLIENT_ID, ClientDuid(c))];
    duid := PutClientId(m, c, header, BUFFER_SIZE - 4);
    OneOption(options[0]);
    PutServerId(m, c, header + AllOptions(options), BUFFER_SIZE - 22);
    ghost var server := When(|c.serverId| > 0, Opt(OPTION_SERVER_ID, ServerDuid(c)));
    MoreOptions(header, options, server);
    options := options + server;
    PutOptionList(m, c, header + AllOptions(options), 88);
    MoreOptions(header, options, When(c.request, OptionList()));
    options := options + When(c.request, OptionList());
  }

  /** The options behind the request list. */
  method PutAddresses(m: BitStream, c: Client, ghost header: Bytes, ghost before: seq<Opt>)
    requires IsClient(c) && Short(before) && Contains(m, header + AllOptions(before), 80)
    modifies m, m.contents
    ensures var more := before + [Opt(OPTION_ELAPSED_TIME, E16(0))] + [Delegation(c)] + [NonTemporary()];
            Short(more) && Contains(m, header + AllOptions(more), 13)
  {
    ghost var options := before;
    PutElapsedTime(m, header + AllOptions(options), 80);
    OneMoreOption(header, options, Opt(OPTION_ELAPSED_TIME, E16(0)));
    options := options + [Opt(OPTION_ELAPSED_TIME, E16(0))];
    PutDelegation(m, c, header + AllOptions(options), 74);
    OneMoreOption(header, options, Delegation(c));
    options := options + [Delegation(c)];
    PutNonTemporary(m, header + AllOptions(options), 29);
    OneMoreOption(header, options, NonTemporary());
  }

  method PutMessageHeader(m: BitStream, c: Client)
    requires IsClient(c) && Contains(m, [], BUFFER_SIZE)
    modifies m, m.contents
    ensures Contains(m, MessageHeader(c), BUFFER_SIZE - 4)
  {
    ghost var messageType: Byte := if c.request then 3 else 1;
    Put8(m, if c.request then 3 else 1, [], BUFFER_SIZE);
    PutBytes(m, c.transaction, [] + [messageType], BUFFER_SIZE - 1);
    assert [] + [messageType] + c.transaction == MessageHeader(c);
  }

  /** `prvSendDHCPMessage` in the states that send: the bytes that are sent, and the client's
      identifier that is kept. The buffer is always large enough. */
  method SendMessage(c: Client) returns (message: Bytes, duid: Bytes)
    requires IsClient(c)
    ensures message == Message(c) && duid == ClientDuid(c)
  {
    var m := new BitStream(None, BUFFER_SIZE);
    PutMessageHeader(m, c);
    ghost var header := MessageHeader(c);
    ghost var options;
    duid, options := PutIdentifiers(m, c, header);
    PutAddresses(m, c, header, options);
    options := options + [Opt(OPTION_ELAPSED_TIME, E16(0))] + [Delegation(c)] + [NonTemporary()];
    PutDnsServers(m, c, header + AllOptions(options), 13);
    MoreOptions(header, options, When(c.request, Opt(OPTION_DNS_SERVERS, [])));
    message := m.contents[..m.index];
  }

  /** `SECS_FROM_1970_TILL_2000`. */
  const SECONDS_TILL_2000 := 946684800

  /** `eDHCPState_t`, as far as sending looks at it. */
  datatype Phase = SendFirstDiscover | WaitingOffer | LeasedAddress | OtherPhase

  /** A new transaction: 24 bits of a random number, and the seconds since 2000. */
  function Transacted(c: Client, random: Word32, time: Word32): (r: Client)
    requires IsClient(c)
    ensures IsClient(r)
  {
    c.(transaction := [ByteOf32(random, 1), ByteOf32(random, 2), ByteOf32(random, 3)],
       timeStamp := Wrap32(0x1_0000_0000 + time - SECONDS_TILL_2000))
  }

  /** The transaction is the number in 24 bits, and the time stamp the time since 2000, modulo 2^32
      seconds. */
  lemma TransactionIs(c: Client, random: Word32, time: Word32)
    requires IsClient(c)
    ensures var r := Transacted(c, random, time);
            && 0x1_0000 * (r.transaction[0] as int) + 0x100 * (r.transaction[1] as int) + r.transaction[2]
               == random % 0x100_0000
            && (r.timeStamp + 946684800 == time || r.timeStamp + 946684800 == time + 0x1_0000_0000)
            && r.mac == c.mac && r.serverId == c.serverId && r.prefix == c.prefix && r.prefixLength == c.prefixLength
  {
    BytesOf32(random);
  }

  /** A Solicit is the first message, and later ones are Requests. */
  lemma MessageKinds(phase: Phase, c: Client)
    requires IsClient(c)
    ensures match MessageIn(phase, c)
            case None => phase == OtherPhase
            case Some(m) =>
              && m[1..4] == c.transaction
              && (m[0] == 1 <==> phase == SendFirstDiscover)
              && (m[0] == 3 <==> phase == WaitingOffer || phase == LeasedAddress)
  {
    if phase != OtherPhase {
      BehindHeader(MessageHeader(c.(request := phase != SendFirstDiscover)),
                   AllOptions(Options(c.(request := phase != SendFirstDiscover))));
    }
  }

  /** The message of a phase, if it has one. */
  function MessageIn(phase: Phase, c: Client): Option<Bytes>
    requires IsClient(c)
  {
    if phase == OtherPhase then None else Some(Message(c.(request := phase != SendFirstDiscover)))
  }

  /** The fields of `DHCPMessage_IPv6_t` and of the end-point that sending works on. */
  class Sender {
    var hasUid: bool
    var client: Client
    var duid: Bytes

    constructor (c: Client)
      requires IsClient(c)
      ensures !hasUid && client == c && duid == []
    {
      hasUid, client, duid := false, c, [];
    }

    /** `prvSendDHCPMessage`. An exchange has one transaction, which is made for its first
        message; nothing is sent when making it fails, but it is used from then on. */
    method Send(phase: Phase, randomOk: bool, random: Word32, time: Word32, hasSocket: bool, hasMemory: bool)
      returns (sent: Option<Bytes>)
      requires IsClient(client)
      modifies this
      ensures hasUid && client == if old(hasUid) then old(client) else Transacted(old(client), random, time)
      ensures sent == if (old(hasUid) || randomOk) && hasSocket && hasMemory then MessageIn(phase, client) else None
      ensures duid == if sent.Some? then ClientDuid(client) else old(duid)
    {
      var ok := true;
      sent := None;
      if !hasUid {
        ok := randomOk;
        client := Transacted(client, random, time);
        hasUid := true;
      }
      if ok && hasSocket && hasMemory && phase != OtherPhase {
        var message, sentDuid := SendMessage(client.(request := phase != SendFirstDiscover));
        sent, duid := Some(message), sentDuid;
      }
    }
  }

  // ---------------------------------------------------------------------------
  // The client identifier in prvDHCPv6_handleOption
  // ---------------------------------------------------------------------------

  /** The client identifier of a received message, of which `length` bytes are announced. It
      is accepted exactly when it is the identifier that the client sent. */
  method HandleClientId(m: BitStream, length: Word16, duid: Bytes) returns (ready: bool)
    requires m.Valid() && |duid| == DUID_LENGTH
    modifies m
    ensures m.Valid()
    ensures !ready && !m.hasError
       <==> && !old(m.hasError) && length == DUID_LENGTH && old(m.index) + length <= m.contents.Length
            && m.contents[old(m.index)..old(m.index) + length] == duid
    ensures !ready && !m.hasError ==> m.index == old(m.index) + length
  {
    ready := false;
    if length > m.contents.Length - m.index {
      return true;
    }
    if length < 4 {
      return true;
    }
    var idType := m.Read16();
    var hardware := m.Read16();
    if length - 4 <= MAX_ID_LENGTH {
      var id := m.Read(length - 4);
      if length != DUID_LENGTH {
        m.hasError := true;
      } else {
        var received := m.PeekLast(length);
        if received.None? || received.value != duid {
          m.hasError := true;
        }
      }
    } else {
      ready := true;
    }
  }
}
