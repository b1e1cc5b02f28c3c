/**
  * Reading a Router Advertisement: the checks of `vReceiveRA` and the option walk of
  * `vReceiveRA_ReadReply` (sections 4.6 and 6.1.2 of RFC 4861).
  */
module RouterAdvertisement {
  import opened Words
  import opened Ipv6Extensions

  /** `sizeof( ICMPRouterAdvertisement_IPv6_t )` and `sizeof( ICMPPrefixOption_IPv6_t )`. */
  const MESSAGE_SIZE := 16
  const PREFIX_OPTION_SIZE := 32
  /** `ndICMP_PREFIX_INFORMATION`. */
  const PREFIX_INFORMATION := 3
  const HOP_LIMIT := 255

  type Bytes = seq<Byte>

  // ---------------------------------------------------------------------------
  // Options that tile the option area.
  // ---------------------------------------------------------------------------

  function OptionSize(o: Bytes, c: nat): nat
    requires c + 1 < |o|
  {
    8 * (o[c + 1] as int)
  }

  /** A whole option at `c`; a prefix option has its full size. */
  ghost predicate OptionFits(o: Bytes, c: nat) {
    && c + 1 < |o| && o[c + 1] != 0 && c + OptionSize(o, c) <= |o|
    && (o[c] == PREFIX_INFORMATION ==> OptionSize(o, c) >= PREFIX_OPTION_SIZE)
  }

  /** Options lie one behind the other from each cut to the next. */
  ghost predicate Options(o: Bytes, cuts: seq<nat>) {
    && |cuts| > 0 && cuts[0] == 0
    && forall k :: 0 <= k < |cuts| - 1 ==> OptionFits(o, cuts[k]) && cuts[k + 1] == cuts[k] + OptionSize(o, cuts[k])
  }

  /** The options tile the area exactly. */
  ghost predicate Tiling(o: Bytes, cuts: seq<nat>) {
    Options(o, cuts) && cuts[|cuts| - 1] == |o|
  }

  ghost predicate WellFormed(o: Bytes) {
    exists cuts :: Tiling(o, cuts)
  }

  /** The last prefix option among the first `n` options. */
  ghost function LastPrefix(o: Bytes, cuts: seq<nat>, n: nat): Option<nat>
    requires n < |cuts| && Options(o, cuts)
  {
    if n == 0 then None
    else if o[cuts[n - 1]] == PREFIX_INFORMATION then Some(cuts[n - 1])
    else LastPrefix(o, cuts, n - 1)
  }

  lemma {:induction false} LastPrefixIsLast(o: Bytes, cuts: seq<nat>, n: nat)
    requires n < |cuts| && Options(o, cuts)
    ensures match LastPrefix(o, cuts, n)
            case None => forall j :: 0 <= j < n ==> o[cuts[j]] != PREFIX_INFORMATION
            case Some(c) =>
              exists k :: 0 <= k < n && cuts[k] == c && o[c] == PREFIX_INFORMATION
                          && forall j :: k < j < n ==> o[cuts[j]] != PREFIX_INFORMATION
    decreases n
  {
    if n > 0 {
      LastPrefixIsLast(o, cuts, n - 1);
    }
  }

  /** Tilings start alike as far as the options go. */
  lemma {:induction false} SameCuts(o: Bytes, cuts: seq<nat>, other: seq<nat>, k: nat)
    requires Options(o, cuts) && Tiling(o, other) && k < |cuts| && cuts[|cuts| - 1] <= |o|
    ensures k < |other| && other[k] == cuts[k]
    decreases k
  {
    if k > 0 {
      SameCuts(o, cuts, other, k - 1);
      CutsGrow(o, cuts, k - 1);
    }
  }

  lemma {:induction false} CutsGrow(o: Bytes, cuts: seq<nat>, k: nat)
    requires Options(o, cuts) && k < |cuts|
    ensures cuts[k] <= cuts[|cuts| - 1] && (k < |cuts| - 1 ==> cuts[k] < cuts[|cuts| - 1])
    decreases |cuts| - k
  {
    if k < |cuts| - 1 {
      CutsGrow(o, cuts, k + 1);
    }
  }

  /** Where no option fits and the area does not end, there is no tiling. */
  lemma NoTiling(o: Bytes, cuts: seq<nat>)
    requires Options(o, cuts)
    requires var last := cuts[|cuts| - 1]; last <= |o| && last != |o| && !OptionFits(o, last)
    ensures !WellFormed(o)
  {
    forall other | Tiling(o, other)
      ensures false
    {
      SameCuts(o, cuts, other, |cuts| - 1);
    }
  }

  // ---------------------------------------------------------------------------
  // vReceiveRA_ReadReply
  // ---------------------------------------------------------------------------

  function OptionArea(frame: Bytes, payloadLength: nat): Bytes
    requires MESSAGE_SIZE <= payloadLength && FIRST_HEADER + payloadLength <= |frame|
  {
    frame[FIRST_HEADER + MESSAGE_SIZE..FIRST_HEADER + payloadLength]
  }

  /** The option at `index` and where the next one starts; none when it is malformed. */
  method ReadOption(o: Bytes, index: nat) returns (next: Option<nat>)
    requires index + 1 < |o|
    ensures next == if OptionFits(o, index) then Some(index + OptionSize(o, index)) else None
  {
    var length: nat := 8 * (o[index + 1] as int);
    if o[index + 1] == 0 || |o| < index + length {
      return None;
    }
    if o[index] == PREFIX_INFORMATION && length < PREFIX_OPTION_SIZE {
      return None;
    }
    next := Some(index + length);
  }

  /** An area has one tiling at most. */
  lemma TilingUnique(o: Bytes, a: seq<nat>, b: seq<nat>)
    requires Tiling(o, a) && Tiling(o, b)
    ensures a == b
  {
    SameCuts(o, a, b, |a| - 1);
    SameCuts(o, b, a, |b| - 1);
    forall k | 0 <= k < |a|
      ensures a[k] == b[k]
    {
      SameCuts(o, a, b, k);
    }
  }

  /** `vReceiveRA_ReadReply`: the offset of the prefix option. There is one exactly when the
      options tile the area and contain one, and it is the last. */
  method ReadReply(frame: Bytes, payloadLength: nat) returns (prefix: Option<nat>)
    requires MESSAGE_SIZE <= payloadLength && FIRST_HEADER + payloadLength <= |frame|
    ensures !WellFormed(OptionArea(frame, payloadLength)) ==> prefix == None
    ensures forall cuts :: Tiling(OptionArea(frame, payloadLength), cuts) ==>
              prefix == LastPrefix(OptionArea(frame, payloadLength), cuts, |cuts| - 1)
  {
    var o := OptionArea(frame, payloadLength);
    var index: nat := 0;
    prefix := None;
    ghost var cuts := [0];
    while index + 1 < |o|
      invariant Options(o, cuts) && index == cuts[|cuts| - 1] <= |o|
      invariant prefix == LastPrefix(o, cuts, |cuts| - 1)
      decreases |o| - index
    {
      var next := ReadOption(o, index);
      if next.None? {
        NoTiling(o, cuts);
        return None;
      }
      if o[index] == PREFIX_INFORMATION {
        prefix := Some(index);
      }
      LastPrefixKept(o, cuts, next.value, |cuts| - 1);
      cuts, index := cuts + [next.value], next.value;
    }
    if index != |o| {
      NoTiling(o, cuts);
      return None;
    }
    assert Tiling(o, cuts);
    forall other | Tiling(o, other)
      ensures other == cuts
    {
      TilingUnique(o, other, cuts);
    }
  }

  lemma {:induction false} LastPrefixKept(o: Bytes, cuts: seq<nat>, next: nat, n: nat)
    requires n < |cuts| && Options(o, cuts) && Options(o, cuts + [next])
    ensures LastPrefix(o, cuts + [next], n) == LastPrefix(o, cuts, n)
    decreases n
  {
    if n > 0 {
      LastPrefixKept(o, cuts, next, n - 1);
    }
  }

  // ---------------------------------------------------------------------------
  // vReceiveRA
  // ---------------------------------------------------------------------------

  /** What an accepted advertisement offers to an end-point that waits for one. */
  datatype Offer = Offer(prefixLength: nat, prefix: Bytes, preferredLifetime: nat, router: Bytes)

  /** `xIPv6_GetIPType` is `eIPv6_LinkLocal`: the prefix FE80::/10. */
  predicate FromLinkLocal(frame: Bytes)
    requires FIRST_HEADER <= |frame|
  {
    frame[22] == 0xFE && 0x80 <= frame[23] < 0xC0
  }

  /** The message is complete and comes from a router on the link that offers a route. */
  predicate IsAdvertisement(frame: Bytes)
    requires FIRST_HEADER <= |frame|
  {
    && MESSAGE_SIZE <= PayloadLength(frame) && FIRST_HEADER + PayloadLength(frame) <= |frame|
    && frame[21] == HOP_LIMIT && frame[FIRST_HEADER + 1] == 0 && FromLinkLocal(frame)
    && BE16(frame[FIRST_HEADER + 6], frame[FIRST_HEADER + 7]) != 0
  }

  function OfferAt(frame: Bytes, c: nat): Offer
    requires FIRST_HEADER + MESSAGE_SIZE + c + PREFIX_OPTION_SIZE <= |frame|
  {
    var p := FIRST_HEADER + MESSAGE_SIZE + c;
    Offer(frame[p + 2], frame[p + 16..p + 32], BE32(frame[p + 8], frame[p + 9], frame[p + 10], frame[p + 11]),
          frame[22..38])
  }

  lemma PrefixOptionInside(o: Bytes, cuts: seq<nat>, n: nat)
    requires Options(o, cuts) && n < |cuts| && cuts[|cuts| - 1] <= |o|
    ensures var c := LastPrefix(o, cuts, n); c.Some? ==> c.value + PREFIX_OPTION_SIZE <= |o|
    decreases n
  {
  }

  /** The checks of `vReceiveRA` in front of the end-points: the offer, if the advertisement
      is valid, all its options are well-formed and the prefix length is between 1 and 128. */
  method ReceiveAdvertisement(frame: Bytes) returns (offer: Option<Offer>)
    requires FIRST_HEADER <= |frame|
    ensures !IsAdvertisement(frame) ==> offer == None
    ensures IsAdvertisement(frame) ==>
      var o := OptionArea(frame, PayloadLength(frame));
      && (!WellFormed(o) ==> offer == None)
      && (forall cuts :: Tiling(o, cuts) ==> IsOffer(frame, LastPrefix(o, cuts, |cuts| - 1), offer))
  {
    var payloadLength := PayloadLength(frame);
    if payloadLength + FIRST_HEADER > |frame| {
      return None;
    } else if payloadLength < MESSAGE_SIZE {
      return None;
    } else if frame[21] != HOP_LIMIT {
      return None;
    } else if frame[FIRST_HEADER + 1] != 0 {
      return None;
    } else if !FromLinkLocal(frame) {
      return None;
    }
    offer := None;
    if BE16(frame[FIRST_HEADER + 6], frame[FIRST_HEADER + 7]) != 0 {
      var prefix := ReadReply(frame, payloadLength);
      if prefix.Some? {
        ghost var o := OptionArea(frame, payloadLength);
        ghost var cuts :| Tiling(o, cuts);
        PrefixOptionInside(o, cuts, |cuts| - 1);
        var found := OfferAt(frame, prefix.value);
        if found.prefixLength != 0 && found.prefixLength <= 128 {
          offer := Some(found);
        }
      }
    }
  }

  // ---------------------------------------------------------------------------
  // A known advertisement.
  // ---------------------------------------------------------------------------

  /** From fe80::1, with a lifetime of 1800 seconds, and one option: the prefix 2001:db8::/64 with a
      preferred lifetime of 3600 seconds. */
  const ADVERTISEMENT: Bytes :=
    seq(18, _ => 0) + [0, 48, 58, 255] + [0xFE, 0x80] + seq(13, _ => 0) + [1] + seq(16, _ => 0)
    + [134, 0, 0, 0, 64, 0, 7, 8] + seq(8, _ => 0)
    + [3, 4, 64, 0xC0, 0, 1, 0, 0, 0, 0, 0x0E, 0x10, 0, 0, 0, 0] + [0x20, 1, 0x0D, 0xB8] + seq(12, _ => 0)

  lemma AdvertisementBytes()
    ensures var f := ADVERTISEMENT;
            && |f| == 102 && f[18] == 0 && f[19] == 48 && f[21] == 255 && f[22] == 0xFE && f[23] == 0x80
            && f[55] == 0 && f[60] == 7 && f[61] == 8 && f[70] == 3 && f[71] == 4 && f[72] == 64
            && f[78] == 0 && f[79] == 0 && f[80] == 0x0E && f[81] == 0x10
            && f[22..38] == [0xFE, 0x80] + seq(13, _ => 0) + [1]
            && f[86..102] == [0x20, 1, 0x0D, 0xB8] + seq(12, _ => 0)
  {
  }

  /** Its offer. */
  lemma AdvertisementOffer(cuts: seq<nat>)
    requires cuts == [0, 32]
    ensures IsAdvertisement(ADVERTISEMENT) && Tiling(OptionArea(ADVERTISEMENT, 48), cuts)
    ensures IsOffer(ADVERTISEMENT, LastPrefix(OptionArea(ADVERTISEMENT, 48), cuts, 1),
                    Some(Offer(64, [0x20, 1, 0x0D, 0xB8] + seq(12, _ => 0), 3600,
                               [0xFE, 0x80] + seq(13, _ => 0) + [1])))
  {
    AdvertisementBytes();
    var o := OptionArea(ADVERTISEMENT, 48);
    assert o[0] == 3 && o[1] == 4 && |o| == 32;
    assert LastPrefix(o, cuts, 1) == Some(0);
  }

  /** The same advertisement is not valid with another hop limit, a code that is not 0, a source
      that is not link-local (fe80::/10), a lifetime of 0, or a payload that is cut off. */
  lemma AdvertisementsDropped(b: Byte)
    ensures b != 255 ==> !IsAdvertisement(ADVERTISEMENT[21 := b])
    ensures b != 0 ==> !IsAdvertisement(ADVERTISEMENT[55 := b])
    ensures b != 0xFE ==> !IsAdvertisement(ADVERTISEMENT[22 := b])
    ensures (b < 0x80 || b > 0xBF) <==> !IsAdvertisement(ADVERTISEMENT[23 := b])
    ensures !IsAdvertisement(ADVERTISEMENT[60 := 0][61 := 0])
    ensures b < 16 || b > 48 ==> !IsAdvertisement(ADVERTISEMENT[19 := b])
  {
    AdvertisementBytes();
  }

  /** The prefix length has to be one of 1 to 128. */
  lemma PrefixLengthChecked(frame: Bytes, c: nat, offer: Option<Offer>)
    requires FIRST_HEADER <= |frame| && IsOffer(frame, Some(c), offer)
    ensures c + 102 <= |frame| && (offer == None <==> frame[c + 72] == 0 || frame[c + 72] > 128)
    ensures offer.Some? ==> offer.value.prefixLength == frame[c + 72]
  {
  }

  ghost predicate IsOffer(frame: Bytes, prefix: Option<nat>, offer: Option<Offer>) {
    match prefix
    case None => offer == None
    case Some(c) =>
      && FIRST_HEADER + MESSAGE_SIZE + c + PREFIX_OPTION_SIZE <= |frame|
      && var found := OfferAt(frame, c);
         offer == if 1 <= found.prefixLength <= 128 then Some(found) else None
  }
}
