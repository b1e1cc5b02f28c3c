/**
  * What the parser of IPv6 addresses makes of texts that are no addresses by section 2.2 of
  * RFC 4291: which it rejects, and which it takes for an address.
  */
module MalformedText {
  import opened Words
  import opened Ipv6Text
  import opened Ipv6Parser

  // ---------------------------------------------------------------------------
  // Rejected texts.
  // ---------------------------------------------------------------------------

  /** What follows a character that is not accepted is not read. */
  lemma {:induction false} FeedStops(p: Progress, a: string, b: string)
    requires p.value <= 0xFFFF && !Feed(p, a).1
    ensures Feed(p, a + b) == Feed(p, a)
    decreases |a|
  {
    assert (a + b)[1..] == a[1..] + b;
    if Step(p, a[0]).1 {
      FeedStops(Step(p, a[0]).0, a[1..], b);
    }
  }

  lemma RejectedBy(text: string, p: Progress)
    requires |text| > 0 && text[0] != ':' && Feed(START, text) == (p, false)
    requires p.colon == -1 && p.index < ADDRESS_SIZE
    ensures Parsed(text) == (0, ZEROS)
  {
  }

  /** A character that is no digit and no colon behind one to eight numbers. */
  lemma BadCharacterRejected(d: seq<string>, g: Groups, n: nat, c: char, rest: string)
    requires AreNumbers(d, g) && 0 < n <= GROUPS
    requires c != ':' && forall k :: 0 <= k < 16 ==> !IsDigit(c, k)
    ensures Parsed(JoinedTexts(d, 0, n) + ([c] + rest)) == (0, ZEROS)
  {
    var text := JoinedTexts(d, 0, n);
    JoinedIsText(d, g, 0, n);
    FeedJoined(START, d, g, 0, n);
    StoreAllIndex(START, g, 0, n - 1);
    StoreAllColon(START, g, 0, n - 1);
    var p := Pending(StoreAll(START, g, 0, n - 1), g[n - 1]);
    FeedAppend(START, text, [c] + rest);
    NoDigit(c);
    FeedFirst(p, c, rest);
    RejectedBy(text + ([c] + rest), p);
  }

  lemma NoDigit(c: char)
    requires forall k :: 0 <= k < 16 ==> !IsDigit(c, k)
    ensures AsciiToHex(c) == INVALID_HEX_CHAR
  {
    if AsciiToHex(c) < 16 {
      var k: nat := AsciiToHex(c);
      assert IsDigit(c, k);
    }
  }

  lemma OneDigit(digits: seq<nat>)
    ensures |digits| == 1 ==> ValueOf(digits) == digits[0]
  {
    assert |digits| == 1 ==> digits[..0] == [];
  }

  /** A number of more than 16 bits is not read to its end. */
  lemma {:induction false} FeedLarge(p: Progress, t: string, digits: seq<nat>)
    requires p.value == 0 && |t| > 0 && IsWritten(t, digits) && ValueOf(digits) > 0xFFFF
    ensures var (q, ok) := Feed(p, t);
            !ok && q.index == p.index && q.colon == p.colon && q.bytes == p.bytes
    decreases |t|
  {
    var last := |t| - 1;
    var front, c := t[..last], t[last];
    assert IsDigit(c, digits[last]);
    DigitValue(c, digits[last]);
    assert t == front + [c];
    OneDigit(digits);
    if last == 0 {
    } else if ValueOf(digits[..last]) > 0xFFFF {
      FeedLarge(p, front, digits[..last]);
      FeedStops(p, front, [c]);
    } else {
      FeedDigits(p, front, digits[..last]);
      FeedAppend(p, front, [c]);
      FeedOne(p.(value := ValueOf(digits[..last]), hadDigit := true), c);
    }
  }

  /** A number of more than 16 bits in place of one of the eight groups. */
  lemma LargeNumberRejected(d: seq<string>, g: Groups, n: nat, t: string, digits: seq<nat>, rest: string)
    requires AreNumbers(d, g) && n < GROUPS
    requires |t| > 0 && IsWritten(t, digits) && ValueOf(digits) > 0xFFFF
    ensures var before := if n > 0 then JoinedTexts(d, 0, n) + ":" else "";
            Parsed(before + (t + rest)) == (0, ZEROS)
  {
    assert IsDigit(t[0], digits[0]);
    DigitValue(t[0], digits[0]);
    StoreAllIndex(START, g, 0, n);
    StoreAllColon(START, g, 0, n);
    var p := StoreAll(START, g, 0, n);
    FeedLarge(p, t, digits);
    FeedStops(p, t, rest);
    if n > 0 {
      var text := JoinedTexts(d, 0, n);
      JoinedIsText(d, g, 0, n);
      FeedGroupsColon(d, g, n, t + rest);
      assert (text + ":") + (t + rest) == text + (":" + (t + rest));
      RejectedBy(text + (":" + (t + rest)), Feed(p, t).0);
    } else {
      assert "" + (t + rest) == t + rest;
      RejectedBy(t + rest, Feed(p, t).0);
    }
  }

  // ---------------------------------------------------------------------------
  // Accepted texts.
  // ---------------------------------------------------------------------------

  lemma FedGroups(d: seq<string>, g: Groups, n: nat) returns (p: Progress)
    requires AreNumbers(d, g) && 0 < n <= GROUPS
    ensures Feed(START, JoinedTexts(d, 0, n)) == (p, true) && p.value <= 0xFFFF
    ensures Finish(p) == StoreAll(START, g, 0, n)
  {
    FeedJoined(START, d, g, 0, n);
    StoreAllIndex(START, g, 0, n - 1);
    StoreAllSplit(START, g, 0, n);
    var q := StoreAll(START, g, 0, n - 1);
    ColonStores(q, g[n - 1]);
    p := Pending(q, g[n - 1]);
  }

  lemma StoredFront(a: Address, n: nat)
    requires n <= GROUPS && forall j :: 2 * n <= j < ADDRESS_SIZE ==> a[j] == 0
    ensures var q := StoreAll(START, GroupsOf(a), 0, n);
            q.bytes == a && q.colon == -1 && q.index == 2 * n && q.value == 0
  {
    StoreAllBytes(START, a, 0, n);
    SameBytes(a, StoreAll(START, GroupsOf(a), 0, n).bytes);
  }

  /** Eight numbers, or less than eight without "::", which are the first groups of an address. */
  lemma FewGroupsAccepted(a: Address, d: seq<string>, n: nat)
    requires AreNumbers(d, GroupsOf(a)) && 0 < n <= GROUPS
    requires forall j :: 2 * n <= j < ADDRESS_SIZE ==> a[j] == 0
    ensures Parsed(JoinedTexts(d, 0, n)) == (1, a)
  {
    JoinedIsText(d, GroupsOf(a), 0, n);
    var p := FedGroups(d, GroupsOf(a), n);
    StoredFront(a, n);
    GroupsAccepted(a, JoinedTexts(d, 0, n), p);
  }

  lemma GroupsAccepted(a: Address, text: string, p: Progress)
    requires |text| > 0 && text[0] != ':' && Feed(START, text) == (p, true) && p.value <= 0xFFFF
    requires Finish(p).colon == -1 && Finish(p).bytes == a
    ensures Parsed(text) == (1, a)
  {
    ParsedBy(text, text, p);
  }

  /** The target is full. */
  predicate IsFull(p: Progress, a: Address) {
    p.value <= 0xFFFF && p.index == ADDRESS_SIZE && p.bytes == a && (p.colon == -1 || p.colon == ADDRESS_SIZE)
  }

  lemma {:induction false} FeedFull(p: Progress, a: Address, s: string)
    requires IsFull(p, a)
    ensures var q := Feed(p, s).0;
            q.index == ADDRESS_SIZE && q.bytes == a && (q.colon == -1 || q.colon == ADDRESS_SIZE)
    decreases |s|
  {
    if |s| > 0 && Step(p, s[0]).1 {
      FeedFull(Step(p, s[0]).0, a, s[1..]);
    }
  }

  /** Whatever follows eight numbers and a colon is ignored. */
  lemma EightGroupsEnough(a: Address, d: seq<string>, n: nat, rest: string)
    requires n == GROUPS && AreNumbers(d, GroupsOf(a))
    ensures Parsed(JoinedTexts(d, 0, n) + (":" + rest)) == (1, a)
  {
    var g, text := GroupsOf(a), JoinedTexts(d, 0, n);
    JoinedIsText(d, g, 0, n);
    FeedGroupsColon(d, g, n, rest);
    StoredFront(a, n);
    FeedFull(StoreAll(START, g, 0, n), a, rest);
    FullAccepted(text + (":" + rest), a);
  }

  lemma FullAccepted(text: string, a: Address)
    requires |text| > 0 && text[0] != ':'
    requires var q := Feed(START, text).0;
             q.index == ADDRESS_SIZE && q.bytes == a && (q.colon == -1 || q.colon == ADDRESS_SIZE)
    ensures Parsed(text) == (1, a)
  {
    SameBytes(a, WithZeros(a, ADDRESS_SIZE, ADDRESS_SIZE));
  }

  lemma {:induction false} FeedKeepsColon(p: Progress, s: string)
    requires p.value <= 0xFFFF && p.colon >= 0
    ensures Feed(p, s).0.colon == p.colon
    decreases |s|
  {
    if |s| > 0 && Step(p, s[0]).1 {
      FeedKeepsColon(Step(p, s[0]).0, s[1..]);
    }
  }

  lemma ColonAccepted(text: string, t: string)
    requires |t| > 0 && ((text == t && t[0] != ':') || text == ":" + t)
    requires Feed(START, t).0.colon >= 0
    ensures Parsed(text).0 == 1
  {
    FeedWellFormed(START, t);
    assert text == ":" + t ==> text[1..] == t;
  }

  lemma ColonsFed(d: seq<string>, g: Groups, n: nat, rest: string, t: string)
    requires AreNumbers(d, g) && n < GROUPS
    requires t == (if n > 0 then JoinedTexts(d, 0, n) + ":" else "") + (":" + rest)
    ensures Feed(START, t).0.colon >= 0
  {
    FeedFront(d, g, Run(n, 1), rest);
    FeedKeepsColon(StoreAll(START, g, 0, n).(colon := 2 * n), rest);
  }

  lemma ColonsJoined(before: string, rest: string)
    ensures (before + ":") + (":" + rest) == before + ("::" + rest)
    ensures "" + (":" + rest) == ":" + rest && "" + ("::" + rest) == ":" + (":" + rest)
  {
  }

  /** Behind "::" no text is rejected. */
  lemma NothingRejectedBehindColons(d: seq<string>, g: Groups, n: nat, rest: string)
    requires AreNumbers(d, g) && n < GROUPS
    ensures Parsed(JoinedTexts(d, 0, n) + ("::" + rest)).0 == 1
  {
    var text := JoinedTexts(d, 0, n);
    ColonsJoined(text, rest);
    if n > 0 {
      JoinedIsText(d, g, 0, n);
      ColonsFed(d, g, n, rest, (text + ":") + (":" + rest));
      ColonAccepted(text + ("::" + rest), (text + ":") + (":" + rest));
    } else {
      ColonsFed(d, g, n, rest, "" + (":" + rest));
      ColonAccepted(text + ("::" + rest), ":" + rest);
    }
  }
}
