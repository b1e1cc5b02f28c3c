/**
  * The parser `FreeRTOS_inet_pton6`: a one-pass state machine that stores each group as it
  * ends, and moves the groups behind "::" to the end of the address in place.
  */
module Ipv6Parser {
  import opened Words
  import opened Ipv6Text

  /** `socketINVALID_HEX_CHAR`. */
  const INVALID_HEX_CHAR := 0xFF
  /** `xHighestIndex`: where the last group is stored. */
  const HIGHEST_INDEX := ADDRESS_SIZE - 2

  /** `ucASCIIToHex`. */
  function AsciiToHex(c: char): Byte {
    if '0' <= c <= '9' then c as int - '0' as int
    else if 'a' <= c <= 'f' then c as int - 'a' as int + 10
    else if 'A' <= c <= 'F' then c as int - 'A' as int + 10
    else INVALID_HEX_CHAR
  }

  /** The variables of the parser and the bytes of the target. */
  datatype Progress = Progress(value: nat, hadDigit: bool, index: nat, colon: int, bytes: Address)

  const ZEROS: Address := [0, 0, 0, 0, 0, 0, 0, 0, 0, 0, 0, 0, 0, 0, 0, 0]
  const START := Progress(0, false, 0, -1, ZEROS)

  predicate WellFormed(p: Progress) {
    && p.value <= 0xF_FFFF && p.index <= ADDRESS_SIZE && p.index % 2 == 0
    && -1 <= p.colon <= p.index
    && forall j :: p.index <= j < ADDRESS_SIZE ==> p.bytes[j] == 0
  }

  function Store(p: Progress, value: Word16): Progress
    requires p.index <= HIGHEST_INDEX
  {
    p.(bytes := p.bytes[p.index := HighByte(value)][p.index + 1 := LowByte(value)],
       index := p.index + 2, hadDigit := false, value := 0)
  }

  /** `prv_inet_pton6_add_nibble`: the new state and whether the character is accepted. */
  function Step(p: Progress, c: char): (Progress, bool)
    requires p.value <= 0xFFFF
  {
    var digit := AsciiToHex(c);
    if digit != INVALID_HEX_CHAR then
      var value := 16 * p.value + digit;
      (p.(value := value, hadDigit := true), value <= 0xFFFF)
    else if c == ':' then
      if !p.hadDigit then
        if p.colon >= 0 then (p, false) else (p.(colon := p.index), true)
      else if p.index <= HIGHEST_INDEX then (Store(p, p.value), true)
      else (p, false)
    else (p, false)
  }

  /** Reading characters until one is not accepted. */
  function Feed(p: Progress, s: string): (Progress, bool)
    requires p.value <= 0xFFFF
    decreases |s|
  {
    if |s| == 0 then (p, true)
    else
      var (q, ok) := Step(p, s[0]);
      if ok then Feed(q, s[1..]) else (q, false)
  }

  /** At the end of the text, a pending group is stored. */
  function Finish(p: Progress): Progress
    requires p.value <= 0xFFFF
  {
    if p.hadDigit && p.index <= HIGHEST_INDEX then Store(p, p.value) else p
  }

  /** `prv_inet_pton6_set_zeros`: the bytes behind the "::" become the last ones. When there
      is no room for a zero in between, they are overwritten with zeros. */
  function SetZerosAt(bytes: Address, colon: nat, index: nat, j: nat): Byte
    requires colon <= index <= ADDRESS_SIZE && j < ADDRESS_SIZE
  {
    var count := index - colon;
    if j < colon then bytes[j]
    else if index < ADDRESS_SIZE && ADDRESS_SIZE - count <= j then bytes[j - (ADDRESS_SIZE - index)]
    else if j < index then 0
    else bytes[j]
  }

  function WithZeros(bytes: Address, colon: nat, index: nat): Address
    requires colon <= index <= ADDRESS_SIZE
  {
    seq(ADDRESS_SIZE, j requires 0 <= j < ADDRESS_SIZE => SetZerosAt(bytes, colon, index, j))
  }

  /** The text of a C string: everything in front of the first NUL. */
  function CString(s: seq<char>): string {
    if |s| == 0 || s[0] == '\0' then "" else [s[0]] + CString(s[1..])
  }

  /** What is stored when the text has been read, and the answer for its last character. */
  function ReadAll(t: string): (r: (Progress, bool))
    ensures WellFormed(r.0)
  {
    FeedWellFormed(START, t);
    var (p, ok) := Feed(START, t);
    (if ok then Finish(p) else p, ok && |t| > 0)
  }

  /** `FreeRTOS_inet_pton6`: the result and the address. */
  function Parsed(text: string): (int, Address) {
    if text == "::" then (1, ZEROS)
    else
      var (q, last) := ReadAll(if |text| > 0 && text[0] == ':' then text[1..] else text);
      Concluded(q, last)
  }

  /** The verdict on what has been read; `last` is the answer for the last character. */
  function Concluded(q: Progress, last: bool): (int, Address)
    requires WellFormed(q)
  {
    if q.colon >= 0 then (1, WithZeros(q.bytes, q.colon, q.index))
    else if q.index == ADDRESS_SIZE || last then (1, q.bytes)
    else (0, ZEROS)
  }

  lemma StepWellFormed(p: Progress, c: char)
    requires WellFormed(p) && p.value <= 0xFFFF
    ensures WellFormed(Step(p, c).0) && (Step(p, c).1 ==> Step(p, c).0.value <= 0xFFFF)
  {
  }

  lemma {:induction false} FeedWellFormed(p: Progress, s: string)
    requires WellFormed(p) && p.value <= 0xFFFF
    ensures WellFormed(Feed(p, s).0) && (Feed(p, s).1 ==> Feed(p, s).0.value <= 0xFFFF)
    ensures Feed(p, s).1 ==> WellFormed(Finish(Feed(p, s).0))
    decreases |s|
  {
    if |s| > 0 {
      StepWellFormed(p, s[0]);
      var (q, ok) := Step(p, s[0]);
      if ok {
        FeedWellFormed(q, s[1..]);
      }
    }
  }

  // ---------------------------------------------------------------------------
  // Parsing the canonical text.
  // ---------------------------------------------------------------------------

  lemma {:induction false} FeedAppend(p: Progress, a: string, b: string)
    requires p.value <= 0xFFFF && Feed(p, a).1 && Feed(p, a).0.value <= 0xFFFF
    ensures Feed(p, a + b) == Feed(Feed(p, a).0, b)
    decreases |a|
  {
    if |a| == 0 {
      assert a + b == b;
    } else {
      var (q, ok) := Step(p, a[0]);
      FeedAppend(q, a[1..], b);
      assert (a + b)[1..] == a[1..] + b;
    }
  }

  // The digits of hexadecimal numbers, in either case.
  const LOWER_DIGITS := "0123456789abcdef"
  const UPPER_DIGITS := "0123456789ABCDEF"

  predicate IsDigit(c: char, n: nat) {
    n < 16 && (LOWER_DIGITS[n] == c || UPPER_DIGITS[n] == c)
  }

  function ValueOf(digits: seq<nat>): nat {
    if |digits| == 0 then 0 else 16 * ValueOf(digits[..|digits| - 1]) + digits[|digits| - 1]
  }

  ghost predicate IsWritten(t: string, digits: seq<nat>) {
    |t| == |digits| && forall i :: 0 <= i < |t| ==> IsDigit(t[i], digits[i])
  }

  /** The text is a number of one or more digits with the value `v`, and may have leading zeros. */
  ghost predicate IsNumber(t: string, v: Word16) {
    |t| > 0 && exists digits :: IsWritten(t, digits) && ValueOf(digits) == v
  }

  lemma DigitValue(c: char, n: nat)
    requires IsDigit(c, n)
    ensures AsciiToHex(c) == n && c != ':' && c != '\0'
  {
  }

  lemma {:induction false} FeedDigits(p: Progress, t: string, digits: seq<nat>)
    requires p.value == 0 && |t| > 0 && IsWritten(t, digits) && ValueOf(digits) <= 0xFFFF
    ensures Feed(p, t) == (p.(value := ValueOf(digits), hadDigit := true), true)
    decreases |t|
  {
    var last := |t| - 1;
    var front, c := t[..last], t[last];
    var n := digits[last];
    assert IsDigit(c, n);
    DigitValue(c, n);
    assert t == front + [c];
    if last == 0 {
      assert front + [c] == [c] && digits[..last] == [];
      FeedOne(p, c);
    } else {
      FeedDigits(p, front, digits[..last]);
      FeedAppend(p, front, [c]);
      FeedOne(p.(value := ValueOf(digits[..last]), hadDigit := true), c);
    }
  }

  lemma FeedNumber(p: Progress, t: string, v: Word16)
    requires p.value == 0 && IsNumber(t, v)
    ensures Feed(p, t) == (p.(value := v, hadDigit := true), true)
  {
    var digits :| IsWritten(t, digits) && ValueOf(digits) == v;
    FeedDigits(p, t, digits);
  }

  lemma NumberIsText(t: string, v: Word16)
    requires IsNumber(t, v)
    ensures '\0' !in t && t[0] != ':'
  {
    var digits :| IsWritten(t, digits) && ValueOf(digits) == v;
    forall i | 0 <= i < |t|
      ensures t[i] != ':' && t[i] != '\0'
    {
      assert IsDigit(t[i], digits[i]);
      DigitValue(t[i], digits[i]);
    }
  }

  /** A text for each group. */
  ghost predicate AreNumbers(d: seq<string>, g: Groups) {
    |d| == GROUPS && forall i :: 0 <= i < GROUPS ==> IsNumber(d[i], g[i])
  }

  /** The texts from `i` to `end`, with colons in between. */
  function JoinedTexts(d: seq<string>, i: nat, end: nat): string
    requires i <= end <= |d|
    decreases end - i
  {
    if i == end then "" else d[i] + if i + 1 < end then ":" + JoinedTexts(d, i + 1, end) else ""
  }

  /** The whole text; "::" stands for the run. */
  function TextOf(d: seq<string>, run: Run): string
    requires run.Run? ==> run.start + run.length <= |d|
  {
    match run
    case NoRun => JoinedTexts(d, 0, |d|)
    case Run(start, length) => JoinedTexts(d, 0, start) + "::" + JoinedTexts(d, start + length, |d|)
  }

  lemma FeedOne(p: Progress, c: char)
    requires p.value <= 0xFFFF
    ensures Feed(p, [c]) == Step(p, c)
  {
    var (q, ok) := Step(p, c);
    if ok {
      assert [c][1..] == "";
    }
  }

  /** Storing the groups from `i` to `end`. */
  function StoreAll(p: Progress, g: Groups, i: nat, end: nat): Progress
    requires i <= end <= GROUPS && p.index + 2 * (end - i) <= ADDRESS_SIZE
    decreases end - i
  {
    if i == end then p else StoreAll(Store(p, g[i]), g, i + 1, end)
  }

  /** The stored bytes are those of the groups, in network order. */
  lemma {:induction false} StoreAllBytes(p: Progress, a: Address, i: nat, end: nat)
    requires i <= end <= GROUPS && p.index + 2 * (end - i) <= ADDRESS_SIZE
    ensures var q := StoreAll(p, GroupsOf(a), i, end);
            && q.index == p.index + 2 * (end - i) && q.colon == p.colon
            && (i < end ==> !q.hadDigit && q.value == 0)
            && (forall j :: 0 <= j < p.index || q.index <= j < ADDRESS_SIZE ==> q.bytes[j] == p.bytes[j])
            && (forall j :: p.index <= j < q.index ==> q.bytes[j] == a[2 * i + (j - p.index)])
    decreases end - i
  {
    if i < end {
      var g := GroupsOf(a);
      WordParts(a[2 * i], a[2 * i + 1]);
      StoreAllBytes(Store(p, g[i]), a, i + 1, end);
    }
  }

  lemma {:induction false} StoreAllSplit(p: Progress, g: Groups, i: nat, end: nat)
    requires i < end <= GROUPS && p.index + 2 * (end - i) <= ADDRESS_SIZE
    ensures var q := StoreAll(p, g, i, end - 1);
            q.index == p.index + 2 * (end - 1 - i) && StoreAll(p, g, i, end) == Store(q, g[end - 1])
    decreases end - i
  {
    if i + 1 < end {
      StoreAllSplit(Store(p, g[i]), g, i + 1, end);
    }
  }

  /** Waiting for the end of the group `v`: everything in front of it is stored in `p`. */
  function Pending(p: Progress, v: Word16): Progress {
    p.(value := v, hadDigit := true)
  }

  lemma ColonStores(p: Progress, v: Word16)
    requires p.value == 0 && !p.hadDigit && p.index <= HIGHEST_INDEX
    ensures Step(Pending(p, v), ':') == (Store(p, v), true)
    ensures Finish(Pending(p, v)) == Store(p, v)
  {
  }

  /** Reading groups separated by colons stores all but the last one, which is pending. */
  lemma {:induction false} FeedJoined(p: Progress, d: seq<string>, g: Groups, i: nat, end: nat)
    requires p.value == 0 && !p.hadDigit && AreNumbers(d, g)
    requires i < end <= GROUPS && p.index + 2 * (end - i) <= ADDRESS_SIZE
    ensures Feed(p, JoinedTexts(d, i, end)) == (Pending(StoreAll(p, g, i, end - 1), g[end - 1]), true)
    decreases end - i
  {
    FeedNumber(p, d[i], g[i]);
    if i + 1 < end {
      var rest := JoinedTexts(d, i + 1, end);
      FeedAppend(p, d[i], ":" + rest);
      ColonStores(p, g[i]);
      FeedFirst(Pending(p, g[i]), ':', rest);
      FeedJoined(Store(p, g[i]), d, g, i + 1, end);
    } else {
      assert d[i] + "" == d[i];
    }
  }

  lemma FeedFirst(p: Progress, c: char, rest: string)
    requires p.value <= 0xFFFF
    ensures Feed(p, [c] + rest) == if Step(p, c).1 then Feed(Step(p, c).0, rest) else Step(p, c)
  {
    assert ([c] + rest)[1..] == rest;
  }

  lemma {:induction false} StoreAllIndex(p: Progress, g: Groups, i: nat, end: nat)
    requires i <= end <= GROUPS && p.index + 2 * (end - i) <= ADDRESS_SIZE
    ensures StoreAll(p, g, i, end).index == p.index + 2 * (end - i)
    ensures p.value == 0 && !p.hadDigit ==> StoreAll(p, g, i, end).value == 0 && !StoreAll(p, g, i, end).hadDigit
    decreases end - i
  {
    if i < end {
      StoreAllIndex(Store(p, g[i]), g, i + 1, end);
    }
  }

  lemma ZeroWord(hi: Byte, lo: Byte)
    requires BE16(hi, lo) == 0
    ensures hi == 0 && lo == 0
  {
  }

  lemma GroupZero(a: Address, i: nat)
    requires i < GROUPS && GroupsOf(a)[i] == 0
    ensures a[2 * i] == 0 && a[2 * i + 1] == 0
  {
    ZeroWord(a[2 * i], a[2 * i + 1]);
  }

  lemma ZeroGroups(a: Address, i: nat, end: nat)
    requires i <= end <= GROUPS
    requires forall k :: i <= k < end ==> GroupsOf(a)[k] == 0
    ensures forall j :: 2 * i <= j < 2 * end ==> a[j] == 0
  {
    forall j | 2 * i <= j < 2 * end
      ensures a[j] == 0
    {
      GroupZero(a, j / 2);
    }
  }

  /** Byte `j` when `k` bytes in front of `index` have been moved to the end, each one leaving a
      zero behind. */
  function ShiftedAt(b: seq<Byte>, index: nat, k: nat, j: nat): Byte
    requires k <= index <= ADDRESS_SIZE <= |b| && j < |b|
  {
    if ADDRESS_SIZE <= j then b[j]
    else if ADDRESS_SIZE - k <= j then if index < ADDRESS_SIZE then b[j - (ADDRESS_SIZE - index)] else 0
    else if index - k <= j < index then 0
    else b[j]
  }

  lemma AllShifted(b: seq<Byte>, colon: nat, index: nat, c: seq<Byte>)
    requires colon <= index <= ADDRESS_SIZE <= |b| == |c|
    requires forall j :: 0 <= j < |b| ==> c[j] == ShiftedAt(b, index, index - colon, j)
    ensures c[..ADDRESS_SIZE] == WithZeros(b[..ADDRESS_SIZE], colon, index)
    ensures c[ADDRESS_SIZE..] == b[ADDRESS_SIZE..]
  {
  }

  /** The bytes of `a` without a gap of `gap` bytes at `colon`, and zeros behind them. */
  ghost predicate IsGapped(a: Address, bytes: Address, colon: nat, gap: nat) {
    && colon + gap <= ADDRESS_SIZE
    && (forall j :: 0 <= j < colon ==> bytes[j] == a[j])
    && (forall j :: colon <= j < ADDRESS_SIZE - gap ==> bytes[j] == a[j + gap])
    && (forall j :: ADDRESS_SIZE - gap <= j < ADDRESS_SIZE ==> bytes[j] == 0)
  }

  /** Moving the bytes behind the gap to the end and clearing the gap. */
  lemma GapFilled(a: Address, bytes: Address, colon: nat, gap: nat)
    requires 0 < gap && IsGapped(a, bytes, colon, gap)
    requires forall j :: colon <= j < colon + gap ==> a[j] == 0
    ensures WithZeros(bytes, colon, ADDRESS_SIZE - gap) == a
  {
    forall j | 0 <= j < ADDRESS_SIZE
      ensures SetZerosAt(bytes, colon, ADDRESS_SIZE - gap, j) == a[j]
    {
      if colon + gap <= j {
        assert bytes[j - gap] == a[j];
      }
    }
  }

  /** The groups in front of "::" are stored and the target is clear behind them. */
  ghost predicate HasFront(a: Address, front: Progress, run: Run)
    requires run.Run?
  {
    && front.index == 2 * run.start == front.colon && front.value == 0 && !front.hadDigit
    && (forall j :: 0 <= j < ADDRESS_SIZE ==> front.bytes[j] == if j < front.index then a[j] else 0)
  }

  lemma FrontBytes(a: Address, run: Run)
    requires run.Run? && run.start <= GROUPS
    ensures StoreAll(START, GroupsOf(a), 0, run.start).index == 2 * run.start
    ensures HasFront(a, StoreAll(START, GroupsOf(a), 0, run.start).(colon := 2 * run.start), run)
  {
    StoreAllIndex(START, GroupsOf(a), 0, run.start);
    StoreAllBytes(START, a, 0, run.start);
  }

  lemma BehindBytes(a: Address, front: Progress, run: Run, colon: nat, gap: nat)
    requires run.Run? && run.length > 0 && run.start + run.length <= GROUPS
    requires HasFront(a, front, run) && colon == 2 * run.start && gap == 2 * run.length
    ensures var q := StoreAll(front, GroupsOf(a), run.start + run.length, GROUPS);
            q.colon == colon && q.index == ADDRESS_SIZE - gap && IsGapped(a, q.bytes, colon, gap)
  {
    StoreAllBytes(front, a, run.start + run.length, GROUPS);
  }

  lemma GapOfRun(a: Address, q: Progress, run: Run)
    requires run.Run? && run.length > 0 && run.start + run.length <= GROUPS
    requires forall i :: run.start <= i < run.start + run.length ==> GroupsOf(a)[i] == 0
    requires q.colon == 2 * run.start && q.index == ADDRESS_SIZE - 2 * run.length
    requires IsGapped(a, q.bytes, 2 * run.start, 2 * run.length)
    ensures WithZeros(q.bytes, q.colon, q.index) == a
  {
    ZeroGroups(a, run.start, run.start + run.length);
    GapFilled(a, q.bytes, 2 * run.start, 2 * run.length);
  }

  lemma ZerosRestored(a: Address, front: Progress, run: Run)
    requires run.Run? && run.length > 0 && run.start + run.length <= GROUPS
    requires forall i :: run.start <= i < run.start + run.length ==> GroupsOf(a)[i] == 0
    requires HasFront(a, front, run)
    ensures var q := StoreAll(front, GroupsOf(a), run.start + run.length, GROUPS);
            && q.colon == 2 * run.start && q.index == ADDRESS_SIZE - 2 * run.length
            && WithZeros(q.bytes, q.colon, q.index) == a
  {
    BehindBytes(a, front, run, 2 * run.start, 2 * run.length);
    GapOfRun(a, StoreAll(front, GroupsOf(a), run.start + run.length, GROUPS), run);
  }

  lemma {:induction false} JoinedIsText(d: seq<string>, g: Groups, i: nat, end: nat)
    requires i <= end <= GROUPS && AreNumbers(d, g)
    ensures '\0' !in JoinedTexts(d, i, end)
    ensures i < end ==> |JoinedTexts(d, i, end)| > 0 && JoinedTexts(d, i, end)[0] != ':'
    decreases end - i
  {
    if i < end {
      NumberIsText(d[i], g[i]);
      JoinedIsText(d, g, i + 1, end);
    }
  }

  lemma ParsedBy(text: string, t: string, p: Progress)
    requires text != "::" && |t| > 0
    requires (text == t && t[0] != ':') || text == ":" + t
    requires Feed(START, t) == (p, true) && p.value <= 0xFFFF
    ensures WellFormed(Finish(p)) && Parsed(text) == Concluded(Finish(p), true)
  {
    FeedWellFormed(START, t);
    assert text == ":" + t ==> text[1..] == t;
  }

  lemma SameBytes(a: Address, bytes: Address)
    requires forall j :: 0 <= j < ADDRESS_SIZE ==> bytes[j] == a[j]
    ensures bytes == a
  {
  }

  /** Groups separated by colons fill the target up to the last one. */
  lemma FeedAllGroups(a: Address, d: seq<string>, end: nat) returns (p: Progress)
    requires end == GROUPS && AreNumbers(d, GroupsOf(a))
    ensures Feed(START, JoinedTexts(d, 0, end)) == (p, true) && p.value <= 0xFFFF
    ensures Finish(p).index == ADDRESS_SIZE && Finish(p).colon == -1 && Finish(p).bytes == a
  {
    var g := GroupsOf(a);
    var last := end - 1;
    FeedJoined(START, d, g, 0, end);
    StoreAllSplit(START, g, 0, end);
    StoreAllIndex(START, g, 0, last);
    var q := StoreAll(START, g, 0, last);
    p := Pending(q, g[last]);
    ColonStores(q, g[last]);
    StoreAllBytes(START, a, 0, end);
    SameBytes(a, StoreAll(START, g, 0, end).bytes);
  }

  /** A text without "::". */
  lemma ParsedAllGroups(a: Address, d: seq<string>, end: nat)
    requires end == GROUPS && AreNumbers(d, GroupsOf(a))
    ensures Parsed(JoinedTexts(d, 0, end)) == (1, a)
  {
    JoinedIsText(d, GroupsOf(a), 0, end);
    var p := FeedAllGroups(a, d, end);
    ParsedGroups(a, JoinedTexts(d, 0, end), p);
  }

  lemma ParsedGroups(a: Address, text: string, p: Progress)
    requires |text| > 0 && text[0] != ':'
    requires Feed(START, text) == (p, true) && p.value <= 0xFFFF
    requires Finish(p).index == ADDRESS_SIZE && Finish(p).colon == -1 && Finish(p).bytes == a
    ensures Parsed(text) == (1, a)
  {
    ParsedBy(text, text, p);
  }

  /** The groups behind "::". */
  lemma FeedBehind(front: Progress, d: seq<string>, g: Groups, run: Run)
    requires AreNumbers(d, g) && run.Run? && run.length > 0 && run.start + run.length <= GROUPS
    requires front.index == 2 * run.start && front.value == 0 && !front.hadDigit
    ensures var (p, ok) := Feed(front, JoinedTexts(d, run.start + run.length, GROUPS));
            ok && p.value <= 0xFFFF && Finish(p) == StoreAll(front, g, run.start + run.length, GROUPS)
  {
    var i := run.start + run.length;
    if i < GROUPS {
      FeedJoined(front, d, g, i, GROUPS);
      StoreAllSplit(front, g, i, GROUPS);
      StoreAllIndex(front, g, i, GROUPS - 1);
      ColonStores(StoreAll(front, g, i, GROUPS - 1), g[GROUPS - 1]);
    }
  }

  /** Groups and the colon behind them. */
  lemma FeedGroupsColon(d: seq<string>, g: Groups, n: nat, rest: string)
    requires 0 < n <= GROUPS && AreNumbers(d, g)
    ensures StoreAll(START, g, 0, n).value == 0
    ensures Feed(START, JoinedTexts(d, 0, n) + (":" + rest)) == Feed(StoreAll(START, g, 0, n), rest)
  {
    var text, last := JoinedTexts(d, 0, n), g[n - 1];
    StoreAllIndex(START, g, 0, n - 1);
    StoreAllIndex(START, g, 0, n);
    var p := StoreAll(START, g, 0, n - 1);
    FeedJoined(START, d, g, 0, n);
    StoreAllSplit(START, g, 0, n);
    ColonStores(p, last);
    FeedAppend(START, text, ":" + rest);
    FeedFirst(Pending(p, last), ':', rest);
  }

  /** The second colon of "::" marks the place. */
  lemma FeedSecondColon(g: Groups, n: nat, rest: string)
    requires n < GROUPS
    ensures StoreAll(START, g, 0, n).index == 2 * n && StoreAll(START, g, 0, n).value == 0
    ensures var front := StoreAll(START, g, 0, n).(colon := 2 * n);
            && front.value == 0 && !front.hadDigit
            && Feed(StoreAll(START, g, 0, n), ":" + rest) == Feed(front, rest)
  {
    StoreAllIndex(START, g, 0, n);
    StoreAllColon(START, g, 0, n);
    FeedFirst(StoreAll(START, g, 0, n), ':', rest);
  }

  /** The groups in front of "::" and the two colons; at the start of a text the parser has
      skipped the first of them. */
  lemma FeedFront(d: seq<string>, g: Groups, run: Run, rest: string)
    requires AreNumbers(d, g) && run.Run? && run.length > 0 && run.start + run.length <= GROUPS
    ensures StoreAll(START, g, 0, run.start).index == 2 * run.start
    ensures var front := StoreAll(START, g, 0, run.start).(colon := 2 * run.start);
            && front.value == 0 && !front.hadDigit
            && Feed(START, (if run.start > 0 then JoinedTexts(d, 0, run.start) + ":" else "") + (":" + rest))
               == Feed(front, rest)
  {
    FeedSecondColon(g, run.start, rest);
    if run.start > 0 {
      var text := JoinedTexts(d, 0, run.start);
      FeedGroupsColon(d, g, run.start, ":" + rest);
      assert text + ":" + (":" + rest) == text + (":" + (":" + rest));
    } else {
      assert "" + (":" + rest) == ":" + rest;
    }
  }

  lemma {:induction false} StoreAllColon(p: Progress, g: Groups, i: nat, end: nat)
    requires i <= end <= GROUPS && p.index + 2 * (end - i) <= ADDRESS_SIZE
    ensures StoreAll(p, g, i, end).colon == p.colon
    decreases end - i
  {
    if i < end {
      StoreAllColon(Store(p, g[i]), g, i + 1, end);
    }
  }

  /** The text up to the end of "::" and the groups behind it. */
  lemma FeedWithRun(a: Address, d: seq<string>, run: Run, t: string) returns (p: Progress)
    requires AreNumbers(d, GroupsOf(a)) && run.Run? && run.length > 0 && run.start + run.length <= GROUPS
    requires forall i :: run.start <= i < run.start + run.length ==> GroupsOf(a)[i] == 0
    requires t == (if run.start > 0 then JoinedTexts(d, 0, run.start) + ":" else "")
                  + (":" + JoinedTexts(d, run.start + run.length, GROUPS))
    ensures Feed(START, t) == (p, true) && p.value <= 0xFFFF
    ensures var q := Finish(p);
            && q.colon >= 0 && q.colon <= q.index <= ADDRESS_SIZE && WithZeros(q.bytes, q.colon, q.index) == a
  {
    var g := GroupsOf(a);
    var behind := JoinedTexts(d, run.start + run.length, GROUPS);
    FrontBytes(a, run);
    var front := StoreAll(START, g, 0, run.start).(colon := 2 * run.start);
    FeedFront(d, g, run, behind);
    FeedBehind(front, d, g, run);
    ZerosRestored(a, front, run);
    p := Feed(front, behind).0;
  }

  lemma OnlyColons(a: Address, d: seq<string>, run: Run)
    requires AreNumbers(d, GroupsOf(a)) && run.Run? && run.length > 0 && run.start + run.length <= GROUPS
    requires forall i :: run.start <= i < run.start + run.length ==> GroupsOf(a)[i] == 0
    requires |TextOf(d, run)| == 2
    ensures a == ZEROS
  {
    var g := GroupsOf(a);
    JoinedIsText(d, g, 0, run.start);
    JoinedIsText(d, g, run.start + run.length, GROUPS);
    assert run.start == 0 && run.length == GROUPS;
    ZeroGroups(a, 0, run.length);
    SameBytes(a, ZEROS);
  }

  lemma ParsedWithColons(a: Address, text: string, t: string, p: Progress)
    requires |text| > 2 && |t| > 0 && ((text == t && t[0] != ':') || text == ":" + t)
    requires Feed(START, t) == (p, true) && p.value <= 0xFFFF
    requires var q := Finish(p);
            && q.colon >= 0 && q.colon <= q.index <= ADDRESS_SIZE && WithZeros(q.bytes, q.colon, q.index) == a
    ensures Parsed(text) == (1, a)
  {
    ParsedBy(text, t, p);
  }

  lemma ParsedWithRun(a: Address, d: seq<string>, run: Run)
    requires AreNumbers(d, GroupsOf(a)) && run.Run? && run.length > 0 && run.start + run.length <= GROUPS
    requires forall i :: run.start <= i < run.start + run.length ==> GroupsOf(a)[i] == 0
    ensures Parsed(TextOf(d, run)) == (1, a)
  {
    var before, behind := JoinedTexts(d, 0, run.start), JoinedTexts(d, run.start + run.length, GROUPS);
    if |TextOf(d, run)| == 2 {
      OnlyColons(a, d, run);
      assert TextOf(d, run) == "::";
    } else {
      JoinedIsText(d, GroupsOf(a), 0, run.start);
      var t := (if run.start > 0 then before + ":" else "") + (":" + behind);
      TextOfPieces(run, before, behind);
      var p := FeedWithRun(a, d, run, t);
      ParsedWithColons(a, TextOf(d, run), t, p);
    }
  }

  lemma TextOfPieces(run: Run, before: string, behind: string)
    requires run.Run?
    requires run.start == 0 ==> before == ""
    requires run.start > 0 ==> |before| > 0 && before[0] != ':'
    ensures var t := (if run.start > 0 then before + ":" else "") + (":" + behind);
            && |t| > 0
            && before + "::" + behind == (if run.start == 0 then ":" + t else t)
            && (run.start > 0 ==> t[0] != ':')
  {
    assert (before + ":") + (":" + behind) == before + "::" + behind;
  }

  /** Every text of an address is parsed to exactly that address: eight numbers separated by
      colons, or fewer around one "::" that stands for the groups left out, which are zero. The
      digits may be in either case, and there may be leading zeros. */
  lemma AnyTextParsed(a: Address, d: seq<string>, run: Run)
    requires AreNumbers(d, GroupsOf(a))
    requires run.Run? ==>
               && run.length > 0 && run.start + run.length <= GROUPS
               && forall i :: run.start <= i < run.start + run.length ==> GroupsOf(a)[i] == 0
    ensures Parsed(TextOf(d, run)) == (1, a) && '\0' !in TextOf(d, run)
  {
    match run
    case NoRun =>
      ParsedAllGroups(a, d, GROUPS);
      JoinedIsText(d, GroupsOf(a), 0, GROUPS);
    case Run(start, length) =>
      ParsedWithRun(a, d, run);
      JoinedIsText(d, GroupsOf(a), 0, start);
      JoinedIsText(d, GroupsOf(a), start + length, GROUPS);
  }

  lemma HexDigitIs(n: nat)
    requires n < 16
    ensures IsDigit(HexDigit(n), n)
  {
  }

  lemma {:induction false} HexWritten(v: nat) returns (digits: seq<nat>)
    ensures IsWritten(Hex(v), digits) && ValueOf(digits) == v
    decreases v
  {
    HexDigitIs(v % 16);
    if v < 16 {
      digits := [v];
      assert digits[..0] == [];
    } else {
      var front := HexWritten(v / 16);
      digits := front + [v % 16];
      assert digits[..|front|] == front;
    }
  }

  /** The texts that the printer uses. */
  function HexTexts(g: Groups): seq<string> {
    seq(GROUPS, i requires 0 <= i < GROUPS => Hex(g[i]))
  }

  lemma HexTextsAreNumbers(g: Groups)
    ensures AreNumbers(HexTexts(g), g)
  {
    forall i | 0 <= i < GROUPS
      ensures IsNumber(HexTexts(g)[i], g[i])
    {
      var digits := HexWritten(g[i]);
      assert IsWritten(HexTexts(g)[i], digits);
    }
  }

  lemma {:induction false} JoinedHex(g: Groups, i: nat, end: nat)
    requires i <= end <= GROUPS
    ensures Joined(g, i, end) == JoinedTexts(HexTexts(g), i, end)
    decreases end - i
  {
    if i < end {
      JoinedHex(g, i + 1, end);
    }
  }

  /** Parsing the canonical text of an address gives exactly that address. */
  lemma TextRoundTrip(a: Address)
    ensures Parsed(Text(GroupsOf(a))) == (1, a)
    ensures '\0' !in Text(GroupsOf(a))
  {
    var g := GroupsOf(a);
    var run := CompressedRun(g);
    HexTextsAreNumbers(g);
    if run.Run? {
      ZerosInside(g, run.start);
      JoinedHex(g, 0, run.start);
      JoinedHex(g, run.start + run.length, GROUPS);
    } else {
      JoinedHex(g, 0, GROUPS);
    }
    AnyTextParsed(a, HexTexts(g), run);
  }

  // ---------------------------------------------------------------------------
  // Upper and lower case.
  // ---------------------------------------------------------------------------

  /** The same character, or the same letter in the other case. */
  predicate SameLetter(c: char, d: char) {
    c == d || ('a' <= c <= 'z' && d as int == c as int - 32) || ('a' <= d <= 'z' && c as int == d as int - 32)
  }

  ghost predicate SameLetters(s: string, t: string) {
    |s| == |t| && forall i :: 0 <= i < |s| ==> SameLetter(s[i], t[i])
  }

  lemma StepSameLetter(p: Progress, c: char, d: char)
    requires p.value <= 0xFFFF && SameLetter(c, d)
    ensures Step(p, c) == Step(p, d)
  {
  }

  lemma {:induction false} FeedSameLetters(p: Progress, s: string, t: string)
    requires p.value <= 0xFFFF && SameLetters(s, t)
    ensures Feed(p, s) == Feed(p, t)
    decreases |s|
  {
    if |s| > 0 {
      StepSameLetter(p, s[0], t[0]);
      if Step(p, s[0]).1 {
        FeedSameLetters(Step(p, s[0]).0, s[1..], t[1..]);
      }
    }
  }

  /** Texts that differ in the case of letters only are parsed alike, also malformed ones. */
  lemma CaseIgnored(s: string, t: string)
    requires SameLetters(s, t)
    ensures Parsed(s) == Parsed(t)
  {
    assert s == "::" <==> t == "::";
    assert |s| > 0 ==> (s[0] == ':' <==> t[0] == ':');
    if |s| > 0 && s[0] == ':' {
      FeedSameLetters(START, s[1..], t[1..]);
    } else {
      FeedSameLetters(START, s, t);
    }
  }

  lemma {:induction false} CStringOf(s: seq<char>, text: string)
    requires |text| < |s| && s[..|text|] == text && s[|text|] == '\0' && '\0' !in text
    ensures CString(s) == text
    decreases |text|
  {
    if |text| > 0 {
      assert s[0] == text[0];
      CStringOf(s[1..], text[1..]);
    }
  }

  /** A buffer in which the printer left the text of an address parses to that address. */
  lemma PrintedRoundTrip(a: Address, buffer: seq<char>)
    requires var text := Text(GroupsOf(a));
             |text| < |buffer| && buffer[..|text|] == text && buffer[|text|] == '\0'
    ensures Parsed(CString(buffer)) == (1, a)
  {
    TextRoundTrip(a);
    CStringOf(buffer, Text(GroupsOf(a)));
  }

  // ---------------------------------------------------------------------------
  // FreeRTOS_inet_pton6
  // ---------------------------------------------------------------------------

  /** `struct sPTON6_Set`. */
  class AddressReader {
    const target: array<Byte>
    var value: nat
    var hadDigit: bool
    var index: nat
    var colon: int

    constructor (destination: array<Byte>)
      requires destination.Length >= ADDRESS_SIZE
      ensures target == destination && value == 0 && !hadDigit && index == 0 && colon == -1
    {
      target, value, hadDigit, index, colon := destination, 0, false, 0, -1;
    }

    ghost function State(): Progress
      requires target.Length >= ADDRESS_SIZE
      reads this, target
    {
      Progress(value, hadDigit, index, colon, target[..ADDRESS_SIZE])
    }

    method StoreValue()
      requires target.Length >= ADDRESS_SIZE && index <= HIGHEST_INDEX && value <= 0xFFFF
      modifies this, target
      ensures State() == Store(old(State()), old(value))
      ensures target[ADDRESS_SIZE..] == old(target[ADDRESS_SIZE..])
    {
      target[index] := HighByte(value);
      target[index + 1] := LowByte(value);
      index := index + 2;
      hadDigit := false;
      value := 0;
    }

    /** `prv_inet_pton6_add_nibble`. */
    method AddNibble(digit: Byte, ch: char) returns (ok: bool)
      requires target.Length >= ADDRESS_SIZE && WellFormed(State()) && value <= 0xFFFF
      requires digit == AsciiToHex(ch)
      modifies this, target
      ensures (State(), ok) == Step(old(State()), ch)
      ensures target[ADDRESS_SIZE..] == old(target[ADDRESS_SIZE..])
    {
      ok := true;
      if digit != INVALID_HEX_CHAR {
        value := 16 * value + digit;
        hadDigit := true;
        if value > 0xFFFF {
          ok := false;
        }
      } else if ch == ':' {
        if !hadDigit {
          if colon >= 0 {
            ok := false;
          } else {
            colon := index;
          }
        } else if index <= HIGHEST_INDEX {
          StoreValue();
        } else {
          ok := false;
        }
      } else {
        ok := false;
      }
    }

    /** The loop over the characters, and the last group. `last` is the answer for the last
        character that was read. */
    method Read(source: seq<char>, start: nat, ghost text: string) returns (last: bool)
      requires target.Length >= ADDRESS_SIZE && State() == START
      requires start <= |source| && '\0' in source[start..] && text == CString(source[start..])
      modifies this, target
      ensures var (q, accepted) := ReadAll(text);
              && colon == q.colon && index == q.index && target[..ADDRESS_SIZE] == q.bytes
              && last == accepted
      ensures target[ADDRESS_SIZE..] == old(target[ADDRESS_SIZE..])
    {
      last := false;
      var next := start;
      while true
        invariant start <= next <= |source| && '\0' in source[next..]
        invariant WellFormed(State()) && value <= 0xFFFF
        invariant Feed(State(), CString(source[next..])) == Feed(START, text)
        invariant next == start || last
        invariant last ==> |text| > 0
        invariant !last ==> CString(source[next..]) == text
        invariant target[ADDRESS_SIZE..] == old(target[ADDRESS_SIZE..])
        decreases |source| - next
      {
        var ch := source[next];
        assert source[next..][0] == ch && source[next..][1..] == source[next + 1..];
        next := next + 1;
        if ch == '\0' {
          if hadDigit && index <= HIGHEST_INDEX {
            StoreValue();
          }
          return;
        }
        ghost var before := State();
        FeedFirst(before, ch, CString(source[next..]));
        StepWellFormed(before, ch);
        last := AddNibble(AsciiToHex(ch), ch);
        if !last {
          return;
        }
      }
    }

    /** `prv_inet_pton6_set_zeros`. */
    method SetZeros()
      requires target.Length >= ADDRESS_SIZE && 0 <= colon <= index <= ADDRESS_SIZE
      modifies this`index, target
      ensures index == ADDRESS_SIZE
      ensures target[..ADDRESS_SIZE] == WithZeros(old(target[..ADDRESS_SIZE]), colon, old(index))
      ensures target[ADDRESS_SIZE..] == old(target[ADDRESS_SIZE..])
    {
      var count := index - colon;
      var to, from := ADDRESS_SIZE - 1, colon + (count - 1);
      ghost var b := target[..];
      for k := 0 to count
        invariant index == old(index)
        invariant to == ADDRESS_SIZE - 1 - k && from == colon + (count - 1) - k
        invariant forall j :: 0 <= j < target.Length ==> target[j] == ShiftedAt(b, index, k, j)
      {
        assert ShiftedAt(b, index, k, from) == b[from];
        target[to] := target[from];
        target[from] := 0;
        to := to - 1;
        from := from - 1;
      }
      AllShifted(b, colon, index, target[..]);
      index := ADDRESS_SIZE;
    }
  }

  method ClearAddress(target: array<Byte>)
    requires target.Length >= ADDRESS_SIZE
    modifies target
    ensures target[..ADDRESS_SIZE] == ZEROS
    ensures target[ADDRESS_SIZE..] == old(target[ADDRESS_SIZE..])
  {
    for k := 0 to ADDRESS_SIZE
      invariant forall j :: 0 <= j < k ==> target[j] == 0
      invariant forall j :: ADDRESS_SIZE <= j < target.Length ==> target[j] == old(target[j])
    {
      target[k] := 0;
    }
    SameBytes(ZEROS, target[..ADDRESS_SIZE]);
  }

  lemma CStringIs(s: seq<char>, c: char, rest: string)
    requires '\0' in s && c != '\0'
    ensures (s[0] == c ==> '\0' in s[1..]) && (CString(s) == [c] + rest <==> s[0] == c && CString(s[1..]) == rest)
  {
    if CString(s) == [c] + rest {
      assert CString(s)[1..] == rest;
      assert ([s[0]] + CString(s[1..]))[1..] == CString(s[1..]);
    }
  }

  /** `strcmp( pcSource, "::" ) == 0`. */
  method IsTwoColons(source: seq<char>) returns (equal: bool)
    requires '\0' in source
    ensures equal <==> CString(source) == "::"
  {
    CStringIs(source, ':', ":");
    if source[0] == ':' {
      CStringIs(source[1..], ':', "");
      assert source[1..][1..] == source[2..];
    }
    equal := source[0] == ':' && source[1] == ':' && source[2] == '\0';
  }

  /** `FreeRTOS_inet_pton6`. */
  method Pton6(source: seq<char>, destination: array<Byte>) returns (result: int)
    requires '\0' in source && destination.Length >= ADDRESS_SIZE
    modifies destination
    ensures (result, destination[..ADDRESS_SIZE]) == Parsed(CString(source))
    ensures destination[ADDRESS_SIZE..] == old(destination[ADDRESS_SIZE..])
  {
    var reader := new AddressReader(destination);
    ClearAddress(destination);
    result := 0;
    var only := IsTwoColons(source);
    if only {
      result := 1;
    } else {
      var start := if source[0] == ':' then 1 else 0;
      ghost var text := CString(source[start..]);
      FeedWellFormed(START, text);
      var last := reader.Read(source, start, text);
      if last {
        result := 1;
      }
      if reader.colon >= 0 {
        reader.SetZeros();
      }
      if reader.index == ADDRESS_SIZE {
        result := 1;
      }
    }
    if result != 1 {
      ClearAddress(destination);
    }
  }
}
