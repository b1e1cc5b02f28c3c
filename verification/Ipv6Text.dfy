/**
  * The text form of IPv6 addresses: what the canonical text of an address is
  * (sections 4.1 to 4.3 of RFC 5952), and the printer `FreeRTOS_inet_ntop6`.
  */
module Ipv6Text {
  import opened Words

  const GROUPS := 8
  const ADDRESS_SIZE := 16
  /** `ipSIZE_OF_IPv6_ADDR_STRLEN`. */
  const ADDRESS_STRLEN := 40

  type Groups = g: seq<Word16> | |g| == GROUPS witness [0, 0, 0, 0, 0, 0, 0, 0]
  type Address = a: seq<Byte> | |a| == ADDRESS_SIZE
    witness [0, 0, 0, 0, 0, 0, 0, 0, 0, 0, 0, 0, 0, 0, 0, 0]

  function GroupsOf(a: Address): Groups {
    seq(GROUPS, i requires 0 <= i < GROUPS => BE16(a[2 * i], a[2 * i + 1]))
  }

  // ---------------------------------------------------------------------------
  // The reference text.
  // ---------------------------------------------------------------------------

  /** `cHexToChar`: lower case. */
  function HexDigit(n: nat): char
    requires n < 16
  {
    if n <= 9 then ('0' as int + n) as char else ('a' as int + (n - 10)) as char
  }

  /** Hexadecimal without leading zeros. */
  function Hex(v: nat): (s: string)
    ensures |s| >= 1
  {
    if v < 16 then [HexDigit(v)] else Hex(v / 16) + [HexDigit(v % 16)]
  }

  /** Lower-case digits, and no leading zero (sections 4.1 and 4.3 of RFC 5952). */
  lemma {:induction false} HexShape(v: nat)
    ensures forall c :: c in Hex(v) ==> '0' <= c <= '9' || 'a' <= c <= 'f'
    ensures |Hex(v)| > 1 ==> Hex(v)[0] != '0'
    ensures Hex(v)[0] == '0' ==> v == 0
    decreases v
  {
    if v >= 16 {
      HexShape(v / 16);
    }
  }

  /** The number of consecutive zero groups at `i`. */
  function ZerosAt(g: Groups, i: nat): nat
    requires i <= GROUPS
    decreases GROUPS - i
  {
    if i == GROUPS || g[i] != 0 then 0 else 1 + ZerosAt(g, i + 1)
  }

  /** `[start, start + length)` is a run of at least two zero groups, no run is longer, and
      the runs that are as long start later. */
  ghost predicate IsLongestRun(g: Groups, start: nat, length: nat) {
    && start < GROUPS && length >= 2 && ZerosAt(g, start) == length
    && forall i :: 0 <= i < GROUPS ==> ZerosAt(g, i) <= length && (ZerosAt(g, i) == length ==> start <= i)
  }

  datatype Run = NoRun | Run(start: nat, length: nat)

  /** `run` is the run that "::" has to replace. */
  ghost predicate IsCompressed(g: Groups, run: Run) {
    match run
    case NoRun => forall i :: 0 <= i < GROUPS ==> ZerosAt(g, i) <= 1
    case Run(start, length) => IsLongestRun(g, start, length)
  }

  lemma CompressedUnique(g: Groups, r: Run, s: Run)
    requires IsCompressed(g, r) && IsCompressed(g, s)
    ensures r == s
  {
    if r.Run? && s.Run? {
      assert ZerosAt(g, r.start) == r.length && ZerosAt(g, s.start) == s.length;
    }
  }

  /** `best` is the longest run among those that start before `n`. */
  ghost predicate BestBefore(g: Groups, n: nat, best: Run)
    requires n <= GROUPS
  {
    match best
    case NoRun => forall i :: 0 <= i < n ==> ZerosAt(g, i) <= 1
    case Run(start, length) =>
      && start < n && length >= 2 && ZerosAt(g, start) == length
      && forall i :: 0 <= i < n ==> ZerosAt(g, i) <= length && (ZerosAt(g, i) == length ==> start <= i)
  }

  /** The longest run, found by looking at every start. */
  function RunBefore(g: Groups, n: nat): (r: Run)
    requires n <= GROUPS
    ensures BestBefore(g, n, r)
  {
    if n == 0 then NoRun
    else
      var best := RunBefore(g, n - 1);
      var length := ZerosAt(g, n - 1);
      if length > 1 && (best.NoRun? || best.length < length) then Run(n - 1, length) else best
  }

  function CompressedRun(g: Groups): (r: Run)
    ensures IsCompressed(g, r)
    ensures r.Run? ==> 2 <= r.length && r.start + r.length <= GROUPS
  {
    var r := RunBefore(g, GROUPS);
    if r.Run? then ZerosInside(g, r.start); r else r
  }

  /** The groups from `i` to `end` in hexadecimal, separated by colons. */
  function Joined(g: Groups, i: nat, end: nat): string
    requires i <= end <= GROUPS
    decreases end - i
  {
    if i == end then ""
    else Hex(g[i]) + (if i + 1 < end then ":" + Joined(g, i + 1, end) else "")
  }

  /** The text of an address with "::" in place of `run`. */
  function TextWith(g: Groups, run: Run): string
    requires run.Run? ==> run.start + run.length <= GROUPS
  {
    match run
    case NoRun => Joined(g, 0, GROUPS)
    case Run(start, length) => Joined(g, 0, start) + "::" + Joined(g, start + length, GROUPS)
  }

  /** The canonical text of an address. */
  function Text(g: Groups): string {
    TextWith(g, CompressedRun(g))
  }

  lemma {:induction false} ZerosInside(g: Groups, i: nat)
    requires i <= GROUPS
    ensures i + ZerosAt(g, i) <= GROUPS
    ensures forall j :: i <= j < i + ZerosAt(g, i) ==> g[j] == 0
    decreases GROUPS - i
  {
    if i < GROUPS && g[i] == 0 {
      ZerosInside(g, i + 1);
    }
  }

  // ---------------------------------------------------------------------------
  // prv_ntop6_search_zeros
  // ---------------------------------------------------------------------------

  lemma {:induction false} ZerosInRun(g: Groups, start: nat, end: nat, i: nat)
    requires start <= i <= end <= GROUPS
    requires forall j :: start <= j < end ==> g[j] == 0
    requires end == GROUPS || g[end] != 0
    ensures ZerosAt(g, i) == end - i
    decreases end - i
  {
    if i < end {
      ZerosInRun(g, start, end, i + 1);
    }
  }

  /** At the end of a run of `length` zeros, the longer of it and the best so far is kept. */
  lemma BestAfter(g: Groups, start: nat, end: nat, next: nat, best: Run, best': Run)
    requires start <= end <= next <= end + 1 && next <= GROUPS
    requires forall j :: start <= j < end ==> g[j] == 0
    requires end == GROUPS || g[end] != 0
    requires BestBefore(g, start, best)
    requires best' == if end - start > 1 && (best.NoRun? || best.length < end - start)
                      then Run(start, end - start) else best
    ensures BestBefore(g, next, best')
  {
    forall i | start <= i < next
      ensures ZerosAt(g, i) == end - i || (i == end && ZerosAt(g, i) == 0)
    {
      if i < end {
        ZerosInRun(g, start, end, i);
      }
    }
    if start < end {
      ZerosInRun(g, start, end, start);
    }
  }

  /** `prv_ntop6_search_zeros`; -1 is no run. */
  method SearchZeros(g: Groups) returns (zeroStart: int, zeroLength: nat)
    ensures CompressedRun(g) == if zeroStart < 0 then NoRun else Run(zeroStart, zeroLength)
    ensures zeroStart < 0 ==> zeroStart == -1 && zeroLength == 0
  {
    var curStart, curLength: nat := 0, 0;
    zeroStart, zeroLength := -1, 0;
    ghost var run := NoRun;
    for index := 0 to GROUPS
      invariant curLength <= index
      invariant forall j :: index - curLength <= j < index ==> g[j] == 0
      invariant curLength > 0 ==> curStart == index - curLength
      invariant index == GROUPS ==> curLength == 0
      invariant run == if zeroStart < 0 then NoRun else Run(zeroStart, zeroLength)
      invariant zeroStart < 0 ==> zeroStart == -1 && zeroLength == 0
      invariant BestBefore(g, index - curLength, run)
    {
      var value := g[index];
      ghost var start := index - curLength;
      if value == 0 {
        if curLength == 0 {
          curStart := index;
        }
        curLength := curLength + 1;
      }
      if value != 0 || index == GROUPS - 1 {
        ghost var before := run;
        if curLength > 1 && zeroLength < curLength {
          zeroLength, zeroStart := curLength, curStart;
          run := Run(curStart, curLength);
        }
        BestAfter(g, start, start + curLength, index + 1, before, run);
        curLength := 0;
      }
    }
    CompressedUnique(g, run, CompressedRun(g));
  }

  // ---------------------------------------------------------------------------
  // uxHexPrintShort
  // ---------------------------------------------------------------------------

  lemma HexLength(v: Word16)
    ensures |Hex(v)| <= 4
  {
    assert v / 16 / 16 / 16 < 16;
    assert |Hex(v / 16 / 16)| <= 2;
    assert |Hex(v / 16)| <= 3;
  }

  lemma HexNext(p: nat, n: nat)
    requires n < 16
    ensures p > 0 ==> Hex(16 * p + n) == Hex(p) + [HexDigit(n)]
    ensures p == 0 ==> Hex(16 * p + n) == [HexDigit(n)]
  {
    assert (16 * p + n) / 16 == p && (16 * p + n) % 16 == n;
  }

  /** The high `k` nibbles of a 16-bit value. */
  function HighNibbles(v: Word16, k: nat): Word16
    requires k <= 4
  {
    if k == 0 then 0 else if k == 1 then v / 0x1000 else if k == 2 then v / 0x100
    else if k == 3 then v / 0x10 else v
  }

  /** The value shifted left by `k` nibbles in 16 bits. */
  function ShiftedBy(v: Word16, k: nat): Word16
    requires k <= 4
  {
    if k == 0 then v else if k == 1 then 0x10 * (v % 0x1000) else if k == 2 then 0x100 * (v % 0x100)
    else if k == 3 then 0x1000 * (v % 0x10) else 0
  }

  lemma NibblesOf(v: Word16) returns (a: nat, b: nat, c: nat, d: nat)
    ensures a < 16 && b < 16 && c < 16 && d < 16
    ensures v / 0x1000 == a && v / 0x100 == 16 * a + b && v / 0x10 == 0x100 * a + 16 * b + c
    ensures v % 0x1000 == 0x100 * b + 16 * c + d && v % 0x100 == 16 * c + d && v % 0x10 == d
    ensures v == 0x1000 * a + 0x100 * b + 16 * c + d
  {
    a := v / 0x1000;
    var r := v % 0x1000;
    b := r / 0x100;
    var s := r % 0x100;
    c, d := s / 0x10, s % 0x10;
    assert v / 0x100 == 16 * a + b;
    assert v / 0x10 == 0x100 * a + 16 * b + c;
  }

  lemma DivMod16(x: nat, q: nat, r: nat)
    requires x == 0x1_0000 * q + r && r < 0x1_0000
    ensures x % 0x1_0000 == r
  {
  }

  lemma DivMod12(x: nat, q: nat, r: nat)
    requires x == 0x1000 * q + r && r < 0x1000
    ensures x / 0x1000 == q
  {
  }

  lemma NextNibble(v: Word16, k: nat)
    requires k < 4
    ensures ShiftedBy(v, k) / 0x1000 < 16
    ensures HighNibbles(v, k + 1) == 16 * HighNibbles(v, k) + ShiftedBy(v, k) / 0x1000
    ensures ShiftedBy(v, k + 1) == (0x10 * (ShiftedBy(v, k) as int)) % 0x1_0000
  {
    var a, b, c, d := NibblesOf(v);
    var s := ShiftedBy(v, k);
    match k
    case 0 =>
      DivMod16(0x10 * (s as int), a, 0x1000 * b + 0x100 * c + 0x10 * d);
    case 1 =>
      DivMod12(s, b, 0x100 * c + 0x10 * d);
      DivMod16(0x10 * (s as int), b, 0x1000 * c + 0x100 * d);
    case 2 =>
      DivMod12(s, c, 0x100 * d);
      DivMod16(0x10 * (s as int), c, 0x1000 * d);
    case 3 =>
      DivMod12(s, d, 0);
      DivMod16(0x10 * (s as int), d, 0);
  }

  /** The top nibble of the shifter, and the shifter moved on to the next one. */
  method TakeNibble(ghost value: Word16, ghost k: nat, shifter: Word16) returns (nibble: nat, shifter': Word16)
    requires k < 4 && shifter == ShiftedBy(value, k)
    ensures nibble < 16 && HighNibbles(value, k + 1) == 16 * HighNibbles(value, k) + nibble
    ensures shifter' == ShiftedBy(value, k + 1)
  {
    NextNibble(value, k);
    nibble := shifter / 0x1000;
    shifter' := (0x10 * (shifter as int)) % 0x1_0000;
  }

  /** The digits of the first `k` nibbles. */
  function Digits(v: Word16, k: nat): string
    requires k <= 4
  {
    if HighNibbles(v, k) != 0 || k == 4 then Hex(HighNibbles(v, k)) else ""
  }

  lemma DigitsNext(v: Word16, k: nat, n: nat)
    requires k < 4 && n < 16 && HighNibbles(v, k + 1) == 16 * HighNibbles(v, k) + n
    ensures Digits(v, k + 1) == if HighNibbles(v, k) != 0 || n != 0 || k == 3 then Digits(v, k) + [HexDigit(n)] else ""
  {
    HexNext(HighNibbles(v, k), n);
  }

  /** `uxHexPrintShort` to `buffer[offset..]` of which `size` characters may be used. */
  method HexPrintShort(buffer: array<char>, offset: nat, size: nat, value: Word16) returns (index: nat)
    requires size >= 1 && offset + size <= buffer.Length
    modifies buffer
    ensures index == if |Hex(value)| <= size - 1 then |Hex(value)| else size - 1
    ensures buffer[offset..offset + index] == Hex(value)[..index]
    ensures buffer[..offset] == old(buffer[..offset])
    ensures buffer[offset + index..] == old(buffer[offset + index..])
  {
    index := 0;
    var shifter := value;
    var hadNonZero := false;
    ghost var printed := "";
    for k := 0 to 4
      invariant shifter == ShiftedBy(value, k)
      invariant hadNonZero <==> HighNibbles(value, k) != 0
      invariant index <= size - 1
      invariant printed == Digits(value, k) && |printed| == index
      invariant forall j :: offset <= j < offset + index ==> buffer[j] == printed[j - offset]
      invariant forall j :: 0 <= j < offset || offset + index <= j < buffer.Length ==> buffer[j] == old(buffer[j])
    {
      var nibble;
      nibble, shifter := TakeNibble(value, k, shifter);
      DigitsNext(value, k, nibble);
      if nibble != 0 {
        hadNonZero := true;
      }
      if hadNonZero || k == 3 {
        if index >= size - 1 {
          PrefixOfHex(value, k + 1, printed);
          return;
        }
        printed := printed + [HexDigit(nibble)];
        buffer[offset + index] := HexDigit(nibble);
        index := index + 1;
      }
    }
  }

  /** What has been printed when the buffer is full is the start of the text. */
  lemma PrefixOfHex(v: Word16, k: nat, printed: string)
    requires 1 <= k <= 4 && (HighNibbles(v, k) != 0 || k == 4)
    requires |printed| < |Hex(HighNibbles(v, k))| && printed == Hex(HighNibbles(v, k))[..|printed|]
    ensures |printed| < |Hex(v)| && printed == Hex(v)[..|printed|]
    decreases 4 - k
  {
    if k < 4 {
      NextNibble(v, k);
      HexNext(HighNibbles(v, k), ShiftedBy(v, k) / 0x1000);
      PrefixOfHex(v, k + 1, printed);
    }
  }

  // ---------------------------------------------------------------------------
  // FreeRTOS_inet_ntop6
  // ---------------------------------------------------------------------------

  predicate InBounds(run: Run) {
    run.Run? ==> 2 <= run.length && run.start + run.length <= GROUPS
  }

  /** What is printed at group `i`. A group brings the colon in front of it; a zero run
      brings one colon, and a second one at the end of the address. */
  function Piece(g: Groups, run: Run, i: nat): string
    requires i < GROUPS
  {
    if run.Run? && i == run.start then (if i + run.length == GROUPS then "::" else ":")
    else if i > 0 then ":" + Hex(g[i]) else Hex(g[i])
  }

  function Next(run: Run, i: nat): nat {
    if run.Run? && i == run.start then i + run.length else i + 1
  }

  /** What remains to be printed when `i` groups have been handled. */
  function Rest(g: Groups, run: Run, i: nat): string
    requires i <= GROUPS && InBounds(run)
    decreases GROUPS - i
  {
    if i == GROUPS then "" else Piece(g, run, i) + Rest(g, run, Next(run, i))
  }

  // ---------------------------------------------------------------------------
  // The size of the buffer.
  // ---------------------------------------------------------------------------

  /** The numbers of digits of the groups. */
  ghost predicate AreWidths(w: seq<nat>) {
    |w| > 0 && forall i :: 0 <= i < |w| ==> 1 <= w[i] <= 4
  }

  predicate Within(w: seq<nat>, run: Run) {
    run.Run? ==> 2 <= run.length && run.start + run.length <= |w|
  }

  function WidthOf(v: Word16): (n: nat)
    ensures n == |Hex(v)| && 1 <= n <= 4
  {
    HexLength(v);
    |Hex(v)|
  }

  function WidthsOf(g: Groups): (w: seq<nat>)
    ensures |w| == GROUPS && AreWidths(w) && forall i :: 0 <= i < GROUPS ==> w[i] == |Hex(g[i])|
  {
    seq(GROUPS, i requires 0 <= i < GROUPS => WidthOf(g[i]))
  }

  function PieceLength(w: seq<nat>, run: Run, i: nat): nat
    requires i < |w|
  {
    if run.Run? && i == run.start then (if i + run.length == |w| then 2 else 1)
    else if i > 0 then 1 + w[i] else w[i]
  }

  function RestLength(w: seq<nat>, run: Run, i: nat): nat
    requires i <= |w| && Within(w, run)
    decreases |w| - i
  {
    if i == |w| then 0 else PieceLength(w, run, i) + RestLength(w, run, Next(run, i))
  }

  lemma PieceHasLength(g: Groups, run: Run, i: nat)
    requires i < GROUPS
    ensures |Piece(g, run, i)| == PieceLength(WidthsOf(g), run, i)
  {
  }

  lemma {:induction false} RestHasLength(g: Groups, run: Run, i: nat)
    requires i <= GROUPS && InBounds(run)
    ensures |Rest(g, run, i)| == RestLength(WidthsOf(g), run, i)
    decreases GROUPS - i
  {
    if i < GROUPS {
      PieceHasLength(g, run, i);
      RestHasLength(g, run, Next(run, i));
    }
  }

  /** The size of the buffer that the piece at group `i` of `groups` asks for behind `n`
      characters: 4 for the digits of a group, whatever it has. */
  function Room(run: Run, i: nat, groups: nat, n: nat): nat {
    if run.Run? && i == run.start then (if i + run.length == groups then n + 3 else n + 1)
    else if i > 0 then n + 6 else n + 5
  }

  function Most(a: nat, b: nat): nat {
    if a < b then b else a
  }

  /** The size that all pieces from group `i` on ask for. */
  function Needed(w: seq<nat>, run: Run, i: nat, n: nat): nat
    requires i <= |w| && Within(w, run)
    decreases |w| - i
  {
    if i == |w| then 0
    else Most(Room(run, i, |w|, n), Needed(w, run, Next(run, i), n + PieceLength(w, run, i)))
  }

  /** The run is at the end of the address. */
  predicate EndsInRun(w: seq<nat>, run: Run) {
    run.Run? && run.start + run.length == |w|
  }

  /** The size of the buffer that is enough for a text of `length` characters: the last group
      counts as four digits, and so does a group in front of a run at the end, which needs two
      colons and the NUL behind it. */
  function Enough(w: seq<nat>, run: Run, length: nat): int
    requires |w| > 0 && Within(w, run)
  {
    if !EndsInRun(w, run) then length + 5 - w[|w| - 1]
    else if run.start > 0 && w[run.start - 1] == 1 then length + 2
    else length + 1
  }

  /** The size of the smallest buffer into which an address is printed. */
  function RoomFor(g: Groups): int {
    Enough(WidthsOf(g), CompressedRun(g), |Text(g)|)
  }

  /** The piece at group `i` and what follows, in numbers. */
  lemma NeededNext(w: seq<nat>, run: Run, i: nat, n: nat) returns (piece: nat, next: nat, room: nat)
    requires i < |w| && Within(w, run)
    ensures piece == PieceLength(w, run, i) && next == Next(run, i) && room == Room(run, i, |w|, n)
    ensures RestLength(w, run, i) == piece + RestLength(w, run, next)
    ensures Needed(w, run, i, n) == if room < Needed(w, run, next, n + piece)
                                    then Needed(w, run, next, n + piece) else room
  {
    piece, next, room := PieceLength(w, run, i), Next(run, i), Room(run, i, |w|, n);
  }

  lemma NothingNeeded(w: seq<nat>, run: Run, i: nat, n: nat)
    requires i == |w| && Within(w, run)
    ensures Needed(w, run, i, n) == 0 && RestLength(w, run, i) == 0
  {
  }

  lemma {:induction false} NeededPlain(w: seq<nat>, run: Run, i: nat, n: nat)
    requires i < |w| && Within(w, run) && AreWidths(w) && !EndsInRun(w, run)
    requires run.Run? ==> i <= run.start || run.start + run.length <= i
    ensures RestLength(w, run, i) >= w[|w| - 1] + (if i > 0 then 1 else 0)
    ensures Needed(w, run, i, n) == Enough(w, run, n + RestLength(w, run, i))
    decreases |w| - i
  {
    var piece, next, room := NeededNext(w, run, i, n);
    if next < |w| {
      NeededPlain(w, run, next, n + piece);
    } else {
      NothingNeeded(w, run, next, n + piece);
    }
  }

  lemma {:induction false} NeededRun(w: seq<nat>, run: Run, i: nat, n: nat)
    requires Within(w, run) && AreWidths(w) && EndsInRun(w, run) && i <= run.start
    ensures RestLength(w, run, i) >= if i < run.start then 3 else 2
    ensures Needed(w, run, i, n)
         == if i < run.start then Enough(w, run, n + RestLength(w, run, i)) else n + RestLength(w, run, i) + 1
    decreases run.start - i
  {
    var piece, next, room := NeededNext(w, run, i, n);
    if i < run.start {
      NeededRun(w, run, next, n + piece);
    } else {
      NothingNeeded(w, run, next, n + piece);
    }
  }

  lemma NeededIsEnough(w: seq<nat>, run: Run, i: nat)
    requires Within(w, run) && AreWidths(w) && |w| > 1 && i == 0
    ensures 3 <= Needed(w, run, i, 0) == Enough(w, run, RestLength(w, run, i))
  {
    var piece, next, room := NeededNext(w, run, i, 0);
    if EndsInRun(w, run) {
      NeededRun(w, run, i, 0);
    } else {
      NeededPlain(w, run, i, 0);
      if next < |w| {
        NeededPlain(w, run, next, piece);
      }
    }
  }

  lemma Assoc(before: string, piece: string, rest: string)
    ensures before + (piece + rest) == (before + piece) + rest
  {
  }

  lemma PrintedPiece(g: Groups, run: Run, i: nat, before: string, piece: string, text: string)
    requires i < GROUPS && InBounds(run)
    requires before + Rest(g, run, i) == text && piece == Piece(g, run, i)
    ensures before + piece + Rest(g, run, Next(run, i)) == text
    ensures |before| + |piece| <= |text|
  {
    Assoc(before, piece, Rest(g, run, Next(run, i)));
  }

  function Colons(run: Run): string
    requires run.Run?
  {
    if run.start + run.length == GROUPS then "::" else ":"
  }

  /** `struct sNTOP6_Set` with the destination buffer. */
  class Printer {
    const g: Groups
    const destination: array<char>
    const size: nat
    var zeroStart: int
    var zeroLength: nat
    var index: nat
    var target: nat
    ghost var printed: string

    constructor (address: Address, buffer: array<char>, bufferSize: nat)
      requires bufferSize <= buffer.Length
      ensures Valid() && g == GroupsOf(address) && destination == buffer && size == bufferSize
      ensures index == 0 && target == 0 && zeroStart == -1 && printed == ""
    {
      g, destination, size := GroupsOf(address), buffer, bufferSize;
      zeroStart, zeroLength, index, target, printed := -1, 0, 0, 0, "";
    }

    ghost predicate Valid()
      reads this`index, this`zeroStart, this`zeroLength
    {
      && size <= destination.Length && index <= GROUPS
      && InBounds(Compressed())
    }

    ghost function Compressed(): Run
      reads this`zeroStart, this`zeroLength
    {
      if zeroStart < 0 then NoRun else Run(zeroStart, zeroLength)
    }

    /** The buffer starts with what has been printed, which is short enough to go on. */
    ghost predicate OnTrack()
      reads this`index, this`target, this`printed, destination
    {
      && Holds(target, printed)
      && (index > 0 ==> target + 1 <= 5 * index)
      && (index == 0 ==> target == 0)
      && (index == GROUPS ==> target < size)
    }

    ghost predicate Holds(n: nat, s: string)
      reads destination, this`printed
    {
      n == |s| <= size <= destination.Length && destination[..n] == s
    }

    method Put(c: char)
      requires Valid() && target < size && Holds(target, printed)
      modifies this`target, this`printed, destination
      ensures target == old(target) + 1 && printed == old(printed) + [c]
      ensures Holds(target, printed)
      ensures destination[size..] == old(destination[size..])
    {
      destination[target] := c;
      target := target + 1;
      printed := printed + [c];
    }

    /** `prv_ntop6_write_zeros`. */
    method WriteZeros() returns (ok: bool)
      requires Valid() && OnTrack() && size >= 3
      requires index == zeroStart
      modifies this`target, this`index, this`printed, destination
      ensures Valid()
      ensures ok ==> OnTrack() && index == old(index) + zeroLength && printed == old(printed) + Colons(Compressed())
      ensures !ok ==> index == old(index) && size < 40 && size <= |old(printed)| + |Colons(Compressed())|
      ensures ok <==> Room(Compressed(), old(index), GROUPS, |old(printed)|) <= size
      ensures destination[size..] == old(destination[size..])
    {
      ok := PutColons();
      if ok {
        index := index + zeroLength;
      }
    }

    method PutColons() returns (ok: bool)
      requires Valid() && size >= 3 && Holds(target, printed)
      modifies this`target, this`printed, destination
      ensures var last := index + zeroLength == GROUPS;
              && (ok <==> old(target) + (if last then 3 else 1) <= size)
              && (ok ==> Holds(target, printed) && printed == old(printed) + if last then "::" else ":")
      ensures destination[size..] == old(destination[size..])
    {
      if target <= size - 1 {
        Put(':');
        if index + zeroLength == GROUPS {
          if target < size - 1 {
            Put(':');
          } else {
            return false;
          }
        }
        ok := true;
      } else {
        ok := false;
      }
    }

    /** `prv_ntop6_write_short`. */
    method WriteShort() returns (ok: bool)
      requires Valid() && OnTrack() && size >= 3
      requires index < GROUPS && index != zeroStart
      modifies this`target, this`index, this`printed, destination
      ensures Valid()
      ensures var piece := (if old(index) > 0 then ":" else "") + Hex(g[old(index)]);
              if ok then OnTrack() && index == old(index) + 1 && printed == old(printed) + piece
              else index == old(index) && size < 40 && size < |old(printed)| + |piece| + 4
      ensures ok <==> Room(Compressed(), old(index), GROUPS, |old(printed)|) <= size
      ensures destination[size..] == old(destination[size..])
    {
      ok := PutSeparator();
      if ok {
        ok := PutShort();
      }
      if ok {
        index := index + 1;
      }
    }

    method PutSeparator() returns (ok: bool)
      requires Valid() && index < GROUPS && Holds(target, printed) && size >= 3
      requires index == 0 ==> target == 0
      modifies this`target, this`printed, destination
      ensures ok ==> Holds(target, printed) && printed == old(printed) + if index > 0 then ":" else ""
      ensures !ok <==> index > 0 && old(target) + 1 >= size
      ensures destination[size..] == old(destination[size..])
    {
      if index > 0 {
        if target >= size - 1 {
          return false;
        }
        Put(':');
      }
      ok := true;
    }

    method PutShort() returns (ok: bool)
      requires Valid() && index < GROUPS && Holds(target, printed)
      modifies this`target, this`printed, destination
      ensures ok <==> old(target) + 4 < size
      ensures ok ==> target == old(target) + |Hex(g[index])| && 1 <= |Hex(g[index])| <= 4
      ensures ok ==> printed == old(printed) + Hex(g[index])
      ensures ok ==> Holds(target, printed)
      ensures destination[size..] == old(destination[size..])
    {
      HexLength(g[index]);
      ok := target + 4 < size;
      if ok {
        ghost var before := target;
        var length := HexPrintShort(destination, target, 5, g[index]);
        target := target + length;
        assert destination[..target] == destination[..before] + destination[before..target];
        printed := printed + Hex(g[index]);
      }
    }
  }

  lemma Concat(hex: string, joined: string, rest: string)
    ensures (":" + hex) + ((":" + joined) + rest) == (":" + (hex + (":" + joined))) + rest
    ensures (":" + hex) + ("" + rest) == (":" + (hex + "")) + rest
  {
  }

  /** Groups up to `end`, the start of the run or the end of the address, are printed with
      a colon in front of each. */
  lemma {:induction false} RestGroups(g: Groups, run: Run, i: nat, end: nat)
    requires 0 < i <= end <= GROUPS && InBounds(run)
    requires run.Run? ==> run.start < i || end <= run.start
    ensures Rest(g, run, i) == (if i < end then ":" + Joined(g, i, end) else "") + Rest(g, run, end)
    decreases end - i
  {
    if i < end {
      RestGroups(g, run, i + 1, end);
      Concat(Hex(g[i]), if i + 1 < end then Joined(g, i + 1, end) else "", Rest(g, run, end));
    }
  }

  lemma RestFromStart(g: Groups, run: Run, end: nat)
    requires end <= GROUPS && InBounds(run)
    requires run.Run? ==> end <= run.start
    ensures Rest(g, run, 0) == Joined(g, 0, end) + Rest(g, run, end)
  {
    if end > 0 {
      RestGroups(g, run, 1, end);
    }
  }

  lemma RestAtRun(g: Groups, run: Run)
    requires InBounds(run) && run.Run?
    ensures Rest(g, run, run.start) == "::" + Joined(g, run.start + run.length, GROUPS)
  {
    RestGroups(g, run, run.start + run.length, GROUPS);
  }

  /** The pieces the printer writes make up the canonical text. */
  lemma RestIsText(g: Groups, run: Run)
    requires InBounds(run)
    ensures Rest(g, run, 0) == TextWith(g, run)
  {
    if run.NoRun? {
      RestFromStart(g, run, GROUPS);
    } else {
      RestFromStart(g, run, run.start);
      RestAtRun(g, run);
    }
  }

  /** What the pieces ask for is given by the text. */
  lemma NeededIsRoom(g: Groups, run: Run, i: nat)
    requires run == CompressedRun(g) && i == 0
    ensures Needed(WidthsOf(g), run, i, 0) == RoomFor(g) >= 3
  {
    RestIsText(g, run);
    RestHasLength(g, run, i);
    NeededIsEnough(WidthsOf(g), run, i);
  }

  /** What is printed followed by what remains is the whole text, and the buffer is large enough
      for everything exactly when it is for what remains. */
  ghost predicate Printing(g: Groups, run: Run, i: nat, printed: string, text: string, needed: nat, size: nat) {
    && i <= GROUPS && InBounds(run) && printed + Rest(g, run, i) == text
    && RoomLeft(WidthsOf(g), run, i, |printed|, needed, size)
  }

  ghost predicate RoomLeft(w: seq<nat>, run: Run, i: nat, n: nat, needed: nat, size: nat) {
    && i <= |w| && Within(w, run)
    && (needed <= size <==> Needed(w, run, i, n) <= size)
  }

  lemma RoomLeftNext(w: seq<nat>, run: Run, i: nat, n: nat, needed: nat, size: nat)
    requires i < |w| && RoomLeft(w, run, i, n, needed, size)
    ensures if Room(run, i, |w|, n) <= size
            then RoomLeft(w, run, Next(run, i), n + PieceLength(w, run, i), needed, size)
            else needed > size
  {
    var piece, next, room := NeededNext(w, run, i, n);
  }

  lemma PrintingNext(g: Groups, run: Run, i: nat, printed: string, text: string, needed: nat, size: nat)
    returns (piece: string)
    requires i < GROUPS && Printing(g, run, i, printed, text, needed, size)
    ensures piece == Piece(g, run, i) && |printed| + |piece| <= |text|
    ensures if Room(run, i, GROUPS, |printed|) <= size
            then Printing(g, run, Next(run, i), printed + piece, text, needed, size)
            else needed > size
  {
    piece := Piece(g, run, i);
    PieceHasLength(g, run, i);
    PrintedPiece(g, run, i, printed, piece, text);
    RoomLeftNext(WidthsOf(g), run, i, |printed|, needed, size);
  }

  lemma PrintingStarts(g: Groups, run: Run, i: nat, size: nat)
    requires run == CompressedRun(g) && i == 0
    ensures RoomFor(g) >= 3 && Printing(g, run, i, "", Text(g), RoomFor(g), size)
  {
    RestIsText(g, run);
    NeededIsRoom(g, run, i);
  }

  lemma PrintingDone(g: Groups, run: Run, i: nat, printed: string, text: string, needed: nat, size: nat)
    requires i == GROUPS && Printing(g, run, i, printed, text, needed, size)
    ensures printed == text && needed <= size
  {
    NothingNeeded(WidthsOf(g), run, i, |printed|);
  }

  /** The next piece, if it fits. */
  method WritePiece(printer: Printer, ghost run: Run) returns (ok: bool, ghost piece: string)
    requires printer.Valid() && printer.OnTrack() && printer.size >= 3 && printer.index < GROUPS
    requires run == printer.Compressed()
    modifies printer`target, printer`index, printer`printed, printer.destination
    ensures printer.Valid() && piece == Piece(printer.g, run, old(printer.index))
    ensures if ok then
              && printer.OnTrack() && printer.index == Next(run, old(printer.index))
              && printer.printed == old(printer.printed) + piece
            else printer.size < ADDRESS_STRLEN && printer.size < |old(printer.printed)| + |piece| + 4
    ensures ok <==> Room(run, old(printer.index), GROUPS, |old(printer.printed)|) <= printer.size
    ensures printer.destination[printer.size..] == old(printer.destination[printer.size..])
  {
    piece := Piece(printer.g, run, printer.index);
    if printer.index == printer.zeroStart {
      ok := printer.WriteZeros();
    } else {
      ok := printer.WriteShort();
    }
  }

  /** One round of the loop. */
  method PrintPiece(printer: Printer, ghost run: Run, ghost text: string, ghost needed: nat) returns (ok: bool)
    requires printer.Valid() && printer.OnTrack() && printer.size >= 3 && printer.index < GROUPS
    requires run == printer.Compressed()
    requires Printing(printer.g, run, printer.index, printer.printed, text, needed, printer.size)
    modifies printer`target, printer`index, printer`printed, printer.destination
    ensures printer.Valid()
    ensures if ok then
              && printer.OnTrack() && printer.index > old(printer.index)
              && Printing(printer.g, run, printer.index, printer.printed, text, needed, printer.size)
            else printer.size < ADDRESS_STRLEN && printer.size < |text| + 4 && printer.size < needed
    ensures printer.destination[printer.size..] == old(printer.destination[printer.size..])
  {
    ghost var piece := PrintingNext(printer.g, run, printer.index, printer.printed, text, needed, printer.size);
    ok, piece := WritePiece(printer, run);
  }

  /** The loop of `FreeRTOS_inet_ntop6`. */
  method PrintAll(printer: Printer, ghost text: string, ghost needed: nat) returns (ok: bool)
    requires printer.Valid() && printer.OnTrack() && printer.size >= 3
    requires Printing(printer.g, printer.Compressed(), printer.index, printer.printed, text, needed, printer.size)
    modifies printer`target, printer`index, printer`printed, printer.destination
    ensures ok ==> printer.OnTrack() && printer.index == GROUPS && printer.printed == text
    ensures !ok ==> printer.size < ADDRESS_STRLEN && printer.size < |text| + 4
    ensures ok <==> needed <= printer.size
    ensures printer.destination[printer.size..] == old(printer.destination[printer.size..])
  {
    ok := true;
    ghost var run := printer.Compressed();
    while printer.index < GROUPS
      invariant printer.Valid() && printer.OnTrack() && printer.Compressed() == run
      invariant Printing(printer.g, run, printer.index, printer.printed, text, needed, printer.size)
      invariant printer.destination[printer.size..] == old(printer.destination[printer.size..])
      decreases GROUPS - printer.index
    {
      ok := PrintPiece(printer, run, text, needed);
      if !ok {
        return;
      }
    }
    PrintingDone(printer.g, run, printer.index, printer.printed, text, needed, printer.size);
  }

  /** The set of values, with the run that is compressed. */
  method NewPrinter(address: Address, destination: array<char>, size: nat) returns (printer: Printer)
    requires size <= destination.Length
    ensures fresh(printer) && printer.destination == destination && printer.size == size
    ensures printer.g == GroupsOf(address) && printer.Compressed() == CompressedRun(printer.g)
    ensures printer.Valid() && printer.OnTrack() && printer.index == 0 && printer.printed == ""
  {
    printer := new Printer(address, destination, size);
    printer.zeroStart, printer.zeroLength := SearchZeros(printer.g);
  }

  /** `FreeRTOS_inet_ntop6`; false is the NULL result. */
  method Ntop6(address: Address, destination: array<char>, size: nat) returns (ok: bool)
    requires size <= destination.Length
    modifies destination
    ensures var text := Text(GroupsOf(address));
            && (ok ==> |text| < size && destination[..|text|] == text && destination[|text|] == '\0')
            && (size >= ADDRESS_STRLEN || (size >= 3 && size >= |text| + 4) ==> ok)
            && (ok <==> size >= RoomFor(GroupsOf(address)))
    ensures destination[size..] == old(destination[size..])
  {
    ok := false;
    ghost var g, text := GroupsOf(address), Text(GroupsOf(address));
    NeededIsRoom(g, CompressedRun(g), 0);
    if size >= 3 {
      var printer := NewPrinter(address, destination, size);
      PrintingStarts(g, CompressedRun(g), printer.index, size);
      ok := PrintAll(printer, text, RoomFor(g));
      if ok {
        assert printer.printed == text;
        destination[printer.target] := '\0';
      }
    }
  }
}
