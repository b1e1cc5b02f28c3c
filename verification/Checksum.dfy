/**
  * The Internet checksum: `usGenerateChecksum`, and the one's-complement sum of
  * section 1 of RFC 1071 that it has to compute.
  */
module Checksum {
  import opened Words

  // ---------------------------------------------------------------------------
  // The reference: one's-complement addition of 16-bit words, one word at a time.
  // ---------------------------------------------------------------------------

  /** 16-bit addition with an end-around carry. */
  function AddCarry(a: Word16, b: Word16): Word16 {
    if a + b < 0x1_0000 then a + b else a + b - 0xFFFF
  }

  /** The number of 16-bit words in `data`; an odd last byte is padded with a zero. */
  function WordCount(data: seq<Byte>): nat {
    (|data| + 1) / 2
  }

  function WordAt(data: seq<Byte>, i: nat): Word16
    requires 2 * i < |data|
  {
    BE16(data[2 * i], if 2 * i + 1 < |data| then data[2 * i + 1] else 0)
  }

  /** The end-around-carry sum of `seed` and the first `n` big-endian words of `data`. */
  function OnesSumTo(seed: Word16, data: seq<Byte>, n: nat): Word16
    requires 2 * n <= |data| + 1
  {
    if n == 0 then seed else AddCarry(OnesSumTo(seed, data, n - 1), WordAt(data, n - 1))
  }

  function OnesSum(seed: Word16, data: seq<Byte>): Word16 {
    OnesSumTo(seed, data, WordCount(data))
  }

  // ---------------------------------------------------------------------------
  // Arithmetic modulo 65535. One's-complement words are the residues modulo 65535
  // except that a non-zero multiple of 65535 is represented by 65535.
  // ---------------------------------------------------------------------------

  /** `a` is `k` multiples of 65535 above `b`. */
  predicate Above(a: int, b: int, k: int) {
    a == b + 0xFFFF * k
  }

  /** Equal modulo 65535, and equally zero: sums with the same checksum. */
  ghost predicate Alike(a: nat, b: nat) {
    (a == 0 <==> b == 0) && exists k :: Above(a, b, k)
  }

  lemma AlikeBy(a: nat, b: nat, k: int)
    requires Above(a, b, k) && (a == 0 <==> b == 0)
    ensures Alike(a, b)
  {
  }

  lemma AlikeTrans(a: nat, b: nat, c: nat)
    requires Alike(a, b) && Alike(b, c)
    ensures Alike(a, c)
  {
    var k :| Above(a, b, k);
    var l :| Above(b, c, l);
    AlikeBy(a, c, k + l);
  }

  lemma AlikeAdd(a: nat, b: nat, w: nat)
    requires Alike(a, b)
    ensures Alike(a + w, b + w)
  {
    var k :| Above(a, b, k);
    AlikeBy(a + w, b + w, k);
  }

  /** Each sum has one 16-bit representative. */
  lemma AlikeUnique(a: nat, r: Word16, s: Word16)
    requires Alike(a, r) && Alike(a, s)
    ensures r == s
  {
    var k :| Above(a, r, k);
    var l :| Above(a, s, l);
    assert r - s == 0xFFFF * (l - k);
  }

  lemma AlikeAddCarry(a: nat, s: Word16, w: Word16)
    requires Alike(a, s)
    ensures Alike(a + w, AddCarry(s, w))
  {
    var k :| Above(a, s, k);
    AlikeBy(a + w, AddCarry(s, w), if s + w < 0x1_0000 then k else k + 1);
  }

  /** The high half of a 32-bit sum added to its low half. */
  function Fold(x: Word32): Word32 {
    x % 0x1_0000 + x / 0x1_0000
  }

  /** Folding changes neither the residue modulo 65535 nor whether the sum is zero. */
  lemma AlikeFold(x: Word32)
    ensures Alike(x, Fold(x))
  {
    AlikeBy(x, Fold(x), x / 0x1_0000);
  }

  /** Swapping the bytes of a word multiplies it by 256 modulo 65535 (the byte-order
      independence of section 2(B) of RFC 1071). */
  lemma AlikeSwap(a: nat, hi: Byte, lo: Byte)
    requires Alike(a, BE16(hi, lo))
    ensures Alike(0x100 * a, BE16(lo, hi))
  {
    var k :| Above(a, BE16(hi, lo), k);
    AlikeBy(0x100 * a, BE16(lo, hi), 0x100 * k + hi);
  }

  // ---------------------------------------------------------------------------
  // Plain sums of bytes, weighted by the half of the memory word they fall in.
  // ---------------------------------------------------------------------------

  /** Byte `i` in its place: the even bytes are high ones when `evenHigh`, else the odd ones. */
  function Placed(evenHigh: bool, i: nat, b: Byte): Word16 {
    if (i % 2 == 0) == evenHigh then BE16(b, 0) else b
  }

  function Plain(evenHigh: bool, data: seq<Byte>, n: nat): nat
    requires n <= |data|
  {
    if n == 0 then 0 else Plain(evenHigh, data, n - 1) + Placed(evenHigh, n - 1, data[n - 1])
  }

  function OddBytes(data: seq<Byte>, n: nat): nat
    requires n <= |data|
  {
    if n == 0 then 0
    else OddBytes(data, n - 1) + (if (n - 1) % 2 == 1 then data[n - 1] else 0)
  }

  lemma {:induction false} PlainSwap(data: seq<Byte>, n: nat)
    requires n <= |data|
    ensures 0x100 * Plain(false, data, n) == Plain(true, data, n) + 0xFFFF * OddBytes(data, n)
  {
    if n > 0 {
      PlainSwap(data, n - 1);
    }
  }

  lemma {:induction false} PlainZero(data: seq<Byte>, n: nat)
    requires n <= |data|
    ensures Plain(true, data, n) == 0 <==> forall i :: 0 <= i < n ==> data[i] == 0
    ensures Plain(false, data, n) == 0 <==> Plain(true, data, n) == 0
  {
    if n > 0 {
      PlainZero(data, n - 1);
    }
  }

  lemma PlacedPair(n: nat, hi: Byte, lo: Byte)
    ensures Placed(true, 2 * n, hi) == BE16(hi, 0)
    ensures Placed(true, 2 * n + 1, lo) == lo
  {
    assert (2 * n) % 2 == 0;
    assert (2 * n + 1) % 2 == 1;
  }

  lemma PlainWord(data: seq<Byte>, n: nat)
    requires 2 * n < |data|
    ensures var end := if 2 * n + 1 < |data| then 2 * n + 2 else 2 * n + 1;
            Plain(true, data, end) == Plain(true, data, 2 * n) + WordAt(data, n)
  {
    PlacedPair(n, data[2 * n], if 2 * n + 1 < |data| then data[2 * n + 1] else 0);
    assert Plain(true, data, 2 * n + 1) == Plain(true, data, 2 * n) + BE16(data[2 * n], 0);
  }

  /** The first `n` words as plain bytes. */
  function PlainWords(data: seq<Byte>, n: nat): nat
    requires 2 * n <= |data| + 1
  {
    Plain(true, data, if 2 * n <= |data| then 2 * n else |data|)
  }

  lemma {:induction false} OnesSumToPlain(seed: Word16, data: seq<Byte>, n: nat)
    requires 2 * n <= |data| + 1
    ensures Alike(seed + PlainWords(data, n), OnesSumTo(seed, data, n))
  {
    if n == 0 {
      AlikeBy(seed, seed, 0);
    } else {
      OnesSumToPlain(seed, data, n - 1);
      PlainWord(data, n - 1);
      AlikeAddCarry(seed + PlainWords(data, n - 1), OnesSumTo(seed, data, n - 1), WordAt(data, n - 1));
    }
  }

  /** The reference sum represents the plain sum. */
  lemma OnesSumPlain(seed: Word16, data: seq<Byte>)
    ensures Alike(seed + Plain(true, data, |data|), OnesSum(seed, data))
  {
    OnesSumToPlain(seed, data, WordCount(data));
  }

  // ---------------------------------------------------------------------------
  // usGenerateChecksum on a little-endian host.
  // ---------------------------------------------------------------------------

  /** `*u16ptr` on a little-endian host. */
  function Read16(data: seq<Byte>, p: nat): Word16
    requires p + 2 <= |data|
  {
    BE16(data[p + 1], data[p])
  }

  /** `*u32ptr` on a little-endian host. */
  function Read32(data: seq<Byte>, p: nat): Word32
    requires p + 4 <= |data|
  {
    Read16(data, p) + 0x1_0000 * Read16(data, p + 2)
  }

  /** Position `p` is at an even address, in a block that starts at an odd one when `odd`. */
  predicate Aligned(odd: bool, p: nat) {
    (p % 2 == 1) == odd
  }

  lemma AlignedLater(odd: bool, p: nat, k: nat)
    requires Aligned(odd, p)
    ensures Aligned(odd, p + 2 * k)
  {
  }

  lemma PlainRead16(odd: bool, data: seq<Byte>, p: nat)
    requires p + 2 <= |data| && Aligned(odd, p)
    ensures Plain(odd, data, p + 2) == Plain(odd, data, p) + Read16(data, p)
  {
    assert Plain(odd, data, p + 1) == Plain(odd, data, p) + data[p];
  }

  lemma SwapPlain(hi: Byte, lo: Byte, swapped: nat, plain: nat, odd: nat, sumHi: Byte, sumLo: Byte)
    requires 0x100 * swapped == plain + 0xFFFF * odd
    requires swapped == 0 <==> plain == 0
    requires Alike(BE16(lo, hi) + swapped, BE16(sumHi, sumLo))
    ensures Alike(BE16(hi, lo) + plain, BE16(sumLo, sumHi))
  {
    var m := BE16(lo, hi) + swapped;
    AlikeSwap(m, sumHi, sumLo);
    AlikeBy(BE16(hi, lo) + plain, 0x100 * m, -(lo + odd));
    AlikeTrans(BE16(hi, lo) + plain, 0x100 * m, BE16(sumLo, sumHi));
  }

  /** What a sum of memory words of an even-aligned block says about the reference sum. */
  lemma SwappedSum(hi: Byte, lo: Byte, data: seq<Byte>, sumHi: Byte, sumLo: Byte)
    requires Alike(BE16(lo, hi) + Plain(false, data, |data|), BE16(sumHi, sumLo))
    ensures BE16(sumLo, sumHi) == OnesSum(BE16(hi, lo), data)
  {
    var n := |data|;
    PlainSwap(data, n);
    PlainZero(data, n);
    SwapPlain(hi, lo, Plain(false, data, n), Plain(true, data, n), OddBytes(data, n), sumHi, sumLo);
    OnesSumPlain(BE16(hi, lo), data);
    AlikeUnique(BE16(hi, lo) + Plain(true, data, n), BE16(sumLo, sumHi), OnesSum(BE16(hi, lo), data));
  }

  /** One carry-counted 32-bit addition. */
  method AddCounting(sum: Word32, term: Word32, carry: Word32) returns (sum': Word32, carry': Word32)
    requires carry < 0xFFFF_FFFF
    ensures sum' + 0x1_0000_0000 * carry' == sum + term + 0x1_0000_0000 * carry
    ensures carry <= carry' <= carry + 1
  {
    sum' := Wrap32(sum + term);
    carry' := carry;
    if sum' < sum {
      carry' := carry + 1;
    }
  }

  /** `exact` exceeds the sum of 16-bit words `plain` by a multiple of 65535, and is zero
      only if `plain` is. */
  ghost predicate Exceeds(exact: int, plain: int) {
    0 <= plain && exists k: nat :: Above(exact, plain, k) && (plain == 0 ==> k == 0)
  }

  lemma ExceedsMore(exact: int, plain: int, low: nat, high: nat)
    requires Exceeds(exact, plain)
    ensures Exceeds(exact + low + 0x1_0000 * high, plain + low + high)
  {
    var k: nat :| Above(exact, plain, k) && (plain == 0 ==> k == 0);
    assert Above(exact + low + 0x1_0000 * high, plain + low + high, k + high);
  }

  function LowHalves(data: seq<Byte>, p: nat): nat
    requires p + 16 <= |data|
  {
    Read16(data, p) + Read16(data, p + 4) + Read16(data, p + 8) + Read16(data, p + 12)
  }

  function HighHalves(data: seq<Byte>, p: nat): nat
    requires p + 16 <= |data|
  {
    Read16(data, p + 2) + Read16(data, p + 6) + Read16(data, p + 10) + Read16(data, p + 14)
  }

  lemma PlainBlock(odd: bool, data: seq<Byte>, p: nat)
    requires p + 16 <= |data| && Aligned(odd, p)
    ensures Plain(odd, data, p + 16) == Plain(odd, data, p) + LowHalves(data, p) + HighHalves(data, p)
  {
    PlainRead16(odd, data, p);
    PlainRead16(odd, data, p + 2);
    PlainRead16(odd, data, p + 4);
    PlainRead16(odd, data, p + 6);
    PlainRead16(odd, data, p + 8);
    PlainRead16(odd, data, p + 10);
    PlainRead16(odd, data, p + 12);
    PlainRead16(odd, data, p + 14);
  }

  /** One round of the unrolled loop: four additions whose carries are counted. */
  method AddBlock(data: seq<Byte>, p: nat, sum: Word32, carry: Word32)
    returns (sum': Word32, carry': Word32)
    requires p + 16 <= |data| && carry < 0xFFFF_FFF0
    ensures sum' + 0x1_0000_0000 * carry'
         == sum + 0x1_0000_0000 * carry + LowHalves(data, p) + 0x1_0000 * HighHalves(data, p)
    ensures carry <= carry' <= carry + 4
  {
    sum', carry' := AddCounting(sum, Read32(data, p), carry);
    sum', carry' := AddCounting(sum', Read32(data, p + 4), carry');
    sum', carry' := AddCounting(sum', Read32(data, p + 8), carry');
    sum', carry' := AddCounting(sum', Read32(data, p + 12), carry');
  }

  /** The bound of the block loop, three words short of the whole words that remain. */
  function BlockLoopBound(remaining: nat): nat {
    var size := remaining / 4 * 4;
    if size >= 3 * 4 then size - 3 * 4 else 0
  }

  /** Stepping by four words up to that bound visits exactly the whole blocks. */
  lemma BlockRounds(remaining: nat) returns (blocks: nat)
    ensures 16 * blocks + remaining % 16 == remaining
    ensures forall rounds: nat :: BeforeBound(rounds, BlockLoopBound(remaining)) <==> rounds < blocks
  {
    blocks := remaining / 16;
    var words := remaining / 4;
    assert words / 4 == blocks;
    forall rounds: nat
      ensures BeforeBound(rounds, BlockLoopBound(remaining)) <==> rounds < blocks
    {
      assert rounds < words / 4 <==> 4 * (rounds + 1) <= words;
    }
  }

  predicate BeforeBound(rounds: nat, size: nat) {
    16 * rounds < size
  }

  /** The loop over blocks of 16 bytes; `carry` counts the additions that left 32 bits. */
  method SumBlocks(data: seq<Byte>, start: nat, remaining: nat, sum0: Word32, ghost odd: bool)
    returns (sum: Word32, carry: Word32, source: nat, rest: nat)
    requires start + remaining == |data| < 0x1_0000_0000
    requires remaining == 0 || Aligned(odd, start)
    ensures source + rest == |data| && rest < 16
    ensures rest == 0 || Aligned(odd, source)
    ensures 4 * carry <= remaining
    ensures Exceeds(sum + 0x1_0000_0000 * carry,
                    sum0 + (Plain(odd, data, source) - Plain(odd, data, start)))
  {
    ghost var blocks := BlockRounds(remaining);
    var size := BlockLoopBound(remaining);
    rest := remaining % 16;
    sum, carry, source := SumRounds(data, start, size, sum0, blocks, odd);
  }

  method SumRounds(data: seq<Byte>, start: nat, size: nat, sum0: Word32, ghost blocks: nat, ghost odd: bool)
    returns (sum: Word32, carry: Word32, source: nat)
    requires start + 16 * blocks <= |data| < 0x1_0000_0000
    requires forall rounds: nat :: BeforeBound(rounds, size) <==> rounds < blocks
    requires blocks == 0 || Aligned(odd, start)
    ensures source == start + 16 * blocks
    ensures blocks == 0 || Aligned(odd, source)
    ensures carry <= 4 * blocks
    ensures Exceeds(sum + 0x1_0000_0000 * carry,
                    sum0 + (Plain(odd, data, source) - Plain(odd, data, start)))
  {
    sum, carry, source := sum0, 0, start;
    assert Exceeds(sum0, sum0) by { assert Above(sum0, sum0, 0); }
    ghost var rounds: nat := 0;
    var x := 0;
    assert BeforeBound(0, size) <==> 0 < blocks;
    while x < size
      invariant x == 16 * rounds && source == start + x && rounds <= blocks
      invariant x < size <==> rounds < blocks
      invariant blocks == 0 || Aligned(odd, source)
      invariant carry <= 4 * rounds
      invariant Exceeds(sum + 0x1_0000_0000 * carry,
                        sum0 + (Plain(odd, data, source) - Plain(odd, data, start)))
      decreases size - x
    {
      AlignedLater(odd, source, 8);
      PlainBlock(odd, data, source);
      ExceedsMore(sum + 0x1_0000_0000 * carry,
                  sum0 + (Plain(odd, data, source) - Plain(odd, data, start)),
                  LowHalves(data, source), HighHalves(data, source));
      sum, carry := AddBlock(data, source, sum, carry);
      source := source + 16;
      x := x + 16;
      rounds := rounds + 1;
      assert BeforeBound(rounds, size) <==> rounds < blocks;
    }
  }

  /** Adding both halves of the 32-bit sum and all its carries keeps the checksum. */
  lemma FoldCarries(sum: Word32, carry: Word32, plain: int)
    requires Exceeds(sum + 0x1_0000_0000 * carry, plain)
    ensures Alike(plain, Fold(sum) + carry)
  {
    var k: nat :| Above(sum + 0x1_0000_0000 * carry, plain, k) && (plain == 0 ==> k == 0);
    AlikeBy(plain, Fold(sum) + carry, sum / 0x1_0000 + 0x1_0001 * carry - k);
  }

  /** The loop over the 16-bit words behind the last block, and the last odd byte, which
      joins a first odd byte in `term`. None of these additions can wrap. */
  method SumShorts(data: seq<Byte>, start: nat, remaining: nat, sum0: Word32, term1: Byte, ghost odd: bool)
    returns (sum: Word32)
    requires start + remaining == |data| && remaining < 16
    requires remaining == 0 || Aligned(odd, start)
    requires sum0 < 0x7FF0_0000
    ensures sum == sum0 + (Plain(odd, data, |data|) - Plain(odd, data, start)) + 0x100 * term1
    ensures sum0 <= sum < 0x8000_0000
  {
    var source := start;
    sum := sum0;
    for x := 0 to remaining / 2
      invariant source == start + 2 * x
      invariant sum == sum0 + (Plain(odd, data, source) - Plain(odd, data, start))
      invariant sum0 <= sum <= sum0 + 0xFFFF * x
      invariant remaining == 0 || Aligned(odd, source)
    {
      AlignedLater(odd, source, 1);
      PlainRead16(odd, data, source);
      sum := sum + Read16(data, source);
      source := source + 2;
    }
    var term0: Byte := 0;
    if remaining % 2 == 1 {
      term0 := data[source];
      assert Plain(odd, data, source + 1) == Plain(odd, data, source) + term0;
    }
    sum := sum + BE16(term1, term0);
  }

  /** Two folds bring any sum the loops can produce into 16 bits. */
  lemma TwoFolds(x: Word32)
    requires x < 0x8000_0000
    ensures Fold(x) < 0x1_8000 && Fold(Fold(x)) < 0x1_0000 && Alike(x, Fold(Fold(x)))
  {
    AlikeFold(x);
    AlikeFold(Fold(x));
    AlikeTrans(x, Fold(x), Fold(Fold(x)));
  }

  lemma SumParts(seed: nat, sum0: int, term: int, before: int, between: int, after: int, folded: int, total: int)
    requires sum0 + term == seed + before && total == folded + (after - between) + term
    ensures sum0 + (between - before) + (total - folded) == seed + after
  {
  }

  /** The word-aligned part: all blocks, shorts and the last byte, folded to 16 bits. */
  method SumAligned(data: seq<Byte>, start: nat, remaining: nat, sum0: Word32, term1: Byte,
                    ghost odd: bool, ghost seed: nat)
    returns (sum: Word16)
    requires start + remaining == |data| < 0x1_0000_0000
    requires remaining == 0 || Aligned(odd, start)
    requires sum0 + 0x100 * term1 == seed + Plain(odd, data, start)
    ensures Alike(seed + Plain(odd, data, |data|), sum)
  {
    var total, carry, source, rest := SumBlocks(data, start, remaining, sum0, odd);
    ghost var blocks := sum0 + (Plain(odd, data, source) - Plain(odd, data, start));
    var folded := FoldWith(total, carry, blocks);
    total := SumShorts(data, source, rest, folded, term1, odd);
    SumParts(seed, sum0, 0x100 * term1, Plain(odd, data, start), Plain(odd, data, source),
             Plain(odd, data, |data|), folded, total);
    sum := FoldTwice(total, blocks, folded);
  }

  /** The carries are added to the halves of the sum: the result is far below 32 bits. */
  method FoldWith(sum: Word32, carry: Word32, ghost plain: int) returns (folded: Word32)
    requires carry < 0x4000_0000 && Exceeds(sum + 0x1_0000_0000 * carry, plain)
    ensures folded < 0x7FF0_0000 && 0 <= plain && Alike(plain, folded)
  {
    FoldCarries(sum, carry, plain);
    folded := Fold(sum) + carry;
  }

  method FoldTwice(total: Word32, ghost plain: nat, ghost folded: nat) returns (sum: Word16)
    requires folded <= total < 0x8000_0000 && Alike(plain, folded)
    ensures Alike(plain + (total - folded), sum)
  {
    AlikeAdd(plain, folded, total - folded);
    TwoFolds(total);
    sum := Fold(Fold(total));
    AlikeTrans(plain + (total - folded), total, sum);
  }

  /** Exchanging the bytes of a word: `FreeRTOS_htons`, and the swap for odd addresses. */
  method SwapBytes(w: Word16) returns (swapped: Word16, ghost hi: Byte, ghost lo: Byte)
    ensures w == BE16(hi, lo) && swapped == BE16(lo, hi)
  {
    PartsWord(w);
    hi, lo := HighByte(w), LowByte(w);
    swapped := Swap16(w);
  }

  /** The reads that bring the source to a 32-bit boundary: a byte at an odd address is
      kept in `term1`, a half-word is added. */
  method AlignSource(data: seq<Byte>, align: nat, odd: bool, start: Word16)
    returns (sum: Word32, source: nat, term1: Byte)
    requires align < 4 && (odd <==> align == 1 || align == 3)
    ensures source <= |data| && (source < |data| ==> Aligned(odd, source))
    ensures |data| - source >= 4 ==> align + source == 0 || align + source == 4
    ensures sum + 0x100 * term1 == start + Plain(odd, data, source)
  {
    sum, term1, source := start, 0, 0;
    if odd && |data| - source >= 1 {
      term1 := data[source];
      assert Plain(odd, data, 1) == Plain(odd, data, 0) + Placed(odd, 0, data[0]);
      source := source + 1;
    }
    if (align == 1 || align == 2) && |data| - source >= 2 {
      PlainRead16(odd, data, source);
      sum := sum + Read16(data, source);
      source := source + 2;
    }
  }

  /** The sum in the byte order of the memory words, folded to 16 bits. */
  method SumBytes(data: seq<Byte>, align: nat, odd: bool, start: Word16) returns (sum: Word16)
    requires align < 4 && (odd <==> align == 1 || align == 3)
    requires |data| < 0x1_0000_0000
    ensures Alike(start + Plain(odd, data, |data|), sum)
  {
    var first, source, term1 := AlignSource(data, align, odd, start);
    sum := SumAligned(data, source, |data| - source, first, term1, odd, start);
  }

  /** At odd addresses the memory words are the words of the sum. */
  lemma OddSum(seed: Word16, data: seq<Byte>, sum: Word16)
    requires Alike(seed + Plain(true, data, |data|), sum)
    ensures sum == OnesSum(seed, data)
  {
    OnesSumPlain(seed, data);
    AlikeUnique(seed + Plain(true, data, |data|), sum, OnesSum(seed, data));
  }

  /** The swap for odd addresses, and `FreeRTOS_htons`. */
  method SwapBytesTwice(w: Word16) returns (same: Word16)
    ensures same == w
  {
    ghost var hi, lo, hi', lo';
    same, hi, lo := SwapBytes(w);
    same, lo', hi' := SwapBytes(same);
    BytesUnique(lo, hi, lo', hi');
  }

  method SwapSum(w: Word16, ghost hi: Byte, ghost lo: Byte, ghost data: seq<Byte>) returns (sum: Word16)
    requires Alike(BE16(lo, hi) + Plain(false, data, |data|), w)
    ensures sum == OnesSum(BE16(hi, lo), data)
  {
    ghost var sumHi, sumLo;
    sum, sumHi, sumLo := SwapBytes(w);
    SwappedSum(hi, lo, data, sumHi, sumLo);
  }

  /** From an odd address, the bytes of the seed and of the sum are exchanged twice. */
  method OddChecksum(seed: Word16, data: seq<Byte>, align: nat) returns (checksum: Word16)
    requires (align == 1 || align == 3) && |data| < 0x1_0000_0000
    ensures checksum == OnesSum(seed, data)
  {
    var start := SwapBytesTwice(seed);
    var sum := SumBytes(data, align, true, start);
    OddSum(seed, data, sum);
    checksum := SwapBytesTwice(sum);
  }

  /** From an even address, they are exchanged once. */
  method EvenChecksum(seed: Word16, data: seq<Byte>, align: nat) returns (checksum: Word16)
    requires (align == 0 || align == 2) && |data| < 0x1_0000_0000
    ensures checksum == OnesSum(seed, data)
  {
    ghost var hi, lo;
    var start;
    start, hi, lo := SwapBytes(seed);
    var sum := SumBytes(data, align, false, start);
    checksum := SwapSum(sum, hi, lo, data);
  }

  /** `usGenerateChecksum`. `align` is the start address modulo 4. The plain additions are
      to 32-bit variables and must not wrap; only `AddCounting` may. */
  method GenerateChecksum(seed: Word16, data: seq<Byte>, align: nat) returns (checksum: Word16)
    requires align < 4
    requires |data| < 0x1_0000_0000
    ensures checksum == OnesSum(seed, data)
  {
    if align == 1 || align == 3 {
      checksum := OddChecksum(seed, data, align);
    } else {
      checksum := EvenChecksum(seed, data, align);
    }
  }

  lemma BytesUnique(hi: Byte, lo: Byte, hi': Byte, lo': Byte)
    requires BE16(hi, lo) == BE16(hi', lo')
    ensures hi == hi' && lo == lo'
  {
  }

  // ---------------------------------------------------------------------------
  // What the sum means to its callers.
  // ---------------------------------------------------------------------------

  lemma {:induction false} OnesSumPrefix(seed: Word16, a: seq<Byte>, ab: seq<Byte>, n: nat)
    requires 2 * n <= |a| <= |ab| && ab[..|a|] == a
    ensures OnesSumTo(seed, ab, n) == OnesSumTo(seed, a, n)
  {
    if n > 0 {
      OnesSumPrefix(seed, a, ab, n - 1);
      assert ab[2 * n - 1] == ab[..|a|][2 * n - 1] && ab[2 * n - 2] == ab[..|a|][2 * n - 2];
    }
  }

  lemma {:induction false} OnesSumSuffix(seed: Word16, ab: seq<Byte>, half: nat, b: seq<Byte>, n: nat)
    requires 2 * half <= |ab| && ab[2 * half..] == b
    requires 2 * n <= |b| + 1
    ensures OnesSumTo(seed, ab, half + n) == OnesSumTo(OnesSumTo(seed, ab, half), b, n)
  {
    if n > 0 {
      OnesSumSuffix(seed, ab, half, b, n - 1);
      assert WordAt(ab, half + (n - 1)) == WordAt(b, n - 1);
    }
  }

  /** Summing an even-length prefix first and continuing from its sum is one sum. */
  lemma OnesSumChain(seed: Word16, a: seq<Byte>, b: seq<Byte>)
    requires |a| % 2 == 0
    ensures OnesSum(OnesSum(seed, a), b) == OnesSum(seed, a + b)
  {
    var half := |a| / 2;
    OnesSumPrefix(seed, a, a + b, half);
    OnesSumSuffix(seed, a + b, half, b, WordCount(b));
  }

  /** Continuing a checksum over the next piece of data. */
  method ContinueChecksum(ghost done: seq<Byte>, sum: Word16, data: seq<Byte>, align: nat)
    returns (checksum: Word16)
    requires align < 4 && |data| < 0x1_0000_0000
    requires |done| % 2 == 0 && sum == OnesSum(0, done)
    ensures checksum == OnesSum(0, done + data)
  {
    OnesSumChain(0, done, data);
    checksum := GenerateChecksum(sum, data, align);
  }

  /** The sum is zero only for all-zero input. */
  lemma OnesSumZero(seed: Word16, data: seq<Byte>)
    ensures OnesSum(seed, data) == 0 <==> seed == 0 && forall i :: 0 <= i < |data| ==> data[i] == 0
  {
    OnesSumPlain(seed, data);
    PlainZero(data, |data|);
  }
}
