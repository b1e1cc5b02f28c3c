/**
  * What the checksums are for: a frame in which one byte has been changed is not accepted.
  */
module Corruption {
  import opened Words
  import opened Checksum
  import opened Ipv6Extensions
  import opened ProtocolChecksum
  import opened Icmp

  /** Changing one byte changes the plain sum by less than 65535, and not by 0. */
  lemma {:induction false} PlainChange(d: seq<Byte>, e: seq<Byte>, p: nat, n: nat)
    requires p < |d| == |e| && n <= |d| && e == d[p := e[p]]
    ensures Plain(true, e, n) - Plain(true, d, n)
         == if n <= p then 0 else if p % 2 == 0 then 0x100 * (e[p] as int - d[p] as int) else e[p] as int - d[p] as int
    decreases n
  {
    if n > 0 {
      PlainChange(d, e, p, n - 1);
    }
  }

  /** Of two sums that differ by less than 65535 one at most is complete. */
  lemma NotBoth(a: nat, b: nat)
    requires a != b && -0xFFFF < a as int - b as int < 0xFFFF
    ensures !(Alike(a, 0xFFFF) && Alike(b, 0xFFFF))
  {
    if Alike(a, 0xFFFF) && Alike(b, 0xFFFF) {
      var k :| Above(a, 0xFFFF, k);
      var l :| Above(b, 0xFFFF, l);
      NoSmallMultiple(a - b, k - l);
    }
  }

  lemma NoSmallMultiple(x: int, k: int)
    requires x == 0xFFFF * k
    ensures x == 0 || x >= 0xFFFF || x <= -0xFFFF
  {
  }

  /** A change of one byte is always detected. */
  lemma ByteChangeDetected(d: seq<Byte>, e: seq<Byte>, p: nat)
    requires p < |d| == |e| && e == d[p := e[p]] && e[p] != d[p]
    requires OnesSum(0, d) == 0xFFFF
    ensures OnesSum(0, e) != 0xFFFF
  {
    PlainChange(d, e, p, |d|);
    OnesSumPlain(0, d);
    OnesSumPlain(0, e);
    NotBoth(Plain(true, d, |d|), Plain(true, e, |e|));
  }

  /** A byte of the frame among those that are cut out of it. */
  lemma SliceChanged(f: seq<Byte>, g: seq<Byte>, p: nat, lo: nat, hi: nat, pre: seq<Byte>)
    requires lo <= p < hi <= |f| == |g| && g == f[p := g[p]]
    ensures var d, e, q := pre + f[lo..hi], pre + g[lo..hi], |pre| + (p - lo);
            q < |d| == |e| && e == d[q := e[q]] && d[q] == f[p] && e[q] == g[p]
  {
  }

  /** A frame with a changed byte in its IPv4 header, which is still one of the same size, is not
      accepted. */
  lemma HeaderChangeRefused(f: seq<Byte>, g: seq<Byte>, p: nat)
    requires Readable(f) && |f| > ETH_HEADER && FrameType(f) == FRAME_TYPE_IPV4
    requires ETH_HEADER + IPv4HeaderSize(f) <= |f| == |g| && Accepted(f)
    requires ETH_HEADER < p < ETH_HEADER + IPv4HeaderSize(f) && g == f[p := g[p]] && g[p] != f[p]
    ensures Readable(g) && FrameType(g) == FRAME_TYPE_IPV4 && IPv4HeaderSize(g) == IPv4HeaderSize(f) && !Accepted(g)
  {
    SameHeader(f, g, p);
    var end := HeaderSums(f);
    BytesChanged(f, g, p, ETH_HEADER, end);
    SumRefused(g, end);
  }

  lemma SumRefused(g: seq<Byte>, end: nat)
    requires Readable(g) && |g| > ETH_HEADER && FrameType(g) == FRAME_TYPE_IPV4
    requires end == ETH_HEADER + IPv4HeaderSize(g) <= |g| && OnesSum(0, g[ETH_HEADER..end]) != 0xFFFF
    ensures !Accepted(g)
  {
  }

  /** The part of the acceptance test that is about the header. */
  lemma HeaderSums(f: seq<Byte>) returns (end: nat)
    requires Readable(f) && |f| > ETH_HEADER && FrameType(f) == FRAME_TYPE_IPV4
    requires ETH_HEADER + IPv4HeaderSize(f) <= |f| && Accepted(f)
    ensures end == ETH_HEADER + IPv4HeaderSize(f) <= |f|
    ensures OnesSum(0, f[ETH_HEADER..end]) == 0xFFFF
  {
    end := ETH_HEADER + IPv4HeaderSize(f);
  }

  lemma SameHeader(f: seq<Byte>, g: seq<Byte>, p: nat)
    requires Readable(f) && |f| > ETH_HEADER && FrameType(f) == FRAME_TYPE_IPV4
    requires |g| == |f| && ETH_HEADER < p < |f| && g == f[p := g[p]]
    ensures Readable(g) && FrameType(g) == FRAME_TYPE_IPV4 && IPv4HeaderSize(g) == IPv4HeaderSize(f)
  {
    assert g[12] == f[12] && g[13] == f[13] && g[14] == f[14];
  }

  lemma OneByteOfSlice(f: seq<Byte>, g: seq<Byte>, p: nat, lo: nat, hi: nat)
    requires lo <= p < hi <= |f| == |g| && g == f[p := g[p]]
    ensures var d, e, q := f[lo..hi], g[lo..hi], p - lo;
            e == d[q := e[q]] && d[q] == f[p] && e[q] == g[p]
  {
  }

  lemma BytesChanged(f: seq<Byte>, g: seq<Byte>, p: nat, lo: nat, hi: nat)
    requires lo <= p < hi <= |f| == |g| && g == f[p := g[p]] && g[p] != f[p] && OnesSum(0, f[lo..hi]) == 0xFFFF
    ensures OnesSum(0, g[lo..hi]) != 0xFFFF
  {
    var d, e := f[lo..hi], g[lo..hi];
    OneByteOfSlice(f, g, p, lo, hi);
    ByteChangeDetected(d, e, p - lo);
  }

  /** The byte is among the covered ones: in the message, or in the addresses of the pseudo-header.
      Over IPv4 headers with options the end of the message is not covered for UDP and TCP. */
  predicate IsCoveredByte(m: Message, p: nat) {
    if m.protocol == 1 || m.protocol == 2 then m.start <= p < m.start + m.size
    else if m.isIPv6 then 22 <= p < 54 || m.start <= p < m.start + m.size
    else 26 <= p < 34 + m.size
  }

  lemma CoveredChanged(f: seq<Byte>, g: seq<Byte>, m: Message, p: nat) returns (q: nat)
    requires Inside(f, m) && EvenHeader(m) && |g| == |f| && p < |f| && g == f[p := g[p]] && g[p] != f[p]
    requires IsCoveredByte(m, p)
    ensures Inside(g, m)
    ensures var d, e := Covered(f, m), Covered(g, m);
            q < |d| == |e| && e == d[q := e[q]] && e[q] != d[q]
  {
    if m.protocol == 1 || m.protocol == 2 {
      q := p - m.start;
    } else if m.isIPv6 {
      q := CoveredChangedIPv6(f, g, m, p);
    } else {
      var pre := ProtocolAndLength(m.size, m.protocol);
      SliceChanged(f, g, p, IPV4_SOURCE, IPV4_SOURCE + 8 + m.size, pre);
      q := 4 + (p - IPV4_SOURCE);
    }
  }

  lemma CoveredChangedIPv6(f: seq<Byte>, g: seq<Byte>, m: Message, p: nat) returns (q: nat)
    requires Inside(f, m) && m.isIPv6 && m.protocol != 1 && m.protocol != 2
    requires |g| == |f| && p < |f| && g == f[p := g[p]] && g[p] != f[p]
    requires 22 <= p < 54 || m.start <= p < m.start + m.size
    ensures Inside(g, m)
    ensures var d, e := Covered(f, m), Covered(g, m);
            q < |d| == |e| && e == d[q := e[q]] && e[q] != d[q]
  {
    var words := LengthWords(m.size, m.protocol);
    var end := m.start + m.size;
    if p < 54 {
      assert g[m.start..end] == f[m.start..end];
      q := p - 22;
    } else {
      assert g[22..54] == f[22..54];
      SliceChanged(f, g, p, m.start, end, f[22..54] + words);
      q := 40 + (p - m.start);
    }
  }

  /** A frame with a changed byte among the covered ones, in which the same message is located, is
      not accepted. */
  lemma MessageChangeRefused(f: seq<Byte>, g: seq<Byte>, p: nat)
    requires Readable(f) && Readable(g) && Locate(f).Located? && Locate(g) == Locate(f)
    requires Verdict(f) == CORRECT_CRC && |g| == |f| && p < |f| && g == f[p := g[p]] && g[p] != f[p]
    requires IsCoveredByte(Locate(f).message, p)
    ensures Verdict(g) != CORRECT_CRC
  {
    var m := Locate(f).message;
    var q := CoveredChanged(f, g, m, p);
    ByteChangeDetected(Covered(f, m), Covered(g, m), q);
  }
}
