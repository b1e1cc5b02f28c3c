/**
  * The sizes that extension headers have by their standards, and exactly where the walk over
  * them, which measures all of them alike, goes the same way.
  */
module StandardHeaders {
  import opened Words
  import opened Ipv6Extensions

  /** The size of a header whose second octet is `units`: an authentication header counts words
      of 4 bytes (section 2.2 of RFC 4302), the second octet of a fragment header is reserved
      (section 4.5 of RFC 2460), and all others count units of 8 bytes. */
  function StandardSize(header: Byte, units: Byte): nat {
    var n: nat := units;
    if header == AUTHENTICATION then 4 * (n + 2)
    else if header == FRAGMENT then 8
    else 8 * n + 8
  }

  /** The upper layer behind a header of the given kind at `index`. What is behind an encrypted
      payload header cannot be found (RFC 4303). */
  function StandardChain(f: seq<Byte>, index: nat, header: Byte): (u: Upper)
    ensures u.Upper? ==> index + 8 <= u.start < |f| && IsUpperLayer(u.protocol)
    decreases |f| - index
  {
    if index + 8 >= |f| || header == SECURE_PAYLOAD then NoUpper
    else
      var next := f[index];
      var after := index + StandardSize(header, f[index + 1]);
      if after >= |f| then NoUpper
      else if IsUpperLayer(next) then Upper(after, next)
      else if !IsExtension(next) || next == HOP_BY_HOP then NoUpper
      else StandardChain(f, after, next)
  }

  function StandardUpper(f: seq<Byte>): Upper
    requires |f| >= FIRST_HEADER
  {
    var header := f[NEXT_HEADER];
    if IsExtension(header) then StandardChain(f, FIRST_HEADER, header) else Upper(FIRST_HEADER, header)
  }

  // ---------------------------------------------------------------------------
  // The same headers.
  // ---------------------------------------------------------------------------

  /** The positions behind each of the headers, as the code measures them. */
  function Ends(f: seq<Byte>, index: nat): seq<nat>
    decreases |f| - index
  {
    if index + 8 >= |f| then []
    else
      var after := index + HopSize(f[index + 1]);
      if after >= |f| then []
      else if IsUpperLayer(f[index]) then [after]
      else if !IsExtension(f[index]) || f[index] == HOP_BY_HOP then []
      else [after] + Ends(f, after)
  }

  function StandardEnds(f: seq<Byte>, index: nat, header: Byte): seq<nat>
    decreases |f| - index
  {
    if index + 8 >= |f| || header == SECURE_PAYLOAD then []
    else
      var after := index + StandardSize(header, f[index + 1]);
      if after >= |f| then []
      else if IsUpperLayer(f[index]) then [after]
      else if !IsExtension(f[index]) || f[index] == HOP_BY_HOP then []
      else [after] + StandardEnds(f, after, f[index])
  }

  /** The second octet of a header gives its size in the way the code reads it. */
  predicate IsMeasured(header: Byte, units: Byte) {
    && header != SECURE_PAYLOAD
    && (header == AUTHENTICATION || header == FRAGMENT ==> units == 0)
  }

  /** That is so for all headers of the walk. */
  predicate AllMeasured(f: seq<Byte>, index: nat, header: Byte)
    decreases |f| - index
  {
    index + 8 >= |f|
    || (IsMeasured(header, f[index + 1])
        && var after := index + HopSize(f[index + 1]);
           after >= |f| || !IsExtension(f[index]) || AllMeasured(f, after, f[index]))
  }

  lemma SizesExactly(header: Byte, units: Byte)
    requires header != SECURE_PAYLOAD
    ensures StandardSize(header, units) == HopSize(units) <==> IsMeasured(header, units)
    ensures StandardSize(header, units) <= HopSize(units)
  {
  }

  /** The walk ends each header where the standards do, all the way to the upper layer, if and only
      if every authentication and fragment header has the second octet 0 and there is no encrypted
      payload. */
  lemma {:induction false} ChainExactly(f: seq<Byte>, index: nat, header: Byte)
    requires Chain(f, index).Upper?
    ensures StandardEnds(f, index, header) == Ends(f, index) <==> AllMeasured(f, index, header)
    ensures AllMeasured(f, index, header) ==> StandardChain(f, index, header) == Chain(f, index)
    decreases |f| - index
  {
    var next := f[index];
    var after := index + HopSize(f[index + 1]);
    assert Ends(f, index) != [] && Ends(f, index)[0] == after;
    if header != SECURE_PAYLOAD {
      SizesExactly(header, f[index + 1]);
      assert StandardEnds(f, index, header)[0] == index + StandardSize(header, f[index + 1]);
      if IsMeasured(header, f[index + 1]) && !IsUpperLayer(next) {
        ChainExactly(f, after, next);
        SameFront(after, StandardEnds(f, after, next), Ends(f, after));
      }
    }
  }

  lemma SameFront(first: nat, a: seq<nat>, b: seq<nat>)
    ensures [first] + a == [first] + b <==> a == b
  {
    assert ([first] + a)[1..] == a && ([first] + b)[1..] == b;
  }

  // ---------------------------------------------------------------------------
  // Removing the headers.
  // ---------------------------------------------------------------------------

  predicate Measured(f: seq<Byte>)
    requires |f| >= FIRST_HEADER
  {
    IsExtension(f[NEXT_HEADER]) ==> AllMeasured(f, FIRST_HEADER, f[NEXT_HEADER])
  }

  /** Removing the headers keeps exactly the upper layer of the packet if they are measured. The
      headers that are removed are those of the packet if and only if they are. */
  lemma StrippedStandard(f: seq<Byte>)
    requires |f| >= FIRST_HEADER && Removable(f)
    ensures Measured(f) ==>
              var u := StandardUpper(f);
              u.Upper? && u == UpperLayer(f) && Stripped(f)[FIRST_HEADER..] == f[u.start..]
    ensures IsExtension(f[NEXT_HEADER]) ==>
              (StandardEnds(f, FIRST_HEADER, f[NEXT_HEADER]) == Ends(f, FIRST_HEADER) <==> Measured(f))
  {
    StrippedFrame(f);
    if IsExtension(f[NEXT_HEADER]) {
      ChainExactly(f, FIRST_HEADER, f[NEXT_HEADER]);
    }
  }

  /** A frame with one header. */
  predicate HasOneHeader(f: seq<Byte>)
    requires |f| > FIRST_HEADER
  {
    IsExtension(f[NEXT_HEADER]) && IsUpperLayer(f[FIRST_HEADER])
  }

  /** With one header, the upper layer is kept if and only if the header is measured. */
  lemma OneHeaderExactly(f: seq<Byte>)
    requires |f| >= FIRST_HEADER && Removable(f) && IsExtension(f[NEXT_HEADER]) && HasOneHeader(f)
    ensures StandardUpper(f) == UpperLayer(f) <==> IsMeasured(f[NEXT_HEADER], f[FIRST_HEADER + 1])
  {
    if f[NEXT_HEADER] != SECURE_PAYLOAD {
      SizesExactly(f[NEXT_HEADER], f[FIRST_HEADER + 1]);
    }
  }

  /** UDP behind an authentication header of 24 bytes, with a payload of 48 bytes. */
  ghost predicate IsAuthenticated(f: seq<Byte>) {
    && |f| == 102 && f[18] == 0 && f[19] == 48 && f[NEXT_HEADER] == AUTHENTICATION
    && f[54] == PROTOCOL_UDP && f[55] == 4
  }

  lemma AuthenticatedUpper(f: seq<Byte>)
    requires IsAuthenticated(f)
    ensures UpperLayer(f) == Upper(94, PROTOCOL_UDP) && StandardUpper(f) == Upper(78, PROTOCOL_UDP)
    ensures PayloadLength(f) == 48
  {
    assert HopSize(f[55]) == 40 && StandardSize(AUTHENTICATION, f[55]) == 24;
  }

  /** Of such a frame 40 bytes are removed, and with them 16 bytes of the datagram. */
  lemma AuthenticatedCut(f: seq<Byte>)
    requires IsAuthenticated(f)
    ensures Removable(f) && StandardUpper(f) == Upper(78, PROTOCOL_UDP)
    ensures Stripped(f)[FIRST_HEADER..] == f[78 + 16..]
  {
    AuthenticatedUpper(f);
    StrippedFrame(f);
  }
}
