/**
  * Names in DNS messages (sections 3.1 and 4.1.4 of RFC 1035): what a name means, and the
  * three walkers `DNS_DecodeName`, `DNS_ReadNameField` and `DNS_SkipNameField`.
  */
module DnsNames {
  import opened Words

  /** `ASCII_BASELINE_DOT`. */
  const DOT: Byte := 46
  /** `dnsNAME_IS_OFFSET`: a length byte with both top bits set starts a pointer. */
  const NAME_IS_OFFSET := 0xC0
  /** `dnsMAX_COMPRESSION_HOPS`. */
  const MAX_HOPS := 8

  type Bytes = seq<Byte>

  // ---------------------------------------------------------------------------
  // The meaning of a name.
  // ---------------------------------------------------------------------------

  /** The text of a list of labels. */
  function Dotted(labels: seq<Bytes>): Bytes {
    if |labels| == 0 then []
    else if |labels| == 1 then labels[0]
    else Dotted(labels[..|labels| - 1]) + [DOT] + labels[|labels| - 1]
  }

  /** The wire form of a list of labels (section 3.1 of RFC 1035). */
  function Encoded(labels: seq<Bytes>): Bytes
    requires forall l :: l in labels ==> |l| < NAME_IS_OFFSET
  {
    if |labels| == 0 then [0] else LabelThen(labels[0], Encoded(labels[1..]))
  }

  function LabelThen(first: Bytes, rest: Bytes): (r: Bytes)
    requires |first| < NAME_IS_OFFSET
    ensures |r| == 1 + |first| + |rest|
  {
    [|first|] + first + rest
  }

  function Prefixed(labels: seq<Bytes>, rest: Option<seq<Bytes>>): Option<seq<Bytes>> {
    if rest.None? then None else Some(labels + rest.value)
  }

  lemma PrefixedNone(rest: Option<seq<Bytes>>)
    ensures Prefixed([], rest) == rest
  {
    assert rest.Some? ==> [] + rest.value == rest.value;
  }

  function PointerTarget(first: Byte, second: Byte): nat
    requires first >= NAME_IS_OFFSET
  {
    0x100 * (first as int - NAME_IS_OFFSET) + second
  }

  /** Section 3.1 of RFC 1035: the longest label. */
  const MAX_LABEL := 63

  /** The labels of the name at `source[i..]` as the code reads it, when it is complete and at
      most `hops` pointers have to be followed. Pointers refer to `message`, and every length
      octet below 192 starts a label. */
  function Resolve(message: Bytes, source: Bytes, i: nat, hops: nat): (r: Option<seq<Bytes>>)
    requires i <= |source|
    ensures r.Some? ==> forall l :: l in r.value ==> 0 < |l| < NAME_IS_OFFSET
    decreases hops, |source| - i
  {
    if i == |source| then None
    else if source[i] >= NAME_IS_OFFSET then
      if |source| - i < 2 || hops == 0 then None
      else
        var target := PointerTarget(source[i], source[i + 1]);
        if target >= |message| then None else Resolve(message, message, target, hops - 1)
    else if source[i] == 0 then Some([])
    else
      var next := i + 1 + source[i];
      if next > |source| then None
      else Prefixed([source[i + 1..next]], Resolve(message, source, next, hops))
  }

  /** The destination has room for the text. For a single label the source asks for one
      byte more than the text and its terminator. */
  predicate Fits(labels: seq<Bytes>, size: nat) {
    |Dotted(labels)| + (if |labels| == 1 then 1 else 0) < size
  }

  /** The text of the name when it can be decoded into `size` bytes. */
  function Decoded(message: Bytes, source: Bytes, size: nat): Option<Bytes> {
    var labels := Resolve(message, source, 0, MAX_HOPS);
    if labels.Some? && |labels.value| > 0 && Fits(labels.value, size)
    then Some(Dotted(labels.value)) else None
  }

  /** `text` followed by a terminator is at the start of the destination. */
  predicate Terminated(out: Bytes, text: Bytes) {
    |text| < |out| && out[..|text|] == text && out[|text|] == 0
  }

  // ---------------------------------------------------------------------------
  // DNS_DecodeName
  // ---------------------------------------------------------------------------

  lemma DottedAppend(labels: seq<Bytes>, l: Bytes)
    ensures Dotted(labels + [l]) == (if |labels| == 0 then l else Dotted(labels) + [DOT] + l)
  {
    assert (labels + [l])[..|labels|] == labels;
  }

  /** More labels make the text longer. */
  lemma {:induction false} DottedGrows(labels: seq<Bytes>, more: seq<Bytes>)
    requires |labels| > 0 && forall l :: l in more ==> |l| > 0
    ensures |Dotted(labels + more)| >= |Dotted(labels)| + 2 * |more|
    decreases |more|
  {
    if |more| == 0 {
      assert labels + more == labels;
    } else {
      var k := |more| - 1;
      assert labels + more == (labels + more[..k]) + [more[k]];
      DottedGrows(labels, more[..k]);
      DottedAppend(labels + more[..k], more[k]);
    }
  }

  /** A label for which there is no room cannot be part of a name that fits. */
  lemma NoRoom(before: seq<Bytes>, l: Bytes, after: seq<Bytes>, size: nat)
    requires |l| > 0 && forall m :: m in after ==> |m| > 0
    requires |Dotted(before)| + |l| + 1 >= size
    ensures !Fits(before + [l] + after, size)
  {
    DottedAppend(before, l);
    DottedGrows(before + [l], after);
  }

  lemma ResolveLabel(message: Bytes, source: Bytes, i: nat, hops: nat, before: seq<Bytes>)
    requires i < |source| && 0 < source[i] < NAME_IS_OFFSET && i + 1 + source[i] <= |source|
    ensures var next := i + 1 + source[i];
            Prefixed(before, Resolve(message, source, i, hops))
            == Prefixed(before + [source[i + 1..next]], Resolve(message, source, next, hops))
  {
    var next := i + 1 + source[i];
    var rest := Resolve(message, source, next, hops);
    if rest.Some? {
      var l := source[i + 1..next];
      assert before + ([l] + rest.value) == (before + [l]) + rest.value;
    }
  }

  /** `memcpy` of a label. */
  method CopyInto(out: array<Byte>, at: nat, source: Bytes, from: nat, count: nat)
    requires from + count <= |source| && at + count <= out.Length
    modifies out
    ensures out[..at + count] == old(out[..at]) + source[from..from + count]
    ensures out[at + count..] == old(out[at + count..])
  {
    for k := 0 to count
      invariant forall j :: 0 <= j < at ==> out[j] == old(out[j])
      invariant forall j :: at <= j < at + k ==> out[j] == source[from + (j - at)]
      invariant forall j :: at + count <= j < out.Length ==> out[j] == old(out[j])
    {
      out[at + k] := source[from + k];
    }
  }

  /** Appending one label behind a separator, and the terminator. */
  method AppendLabel(out: array<Byte>, length: nat, source: Bytes, from: nat, count: nat, ghost labels: seq<Bytes>)
    returns (length': nat)
    requires from + count <= |source| && length + count + 1 < out.Length
    requires out[..length] == Dotted(labels) && (length > 0 <==> |labels| > 0)
    modifies out
    ensures length' == length + count + (if length > 0 then 1 else 0)
    ensures out[..length'] == Dotted(labels + [source[from..from + count]])
    ensures out[length'] == 0
  {
    DottedAppend(labels, source[from..from + count]);
    length' := length;
    if length' > 0 {
      out[length'] := DOT;
      length' := length' + 1;
    }
    assert out[..length'] == old(out[..length]) + if length > 0 then [DOT] else [];
    CopyInto(out, length', source, from, count);
    length' := length' + count;
    out[length'] := 0;
  }

  /** The number of pointers followed so far and the position reached. */
  datatype Position = Position(source: Bytes, index: nat, hops: nat)

  /** What the name at `p` adds to the labels that have been read. */
  ghost function Remaining(message: Bytes, p: Position, before: seq<Bytes>): Option<seq<Bytes>>
    requires p.index <= |p.source| && p.hops <= MAX_HOPS
  {
    Prefixed(before, Resolve(message, p.source, p.index, MAX_HOPS - p.hops))
  }

  lemma LabelDoesNotFit(message: Bytes, p: Position, before: seq<Bytes>, size: nat)
    requires p.index < |p.source| && p.hops <= MAX_HOPS && 0 < p.source[p.index] < NAME_IS_OFFSET
    requires p.index + 1 + p.source[p.index] <= |p.source|
    requires |Dotted(before)| + p.source[p.index] + 1 >= size
    ensures var r := Remaining(message, p, before); r.Some? ==> !Fits(r.value, size)
  {
    ResolveLabel(message, p.source, p.index, MAX_HOPS - p.hops, before);
    var next := p.index + 1 + p.source[p.index];
    var rest := Resolve(message, p.source, next, MAX_HOPS - p.hops);
    if rest.Some? {
      NoRoom(before, p.source[p.index + 1..next], rest.value, size);
    }
  }

  /** The destination holds the text of the labels read so far, and there is room for it. */
  ghost predicate Holds(out: array<Byte>, length: nat, labels: seq<Bytes>)
    reads out
  {
    && length < out.Length && out[..length] == Dotted(labels) && out[length] == 0
    && (length > 0 <==> |labels| > 0)
    && (|labels| == 1 ==> length + 1 < out.Length)
  }

  /** Reading a name: `whole` is what it resolves to. */
  ghost predicate Reading(message: Bytes, p: Position, labels: seq<Bytes>, whole: Option<seq<Bytes>>) {
    p.index <= |p.source| && p.hops <= MAX_HOPS && Remaining(message, p, labels) == whole
  }

  lemma ReadingLabel(message: Bytes, p: Position, labels: seq<Bytes>, whole: Option<seq<Bytes>>, count: Byte)
    requires Reading(message, p, labels, whole) && p.index < |p.source| && p.source[p.index] == count
    requires 0 < count < NAME_IS_OFFSET && |p.source| - p.index >= count + 1
    ensures var l := p.source[p.index + 1..p.index + 1 + count];
            Reading(message, p.(index := p.index + count + 1), labels + [l], whole)
  {
    ResolveLabel(message, p.source, p.index, MAX_HOPS - p.hops, labels);
  }

  lemma ReadingEnd(message: Bytes, p: Position, labels: seq<Bytes>, whole: Option<seq<Bytes>>)
    requires Reading(message, p, labels, whole) && p.index < |p.source|
    ensures p.source[p.index] == 0 ==> whole == Some(labels)
  {
    assert labels + [] == labels;
  }

  /** A pointer; the position is unchanged when it is refused. */
  method FollowPointer(message: Bytes, p: Position, ghost labels: seq<Bytes>, ghost whole: Option<seq<Bytes>>)
    returns (ok: bool, p': Position)
    requires Reading(message, p, labels, whole) && p.index < |p.source| && p.source[p.index] >= NAME_IS_OFFSET
    ensures ok ==> Reading(message, p', labels, whole) && p'.hops == p.hops + 1
    ensures !ok ==> whole == None
  {
    ok, p' := false, p;
    if |p.source| - p.index >= 2 && p.hops < MAX_HOPS {
      var target := PointerTarget(p.source[p.index], p.source[p.index + 1]);
      if target < |message| {
        ok, p' := true, Position(message, target, p.hops + 1);
      }
    }
  }

  /** A label, if it is complete and there is room for it. */
  method TakeLabel(message: Bytes, p: Position, count: Byte, out: array<Byte>, length: nat,
                   ghost labels: seq<Bytes>, ghost whole: Option<seq<Bytes>>)
    returns (ok: bool, p': Position, length': nat, ghost labels': seq<Bytes>)
    requires Reading(message, p, labels, whole) && Holds(out, length, labels)
    requires p.index < |p.source| && p.source[p.index] == count && 0 < count < NAME_IS_OFFSET
    modifies out
    ensures ok ==> Reading(message, p', labels', whole) && Holds(out, length', labels')
    ensures ok ==> p'.hops == p.hops && |p'.source| - p'.index < |p.source| - p.index
    ensures !ok ==> whole.Some? ==> !Fits(whole.value, out.Length)
  {
    ok, p', length', labels' := false, p, length, labels;
    if |p.source| - p.index >= count + 1 {
      if length + count + 1 >= out.Length {
        LabelDoesNotFit(message, p, labels, out.Length);
      } else {
        ReadingLabel(message, p, labels, whole, count);
        length' := AppendLabel(out, length, p.source, p.index + 1, count, labels);
        labels' := labels + [p.source[p.index + 1..p.index + 1 + count]];
        ok, p' := true, p.(index := p.index + count + 1);
      }
    }
  }

  datatype Outcome = More | Complete | Refused

  /** One round of the loop of `DNS_DecodeName`. */
  method DecodeStep(message: Bytes, p: Position, out: array<Byte>, length: nat,
                    ghost labels: seq<Bytes>, ghost whole: Option<seq<Bytes>>)
    returns (outcome: Outcome, p': Position, length': nat, ghost labels': seq<Bytes>)
    requires Reading(message, p, labels, whole) && Holds(out, length, labels)
    modifies out
    ensures outcome.More? ==> Reading(message, p', labels', whole) && Holds(out, length', labels')
    ensures outcome.More? ==> p'.hops > p.hops
                              || (p'.hops == p.hops && |p'.source| - p'.index < |p.source| - p.index)
    ensures outcome.Complete? ==> whole == Some(labels') && |labels'| > 0 && Holds(out, length', labels')
    ensures outcome.Refused? ==> whole.Some? ==> |whole.value| == 0 || !Fits(whole.value, out.Length)
  {
    outcome, p', length', labels' := Refused, p, length, labels;
    if p.index == |p.source| {
      return;
    }
    var count := p.source[p.index];
    if count >= NAME_IS_OFFSET {
      var ok;
      ok, p' := FollowPointer(message, p, labels, whole);
      outcome := if ok then More else Refused;
    } else if count == 0 {
      ReadingEnd(message, p, labels, whole);
      outcome := if length > 0 then Complete else Refused;
    } else {
      var ok;
      ok, p', length', labels' := TakeLabel(message, p, count, out, length, labels, whole);
      outcome := if ok then More else Refused;
    }
  }

  /** `DNS_DecodeName`. A NULL message is an empty one. */
  method DecodeName(message: Bytes, name: Bytes, out: array<Byte>) returns (ok: bool)
    modifies out
    ensures ok == Decoded(message, name, out.Length).Some?
    ensures ok ==> Terminated(out[..], Decoded(message, name, out.Length).value)
    ensures !ok && out.Length > 0 ==> out[0] == 0
  {
    ok := false;
    if out.Length == 0 {
      return;
    }
    out[0] := 0;
    var length: nat := 0;
    var p := Position(name, 0, 0);
    ghost var labels: seq<Bytes> := [];
    ghost var whole := Resolve(message, name, 0, MAX_HOPS);
    PrefixedNone(whole);
    var outcome := More;
    while outcome.More?
      invariant outcome.More? ==> Reading(message, p, labels, whole)
      invariant !outcome.Refused? ==> Holds(out, length, labels)
      invariant outcome.Complete? ==> whole == Some(labels) && |labels| > 0
      invariant outcome.Refused? ==> whole.Some? ==> |whole.value| == 0 || !Fits(whole.value, out.Length)
      decreases outcome.More?, MAX_HOPS - p.hops, |p.source| - p.index
    {
      outcome, p, length, labels := DecodeStep(message, p, out, length, labels, whole);
    }
    ok := outcome.Complete?;
    if !ok {
      out[0] := 0;
    }
  }

  // ---------------------------------------------------------------------------
  // DNS_ReadNameField
  // ---------------------------------------------------------------------------

  /** The labels up to the terminating zero and the position behind it. Pointers are not
      looked for: behind the first byte of a name, every byte is a length. */
  function ReadLabels(source: Bytes, i: nat): (r: Option<(seq<Bytes>, nat)>)
    ensures r.Some? ==> i < r.value.1 <= |source| && forall l :: l in r.value.0 ==> |l| > 0
    decreases |source| - i
  {
    if i >= |source| then None
    else if source[i] == 0 then Some(([], i + 1))
    else
      var next := i + 1 + source[i];
      if next > |source| then None
      else
        var rest := ReadLabels(source, next);
        if rest.None? then None else Some(([source[i + 1..next]] + rest.value.0, rest.value.1))
  }

  /** The text of the name field and the number of its bytes. */
  function FieldText(source: Bytes, size: nat): Option<(Bytes, nat)> {
    var r := ReadLabels(source, 0);
    if r.Some? && |r.value.0| > 0 && |Dotted(r.value.0)| < size
    then Some((Dotted(r.value.0), r.value.1)) else None
  }

  /** `whole` is what is read when the labels have been read up to `index`. */
  ghost predicate ReadSoFar(source: Bytes, index: nat, labels: seq<Bytes>, whole: Option<(seq<Bytes>, nat)>) {
    && index <= |source|
    && var rest := ReadLabels(source, index);
       whole == if rest.None? then None else Some((labels + rest.value.0, rest.value.1))
  }

  lemma ReadSoFarLabel(source: Bytes, i: nat, labels: seq<Bytes>, whole: Option<(seq<Bytes>, nat)>)
    requires ReadSoFar(source, i, labels, whole) && i < |source| && source[i] != 0
    ensures i + 1 + source[i] > |source| ==> whole == None
    ensures i + 1 + source[i] <= |source| ==>
      ReadSoFar(source, i + 1 + source[i], labels + [source[i + 1..i + 1 + source[i]]], whole)
  {
    var next := i + 1 + source[i];
    if next <= |source| {
      var rest := ReadLabels(source, next);
      if rest.Some? {
        var l := source[i + 1..next];
        assert labels + ([l] + rest.value.0) == (labels + [l]) + rest.value.0;
      }
    }
  }

  lemma ReadSoFarEnd(source: Bytes, i: nat, labels: seq<Bytes>, whole: Option<(seq<Bytes>, nat)>)
    requires ReadSoFar(source, i, labels, whole)
    ensures i == |source| ==> whole == None
    ensures i < |source| && source[i] == 0 ==> whole == Some((labels, i + 1))
  {
    assert labels + [] == labels;
  }

  /** Text that is too long stays too long. */
  lemma TooLong(source: Bytes, i: nat, labels: seq<Bytes>, whole: Option<(seq<Bytes>, nat)>, size: nat)
    requires ReadSoFar(source, i, labels, whole) && |labels| > 0 && |Dotted(labels)| >= size
    ensures whole.Some? ==> |Dotted(whole.value.0)| >= size
  {
    var rest := ReadLabels(source, i);
    if rest.Some? {
      DottedGrows(labels, rest.value.0);
    }
  }

  /** One round of the loop of `DNS_ReadNameField`. */
  method ReadStep(source: Bytes, index: nat, out: array<Byte>, length: nat,
                  ghost labels: seq<Bytes>, ghost whole: Option<(seq<Bytes>, nat)>)
    returns (ok: bool, length': nat, ghost labels': seq<Bytes>)
    requires ReadSoFar(source, index, labels, whole) && index < |source| && source[index] != 0
    requires length <= out.Length && out[..length] == Dotted(labels)
    requires (length > 0 <==> |labels| > 0) && (length > 0 ==> length < out.Length)
    modifies out
    ensures ok ==> ReadSoFar(source, index + 1 + source[index], labels', whole)
    ensures ok ==> 0 < length' < out.Length && out[..length'] == Dotted(labels') && |labels'| > 0
    ensures !ok ==> whole.Some? ==> |Dotted(whole.value.0)| >= out.Length
  {
    length', labels' := length, labels;
    if length' > 0 {
      out[length'] := DOT;
      length' := length' + 1;
    }
    assert out[..length'] == old(out[..length]) + if length > 0 then [DOT] else [];
    var count := source[index];
    var start := index + 1;
    ReadSoFarLabel(source, index, labels, whole);
    if start + count > |source| {
      return false, length', labels';
    }
    DottedAppend(labels, source[start..start + count]);
    labels' := labels + [source[start..start + count]];
    if length' + count >= out.Length {
      TooLong(source, start + count, labels', whole, out.Length);
      return false, length', labels';
    }
    CopyInto(out, length', source, start, count);
    return true, length' + count, labels';
  }

  /** `DNS_ReadNameField`: the number of bytes of the name field, 0 when it is malformed or
      does not fit. A field that starts with a pointer is skipped and leaves no text. */
  method ReadNameField(source: Bytes, out: array<Byte>) returns (count: nat)
    modifies out
    ensures |source| > 0 && source[0] >= NAME_IS_OFFSET ==>
      count == (if |source| > 2 then 2 else 0) && out[..] == old(out[..])
    ensures |source| == 0 || source[0] < NAME_IS_OFFSET ==>
      match FieldText(source, out.Length)
      case None => count == 0
      case Some(r) => count == r.1 && Terminated(out[..], r.0)
  {
    if |source| == 0 {
      return 0;
    }
    if source[0] >= NAME_IS_OFFSET {
      return if |source| > 2 then 2 else 0;
    }
    var index, length: nat := 0, 0;
    ghost var labels: seq<Bytes> := [];
    ghost var whole := ReadLabels(source, 0);
    ReadSoFarStart(source);
    while index < |source| && source[index] != 0
      invariant index <= |source| && ReadSoFar(source, index, labels, whole)
      invariant length <= out.Length && out[..length] == Dotted(labels)
      invariant (length > 0 <==> |labels| > 0) && (length > 0 ==> length < out.Length)
      invariant index > 0 <==> length > 0
    {
      var ok;
      ok, length, labels := ReadStep(source, index, out, length, labels, whole);
      if !ok {
        return 0;
      }
      index := index + 1 + source[index];
    }
    ReadSoFarEnd(source, index, labels, whole);
    count := 0;
    if index > 0 && index < |source| {
      out[length] := 0;
      count := index + 1;
    }
  }

  lemma ReadSoFarStart(source: Bytes)
    ensures ReadSoFar(source, 0, [], ReadLabels(source, 0))
  {
    var rest := ReadLabels(source, 0);
    assert rest.Some? ==> [] + rest.value.0 == rest.value.0;
  }

  // ---------------------------------------------------------------------------
  // DNS_SkipNameField
  // ---------------------------------------------------------------------------

  /** The position behind the name at `i`; a pointer ends a name. */
  function NameEnd(source: Bytes, i: nat): (r: Option<nat>)
    ensures r.Some? ==> i < r.value <= |source|
    decreases |source| - i
  {
    if i >= |source| then None
    else if source[i] == 0 then Some(i + 1)
    else if source[i] >= NAME_IS_OFFSET then if |source| - i > 2 then Some(i + 2) else None
    else NameEnd(source, i + 1 + source[i])
  }

  /** `DNS_SkipNameField`: the length of the name, 0 when it is malformed or has no label. */
  method SkipNameField(source: Bytes) returns (count: nat)
    ensures var end := NameEnd(source, 0);
            count == if end.Some? && source[0] != 0 then end.value else 0
  {
    count := 0;
    if |source| == 0 {
      return;
    }
    if source[0] >= NAME_IS_OFFSET {
      return if |source| > 2 then 2 else 0;
    }
    var remaining := |source|;
    var index := 0;
    while source[index] != 0 && remaining > 1
      invariant 0 <= index < |source| && remaining == |source| - index
      invariant NameEnd(source, index) == NameEnd(source, 0)
      invariant index > 0 ==> source[0] != 0
      decreases remaining
    {
      if source[index] >= NAME_IS_OFFSET {
        return if remaining > 2 then index + 2 else 0;
      }
      var chunk := source[index] + 1;
      if remaining <= chunk {
        return 0;
      }
      remaining := remaining - chunk;
      index := index + chunk;
    }
    if index > 0 && source[index] == 0 {
      count := index + 1;
    }
  }

  // ---------------------------------------------------------------------------
  // The walkers agree on names without pointers.
  // ---------------------------------------------------------------------------

  ghost predicate At(source: Bytes, i: nat, bytes: Bytes) {
    i + |bytes| <= |source| && source[i..i + |bytes|] == bytes
  }

  ghost predicate IsName(labels: seq<Bytes>) {
    forall l :: l in labels ==> 0 < |l| < NAME_IS_OFFSET
  }

  lemma LabelThenParts(first: Bytes, rest: Bytes, all: Bytes)
    requires 0 < |first| < NAME_IS_OFFSET && |all| == 1 + |first| + |rest|
    ensures all == LabelThen(first, rest)
      <==> all[0] == |first| && all[1..1 + |first|] == first && all[1 + |first|..] == rest
  {
    assert all == [all[0]] + all[1..1 + |first|] + all[1 + |first|..];
  }

  lemma SliceOfSlice(s: Bytes, from: nat, to: nat, i: nat, j: nat)
    requires from <= to <= |s| && i <= j <= to - from
    ensures s[from..to][i..j] == s[from + i..from + j]
  {
    forall k | 0 <= k < j - i
      ensures s[from..to][i..j][k] == s[from + i..from + j][k]
    {
      assert s[from..to][i..j][k] == s[from..to][i + k];
    }
  }

  lemma AtParts(source: Bytes, i: nat, first: Bytes, rest: Bytes)
    requires 0 < |first| < NAME_IS_OFFSET && i + 1 + |first| + |rest| <= |source|
    ensures At(source, i, LabelThen(first, rest))
      <==> source[i] == |first| && source[i + 1..i + 1 + |first|] == first && At(source, i + 1 + |first|, rest)
  {
    var all := source[i..i + 1 + |first| + |rest|];
    LabelThenParts(first, rest, all);
    SliceOfSlice(source, i, i + |all|, 1, 1 + |first|);
    SliceOfSlice(source, i, i + |all|, 1 + |first|, |all|);
  }

  /** The first label of a name in wire form, and the name behind it. */
  lemma FirstLabel(source: Bytes, i: nat, labels: seq<Bytes>)
    requires |labels| > 0 && IsName(labels) && At(source, i, Encoded(labels))
    ensures 0 < |labels[0]| < NAME_IS_OFFSET && IsName(labels[1..])
    ensures i + 1 + |labels[0]| < |source| && source[i] == |labels[0]|
    ensures source[i + 1..i + 1 + |labels[0]|] == labels[0]
    ensures At(source, i + 1 + |labels[0]|, Encoded(labels[1..]))
    ensures |Encoded(labels)| == 1 + |labels[0]| + |Encoded(labels[1..])|
  {
    assert labels[0] in labels;
    var first, rest := labels[0], Encoded(labels[1..]);
    assert Encoded(labels) == LabelThen(first, rest);
    AtParts(source, i, first, rest);
  }

  /** What the walkers find at `i`. */
  ghost predicate Walks(message: Bytes, source: Bytes, i: nat, hops: nat, labels: seq<Bytes>, end: nat)
    requires i <= |source|
  {
    && Resolve(message, source, i, hops) == Some(labels)
    && ReadLabels(source, i) == Some((labels, end))
    && NameEnd(source, i) == Some(end)
  }

  lemma WalkLabel(message: Bytes, source: Bytes, i: nat, hops: nat, first: Bytes, rest: seq<Bytes>, end: nat)
    requires 0 < |first| < NAME_IS_OFFSET
    requires i < |source| && source[i] == |first| && i + 1 + |first| <= |source|
    requires source[i + 1..i + 1 + |first|] == first
    requires Walks(message, source, i + 1 + |first|, hops, rest, end)
    ensures Walks(message, source, i, hops, [first] + rest, end)
  {
  }

  /** All walkers recover the labels and the length of a name in wire form, wherever it is
      and whatever follows. */
  lemma {:induction false} WalkEncoded(message: Bytes, source: Bytes, i: nat, hops: nat, labels: seq<Bytes>)
    requires IsName(labels) && At(source, i, Encoded(labels))
    ensures Walks(message, source, i, hops, labels, i + |Encoded(labels)|)
    decreases |labels|
  {
    if |labels| == 0 {
      assert source[i..i + 1][0] == 0;
    } else {
      var first, rest := labels[0], labels[1..];
      var next, end := i + 1 + |first|, i + |Encoded(labels)|;
      FirstLabel(source, i, labels);
      WalkEncoded(message, source, next, hops, rest);
      assert end == next + |Encoded(rest)| && Walks(message, source, next, hops, rest, end);
      WalkLabel(message, source, i, hops, first, rest, end);
      assert [first] + rest == labels;
    }
  }

  lemma PlainLabel(source: Bytes, i: nat, first: Bytes, rest: seq<Bytes>)
    requires 0 < |first| < NAME_IS_OFFSET && IsName(rest) && At(source, i + 1 + |first|, Encoded(rest))
    requires source[i] == |first| && source[i + 1..i + 1 + |first|] == first
    ensures IsName([first] + rest) && At(source, i, Encoded([first] + rest))
  {
    assert ([first] + rest)[1..] == rest;
    AtParts(source, i, first, Encoded(rest));
  }

  /** A name that is resolved without following a pointer is in wire form. */
  lemma {:induction false} PlainIsEncoded(message: Bytes, source: Bytes, i: nat)
    requires i <= |source| && Resolve(message, source, i, 0).Some?
    ensures At(source, i, Encoded(Resolve(message, source, i, 0).value))
    decreases |source| - i
  {
    if source[i] == 0 {
      assert source[i..i + 1] == [0];
    } else {
      var next := i + 1 + source[i];
      var first, rest := source[i + 1..next], Resolve(message, source, next, 0).value;
      PlainIsEncoded(message, source, next);
      PlainLabel(source, i, first, rest);
    }
  }

  /** When a name is decoded without following a pointer, `DNS_ReadNameField` gives the same
      text with the same destination size, and both other walkers the length of the name. */
  lemma WalkersAgree(message: Bytes, name: Bytes, size: nat)
    requires Decoded(message, name, size).Some? && Resolve(message, name, 0, 0).Some?
    ensures var labels := Resolve(message, name, 0, 0).value;
            && Decoded(message, name, size) == Some(Dotted(labels))
            && FieldText(name, size) == Some((Dotted(labels), |Encoded(labels)|))
            && NameEnd(name, 0) == Some(|Encoded(labels)|)
            && 0 < name[0] < NAME_IS_OFFSET
  {
    PlainIsEncoded(message, name, 0);
    var labels := Resolve(message, name, 0, 0).value;
    WalkEncoded(message, name, 0, MAX_HOPS, labels);
  }

  // ---------------------------------------------------------------------------
  // Compressed names.
  // ---------------------------------------------------------------------------

  /** The labels that lie one behind the other from `i` to `p`. */
  function LabelsFrom(source: Bytes, i: nat, p: nat): Option<seq<Bytes>>
    requires p <= |source|
    decreases p - i
  {
    if i == p then Some([])
    else if i > p || source[i] == 0 || source[i] >= NAME_IS_OFFSET || i + 1 + source[i] > p then None
    else
      var next := i + 1 + source[i];
      Prefixed([source[i + 1..next]], LabelsFrom(source, next, p))
  }

  /** Labels in front of a name are the first labels of a name that ends with it. */
  lemma {:induction false} BehindLabels(message: Bytes, source: Bytes, i: nat, p: nat, hops: nat)
    requires p <= |source| && LabelsFrom(source, i, p).Some?
    ensures i <= p
    ensures Resolve(message, source, i, hops)
         == Prefixed(LabelsFrom(source, i, p).value, Resolve(message, source, p, hops))
    ensures NameEnd(source, i) == NameEnd(source, p)
    decreases p - i
  {
    var rest := Resolve(message, source, p, hops);
    if i == p {
      PrefixedNone(rest);
    } else {
      var next := i + 1 + source[i];
      BehindLabels(message, source, next, p, hops);
      PrefixedTwice([source[i + 1..next]], LabelsFrom(source, next, p).value, rest);
    }
  }

  lemma PrefixedTwice(a: seq<Bytes>, b: seq<Bytes>, rest: Option<seq<Bytes>>)
    ensures Prefixed(a, Prefixed(b, rest)) == Prefixed(a + b, rest)
  {
    assert rest.Some? ==> a + (b + rest.value) == (a + b) + rest.value;
  }

  /** A name of labels and a pointer (section 4.1.4 of RFC 1035), whose low 14 bits are the offset
      of the rest: the walker that skips it needs a byte behind the pointer, and stops there. */
  lemma CompressedName(message: Bytes, source: Bytes, i: nat, p: nat, labels: seq<Bytes>, rest: seq<Bytes>,
                       target: nat, hops: nat)
    requires p + 2 <= |source| && LabelsFrom(source, i, p) == Some(labels) && source[p] >= 192
    requires target == 0x100 * (source[p] as int - 192) + source[p + 1]
    requires IsName(rest) && At(message, target, Encoded(rest)) && hops > 0
    ensures i <= p && Resolve(message, source, i, hops) == Some(labels + rest)
    ensures NameEnd(source, i) == if p + 2 < |source| then Some(p + 2) else None
  {
    WalkEncoded(message, message, target, hops - 1, rest);
    PointerResolved(message, source, p, hops, target, rest);
    BehindLabels(message, source, i, p, hops);
  }

  lemma PointerResolved(message: Bytes, source: Bytes, i: nat, hops: nat, target: nat, rest: seq<Bytes>)
    requires i + 2 <= |source| && source[i] >= NAME_IS_OFFSET && hops > 0
    requires target == 0x100 * (source[i] as int - NAME_IS_OFFSET) + source[i + 1] < |message|
    requires Resolve(message, message, target, hops - 1) == Some(rest)
    ensures Resolve(message, source, i, hops) == Some(rest)
  {
  }

  /** A name that is skipped has two bytes at least, unless it is the root. */
  lemma SkippedBytes(source: Bytes, i: nat)
    requires NameEnd(source, i).Some? && source[i] != 0
    ensures NameEnd(source, i).value >= i + 2
  {
  }
}
