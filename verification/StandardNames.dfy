/**
  * Names as RFC 1035 defines them, and exactly where `DNS_DecodeName` agrees with it.
  */
module StandardNames {
  import opened Words
  import opened DnsNames

  /** Section 2.3.4 of RFC 1035: the longest name, in octets of its wire form. */
  const MAX_NAME := 255

  // ---------------------------------------------------------------------------
  // The reference.
  // ---------------------------------------------------------------------------

  /** The labels of the name at `m[i..]`, in a part of it that begins at `start` (section 4.1.4
      of RFC 1035). Labels have at most 63 octets, length octets from 64 to 191 are reserved,
      and a pointer refers to a prior occurrence: one that begins before the part in which the
      pointer stands. There is no bound on the number of pointers. */
  function StandardFrom(m: Bytes, i: nat, start: nat): (r: Option<seq<Bytes>>)
    requires start <= i <= |m|
    ensures r.Some? ==> forall l :: l in r.value ==> 0 < |l| <= MAX_LABEL
    decreases start, |m| - i
  {
    if i == |m| then None
    else if m[i] >= NAME_IS_OFFSET then
      if |m| - i < 2 then None
      else
        var target := PointerTarget(m[i], m[i + 1]);
        if target >= start then None else StandardFrom(m, target, target)
    else if m[i] > MAX_LABEL then None
    else if m[i] == 0 then Some([])
    else
      var next := i + 1 + m[i];
      if next > |m| then None else Prefixed([m[i + 1..next]], StandardFrom(m, next, start))
  }

  /** The text of the name at `at`, if it is a name, and it fits with its terminator. */
  function StandardText(m: Bytes, at: nat, size: nat): Option<Bytes>
    requires at <= |m|
  {
    var labels := StandardFrom(m, at, at);
    if labels.Some? && |Encoded(labels.value)| <= MAX_NAME && |Dotted(labels.value)| < size
    then Some(Dotted(labels.value)) else None
  }

  // ---------------------------------------------------------------------------
  // What can go wrong.
  // ---------------------------------------------------------------------------

  predicate StandardLabels(labels: seq<Bytes>) {
    forall k :: 0 <= k < |labels| ==> |labels[k]| <= MAX_LABEL
  }

  /** The first `hops` pointers that are followed go backwards. */
  predicate Backwards(m: Bytes, i: nat, start: nat, hops: nat)
    requires start <= i <= |m|
    decreases hops, |m| - i
  {
    if i == |m| || m[i] == 0 then true
    else if m[i] >= NAME_IS_OFFSET then
      if |m| - i < 2 || hops == 0 then true
      else
        var target := PointerTarget(m[i], m[i + 1]);
        target < start && Backwards(m, target, target, hops - 1)
    else
      var next := i + 1 + m[i];
      next > |m| || Backwards(m, next, start, hops)
  }

  /** The number of pointers of a name. */
  function Pointers(m: Bytes, i: nat, start: nat): nat
    requires start <= i <= |m|
    decreases start, |m| - i
  {
    if i == |m| || m[i] == 0 then 0
    else if m[i] >= NAME_IS_OFFSET then
      if |m| - i < 2 then 0
      else
        var target := PointerTarget(m[i], m[i + 1]);
        if target >= start then 0 else 1 + Pointers(m, target, target)
    else
      var next := i + 1 + m[i];
      if next > |m| then 0 else Pointers(m, next, start)
  }

  // ---------------------------------------------------------------------------
  // The labels.
  // ---------------------------------------------------------------------------

  lemma StandardPrefixed(l: Bytes, labels: seq<Bytes>)
    ensures StandardLabels([l] + labels) <==> |l| <= MAX_LABEL && StandardLabels(labels)
  {
    var all := [l] + labels;
    assert all[0] == l;
    assert forall k :: 0 <= k < |labels| ==> all[k + 1] == labels[k];
  }

  /** What the code reads is a name exactly when its labels are short enough and the pointers
      followed go backwards; then the labels are the same. */
  lemma {:induction false} ReadIsStandard(m: Bytes, i: nat, start: nat, hops: nat)
    requires start <= i <= |m| && Resolve(m, m, i, hops).Some?
    ensures var labels := Resolve(m, m, i, hops).value;
            StandardFrom(m, i, start)
            == if StandardLabels(labels) && Backwards(m, i, start, hops) then Some(labels) else None
    decreases hops, |m| - i
  {
    if m[i] >= NAME_IS_OFFSET {
      var target := PointerTarget(m[i], m[i + 1]);
      ReadIsStandard(m, target, target, hops - 1);
    } else if m[i] > 0 {
      var next := i + 1 + m[i];
      ReadIsStandard(m, next, start, hops);
      StandardPrefixed(m[i + 1..next], Resolve(m, m, next, hops).value);
    }
  }

  /** A name is read exactly when its pointers do not exceed the bound. */
  lemma {:induction false} StandardIsRead(m: Bytes, i: nat, start: nat, hops: nat)
    requires start <= i <= |m| && StandardFrom(m, i, start).Some?
    ensures Resolve(m, m, i, hops) == if Pointers(m, i, start) <= hops then StandardFrom(m, i, start) else None
    decreases start, |m| - i
  {
    if m[i] >= NAME_IS_OFFSET {
      var target := PointerTarget(m[i], m[i + 1]);
      if hops > 0 {
        StandardIsRead(m, target, target, hops - 1);
      }
    } else if m[i] > 0 {
      StandardIsRead(m, i + 1 + m[i], start, hops);
    }
  }

  lemma SliceLabel(m: Bytes, at: nat, i: nat, count: nat)
    requires at + i + 1 + count <= |m|
    ensures m[at..][i + 1..i + 1 + count] == m[at + i + 1..at + i + 1 + count]
  {
    assert m[at..] == m[at..|m|];
    SliceOfSlice(m, at, |m|, i + 1, i + 1 + count);
  }

  lemma {:induction false} ResolveSlice(m: Bytes, at: nat, i: nat, hops: nat)
    requires at + i <= |m|
    ensures Resolve(m, m[at..], i, hops) == Resolve(m, m, at + i, hops)
    decreases |m| - i
  {
    var name := m[at..];
    if i < |name| {
      assert name[i] == m[at + i];
      if name[i] >= NAME_IS_OFFSET {
        assert |name| - i >= 2 ==> name[i + 1] == m[at + i + 1];
      } else if name[i] > 0 {
        var next := i + 1 + name[i];
        if next <= |name| {
          SliceLabel(m, at, i, name[i]);
          ResolveSlice(m, at, next, hops);
        }
      }
    }
  }

  // ---------------------------------------------------------------------------
  // The text.
  // ---------------------------------------------------------------------------

  /** What is decoded is the text of a name exactly when it has no label of more than 63 bytes,
      every pointer goes backwards, and the whole name has at most 255 octets. */
  predicate Conforms(m: Bytes, at: nat, labels: seq<Bytes>)
    requires at <= |m| && forall l :: l in labels ==> |l| < NAME_IS_OFFSET
  {
    StandardLabels(labels) && Backwards(m, at, at, MAX_HOPS) && |Encoded(labels)| <= MAX_NAME
  }

  lemma DecodedIsStandard(m: Bytes, at: nat, size: nat)
    requires at <= |m| && Decoded(m, m[at..], size).Some?
    ensures Resolve(m, m, at, MAX_HOPS).Some?
    ensures StandardText(m, at, size)
         == if Conforms(m, at, Resolve(m, m, at, MAX_HOPS).value) then Decoded(m, m[at..], size) else None
  {
    ResolveSlice(m, at, 0, MAX_HOPS);
    ReadIsStandard(m, at, at, MAX_HOPS);
  }

  /** A name is decoded exactly when it has at most 8 pointers, it is not the root, and a single
      label leaves a byte of the destination unused. */
  predicate WithinLimits(m: Bytes, at: nat, size: nat)
    requires at <= |m| && StandardFrom(m, at, at).Some?
  {
    var labels := StandardFrom(m, at, at).value;
    && Pointers(m, at, at) <= MAX_HOPS && |labels| > 0
    && (|labels| == 1 ==> |labels[0]| + 2 <= size)
  }

  lemma StandardIsDecoded(m: Bytes, at: nat, size: nat)
    requires at <= |m| && StandardText(m, at, size).Some?
    ensures Decoded(m, m[at..], size) == if WithinLimits(m, at, size) then StandardText(m, at, size) else None
  {
    ResolveSlice(m, at, 0, MAX_HOPS);
    StandardIsRead(m, at, at, MAX_HOPS);
  }

  /** For every message, offset and destination, `DNS_DecodeName` gives the text that RFC 1035
      gives the name, or refuses what is no name, if and only if what it decodes conforms and
      what it should decode is within its limits. */
  lemma DecodesStandardExactly(m: Bytes, at: nat, size: nat)
    requires at <= |m|
    ensures Decoded(m, m[at..], size).Some? ==> Resolve(m, m, at, MAX_HOPS).Some?
    ensures Decoded(m, m[at..], size) == StandardText(m, at, size)
       <==> && (Decoded(m, m[at..], size).Some? ==> Conforms(m, at, Resolve(m, m, at, MAX_HOPS).value))
            && (StandardText(m, at, size).Some? ==> WithinLimits(m, at, size))
  {
    if Decoded(m, m[at..], size).Some? {
      DecodedIsStandard(m, at, size);
    }
    if StandardText(m, at, size).Some? {
      StandardIsDecoded(m, at, size);
    }
  }

  // ---------------------------------------------------------------------------
  // One name for each difference.
  // ---------------------------------------------------------------------------

  lemma {:induction false} NoPointerFollowed(m: Bytes, i: nat, start: nat)
    requires start <= i <= |m|
    ensures Backwards(m, i, start, 0)
    decreases |m| - i
  {
    if i < |m| && 0 < m[i] < NAME_IS_OFFSET && i + 1 + m[i] <= |m| {
      NoPointerFollowed(m, i + 1 + m[i], start);
    }
  }

  /** A name in wire form is a name by the standard. */
  lemma StandardEncoded(m: Bytes, i: nat, start: nat, labels: seq<Bytes>)
    requires IsName(labels) && StandardLabels(labels) && At(m, i, Encoded(labels)) && start <= i
    ensures StandardFrom(m, i, start) == Some(labels) && Pointers(m, i, start) == 0
  {
    WalkEncoded(m, m, i, 0, labels);
    NoPointerFollowed(m, i, start);
    ReadIsStandard(m, i, start, 0);
    StandardIsRead(m, i, start, 0);
  }

  lemma WholeMessage(labels: seq<Bytes>) returns (m: Bytes)
    requires IsName(labels)
    ensures m == Encoded(labels) && m[0..] == m && At(m, 0, Encoded(labels))
    ensures Resolve(m, m, 0, MAX_HOPS) == Some(labels)
  {
    m := Encoded(labels);
    WalkEncoded(m, m, 0, MAX_HOPS, labels);
  }

  /** A label of more than 63 bytes is decoded. */
  lemma LongLabelDecoded(l: Bytes, size: nat)
    requires MAX_LABEL < |l| < NAME_IS_OFFSET && |l| + 2 <= size
    ensures var m := Encoded([l]); Decoded(m, m[0..], size) == Some(l) && StandardText(m, 0, size) == None
  {
    var m := WholeMessage([l]);
    DecodedIsStandard(m, 0, size);
    assert [l][0] == l && !StandardLabels([l]);
  }

  function Copies(l: Bytes, n: nat): (labels: seq<Bytes>)
    ensures |labels| == n && forall k :: 0 <= k < n ==> labels[k] == l
  {
    if n == 0 then [] else Copies(l, n - 1) + [l]
  }

  lemma {:induction false} CopiesText(l: Bytes, n: nat)
    requires |l| == MAX_LABEL && n > 0
    ensures |Dotted(Copies(l, n))| == 64 * n - 1
    decreases n
  {
    DottedAppend(Copies(l, n - 1), l);
    if n > 1 {
      CopiesText(l, n - 1);
    }
  }

  /** A name of four labels of 63 bytes, or more, has too many octets, and is decoded. */
  lemma LongNameDecoded(l: Bytes, n: nat, size: nat)
    requires |l| == MAX_LABEL && n >= 4 && size >= 64 * n
    ensures IsName(Copies(l, n))
    ensures var m := Encoded(Copies(l, n)); Decoded(m, m[0..], size).Some? && StandardText(m, 0, size) == None
  {
    var labels := Copies(l, n);
    var m := WholeMessage(labels);
    CopiesText(l, n);
    EncodedLength(labels);
    StandardEncoded(m, 0, 0, labels);
  }

  /** A single label that leaves no byte of the destination unused is refused. */
  lemma ExactRoomRefused(l: Bytes)
    requires 0 < |l| <= MAX_LABEL
    ensures var m := Encoded([l]);
            Decoded(m, m[0..], |l| + 1) == None && StandardText(m, 0, |l| + 1) == Some(l)
  {
    var m := WholeMessage([l]);
    assert [l][1..] == [];
    StandardEncoded(m, 0, 0, [l]);
  }

  /** The root is refused. */
  lemma RootRefused(size: nat)
    requires size > 0
    ensures Decoded([0], [0][0..], size) == None && StandardText([0], 0, size) == Some([])
  {
  }

  /** A name that is a pointer to what follows it. */
  const FORWARD: Bytes := [0xC0, 2, 1, 97, 0]

  /** A pointer that goes forward is followed. */
  lemma ForwardPointerDecoded(size: nat)
    requires size >= 3
    ensures Decoded(FORWARD, FORWARD[0..], size) == Some([97]) && StandardText(FORWARD, 0, size) == None
  {
    var m := FORWARD;
    var labels: seq<Bytes> := [[97]];
    assert labels[1..] == [];
    assert m[2..5] == Encoded(labels);
    WalkEncoded(m, m, 2, MAX_HOPS - 1, labels);
    ResolveSlice(m, 0, 0, MAX_HOPS);
  }

  /** The name "a", and nine pointers, each one to the name in front of it. */
  const CHAINED: Bytes :=
    [1, 97, 0, 0xC0, 0, 0xC0, 3, 0xC0, 5, 0xC0, 7, 0xC0, 9, 0xC0, 11, 0xC0, 13, 0xC0, 15, 0xC0, 17]

  ghost predicate IsChained(m: Bytes) {
    && |m| == 21 && m[0] == 1 && m[1] == 97 && m[2] == 0 && m[3] == 0xC0 && m[4] == 0
    && forall k :: 1 <= k < 9 ==> m[3 + 2 * k] == 0xC0 && m[4 + 2 * k] == 2 * k + 1
  }

  lemma {:induction false} ChainedPointer(m: Bytes, k: nat)
    requires IsChained(m) && k < 9
    ensures StandardFrom(m, 3 + 2 * k, 3 + 2 * k) == Some([[97]]) && Pointers(m, 3 + 2 * k, 3 + 2 * k) == k + 1
    decreases k
  {
    if k == 0 {
      var labels: seq<Bytes> := [[97]];
      assert labels[1..] == [];
      assert m[0..3] == Encoded(labels);
      StandardEncoded(m, 0, 0, labels);
    } else {
      ChainedPointer(m, k - 1);
      assert PointerTarget(m[3 + 2 * k], m[4 + 2 * k]) == 3 + 2 * (k - 1);
    }
  }

  lemma ChainedText(m: Bytes, size: nat)
    requires IsChained(m) && 2 <= size
    ensures Decoded(m, m[19..], size) == None && StandardText(m, 19, size) == Some([97])
  {
    ChainedPointer(m, 8);
    EncodedLength([[97]]);
    StandardIsDecoded(m, 19, size);
  }

  /** A name behind nine pointers that all go backwards is refused. */
  lemma ManyPointersRefused(size: nat)
    requires 2 <= size
    ensures Decoded(CHAINED, CHAINED[19..], size) == None && StandardText(CHAINED, 19, size) == Some([97])
  {
    ChainedText(CHAINED, size);
  }

  // ---------------------------------------------------------------------------
  // The destinations in use.
  // ---------------------------------------------------------------------------

  lemma {:induction false} EncodedAppend(labels: seq<Bytes>, l: Bytes)
    requires |l| < NAME_IS_OFFSET && forall k :: k in labels ==> |k| < NAME_IS_OFFSET
    ensures |Encoded(labels + [l])| == |Encoded(labels)| + 1 + |l|
    decreases |labels|
  {
    if |labels| == 0 {
      assert (labels + [l])[1..] == [];
    } else {
      EncodedAppend(labels[1..], l);
      assert (labels + [l])[1..] == labels[1..] + [l];
    }
  }

  /** A name has two octets more than its text. */
  lemma {:induction false} EncodedLength(labels: seq<Bytes>)
    requires |labels| > 0 && forall k :: k in labels ==> |k| < NAME_IS_OFFSET
    ensures |Encoded(labels)| == |Dotted(labels)| + 2
    decreases |labels|
  {
    var k := |labels| - 1;
    assert labels[..k] + [labels[k]] == labels;
    EncodedAppend(labels[..k], labels[k]);
    if k > 0 {
      EncodedLength(labels[..k]);
    }
  }

  /** The destinations of 254 bytes that `parseDNSAnswer` uses have no room for a name that is
      too long, so that only labels and pointers can make what is decoded no name. */
  lemma NoLongNameInUse(m: Bytes, at: nat, size: nat)
    requires at <= |m| && Decoded(m, m[at..], size).Some? && size <= MAX_NAME - 1
    ensures Resolve(m, m, at, MAX_HOPS).Some?
    ensures var labels := Resolve(m, m, at, MAX_HOPS).value;
            Conforms(m, at, labels) <==> StandardLabels(labels) && Backwards(m, at, at, MAX_HOPS)
  {
    ResolveSlice(m, at, 0, MAX_HOPS);
    EncodedLength(Resolve(m, m, at, MAX_HOPS).value);
  }
}
