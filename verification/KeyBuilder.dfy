/** How the switch lays out a match key: it sorts the fields by how they are matched,
    concatenates them, and applies the masks of the P4 program. */
module KeyBuilder {
  import opened Bits
  import opened Buffers
  import opened FieldBits
  import opened MatchKeys

  /** The headers of a packet: whether each is valid, and its fields' buffers. */
  datatype HeaderValue = HeaderValue(valid: bool, fields: seq<seq<Byte>>)

  type Phv = seq<HeaderValue>

  ghost predicate InPacket(f: KeyField, phv: Phv) {
    f.header < |phv| &&
    (f.mtype != VALID ==> f.offset < |phv[f.header].fields| && |phv[f.header].fields[f.offset]| == NBytes(f.nbits))
  }

  /** What a packet has for a field of the key.  Fields of invalid headers count as 0. */
  function FieldBytes(f: KeyField, phv: Phv): (r: seq<Byte>)
    requires InPacket(f, phv) && FieldOk(f)
    ensures |r| == NBytes(f.nbits)
  {
    var h := phv[f.header];
    if f.mtype == VALID then [if h.valid then 0x01 else 0x00]
    else if h.valid then h.fields[f.offset]
    else seq(NBytes(f.nbits), _ => 0)
  }

  /** What a field adds to the key is told from the packet alone. */
  lemma FieldBytesAre(f: KeyField, phv: Phv)
    requires InPacket(f, phv) && FieldOk(f)
    ensures var r, h := FieldBytes(f, phv), phv[f.header];
            && (f.mtype == VALID && h.valid ==> r == [0x01])
            && (f.mtype == VALID && !h.valid ==> r == [0x00])
            && (f.mtype != VALID && h.valid ==> r == h.fields[f.offset])
            && (f.mtype != VALID && !h.valid ==> |r| == NBytes(f.nbits) && forall k | 0 <= k < |r| :: r[k] == 0)
  {
  }

  predicate FieldOk(f: KeyField) {
    f.nbits > 0 && (f.mtype == VALID ==> f.nbits == 8)
  }

  // ----- the arrangement of a key -----

  /** Fields and their masks in the order of the program, and the order of the switch. */
  datatype Layout = Layout(fields: seq<KeyField>, masks: seq<seq<Byte>>, order: seq<nat>) {
    ghost predicate Valid() {
      && |masks| == |fields|
      && (forall i | 0 <= i < |fields| :: FieldOk(fields[i]) && |masks[i]| == NBytes(fields[i].nbits))
      && IsOrder(order, |fields|)
    }

    /** One part for each field, of its size. */
    ghost predicate Parts(parts: seq<seq<Byte>>) {
      |parts| == |fields| && forall i | 0 <= i < |fields| :: |parts[i]| == NBytes(fields[i].nbits)
    }

    /** The parts as the switch concatenates them. */
    function Join(parts: seq<seq<Byte>>): seq<Byte>
      requires Valid() && |parts| == |fields|
    {
      Flat(Ordered(parts, order))
    }

    ghost predicate Covers(phv: Phv) {
      forall i | 0 <= i < |fields| :: InPacket(fields[i], phv)
    }

    function Values(phv: Phv): (parts: seq<seq<Byte>>)
      requires Valid() && Covers(phv)
      ensures Parts(parts) && forall i | 0 <= i < |fields| :: parts[i] == FieldBytes(fields[i], phv)
    {
      seq(|fields|, i requires 0 <= i < |fields| => FieldBytes(fields[i], phv))
    }

    /** The key of a packet. */
    function Key(phv: Phv): seq<Byte>
      requires Valid() && Covers(phv)
    {
      JoinAlike(Values(phv), masks);
      And(Join(Values(phv)), Join(masks))
    }

    lemma JoinAlike(p: seq<seq<Byte>>, q: seq<seq<Byte>>)
      requires Valid() && Parts(p) && Parts(q)
      ensures |Join(p)| == |Join(q)| && (Join(p) == Join(q) <==> p == q)
    {
      hide Flat;
      FlatAlike(Ordered(p, order), Ordered(q, order));
      OrderedInjective(p, q, order);
    }

    lemma JoinAnd(p: seq<seq<Byte>>, m: seq<seq<Byte>>)
      requires Valid() && Parts(p) && Parts(m)
      ensures |Join(p)| == |Join(m)| && And(Join(p), Join(m)) == Join(AndParts(p, m))
    {
      hide Flat, And;
      AndFlat(Ordered(p, order), Ordered(m, order));
      assert AndParts(Ordered(p, order), Ordered(m, order)) == Ordered(AndParts(p, m), order);
    }
  }

  /** The fields are sorted by how they are matched, then as in the program. */
  predicate Before(fields: seq<KeyField>, i: nat, j: nat)
    requires i < |fields| && j < |fields|
  {
    var ti, tj := Rank(fields[i].mtype), Rank(fields[j].mtype);
    if ti == tj then i < j else ti < tj
  }

  ghost predicate Sorted(fields: seq<KeyField>, order: seq<nat>) {
    && (forall k | 0 <= k < |order| :: order[k] < |fields|)
    && (forall k, l | 0 <= k < l < |order| :: Before(fields, order[k], order[l]))
  }

  /** Validity comes first, then exact, LPM and ternary fields; fields of a kind keep the
      order of the program. */
  lemma KindsInOrder(fields: seq<KeyField>, order: seq<nat>, k: nat, l: nat)
    requires Sorted(fields, order) && k < l < |order|
    ensures var s, t := fields[order[k]].mtype, fields[order[l]].mtype;
            && (t == VALID ==> s == VALID) && (t == EXACT ==> s in {VALID, EXACT})
            && (t == LPM ==> s in {VALID, EXACT, LPM}) && (s == t ==> order[k] < order[l])
  {
    assert Before(fields, order[k], order[l]);
  }

  /** The indices of the fields, sorted. */
  method Sort(fields: seq<KeyField>) returns (order: seq<nat>)
    ensures Sorted(fields, order) && IsOrder(order, |fields|)
  {
    order := [];
    for i := 0 to |fields|
      invariant Sorted(fields, order) && IsOrder(order, i)
    {
      order := InsertIndex(fields, order, i);
    }
  }

  method InsertIndex(fields: seq<KeyField>, order: seq<nat>, i: nat) returns (r: seq<nat>)
    requires i < |fields| && Sorted(fields, order) && IsOrder(order, i)
    ensures Sorted(fields, r) && IsOrder(r, i + 1)
  {
    var p := 0;
    while p < |order| && Rank(fields[order[p]].mtype) <= Rank(fields[i].mtype)
      invariant p <= |order|
      invariant forall k | 0 <= k < p :: Before(fields, order[k], i)
    {
      p := p + 1;
    }
    r := InsertAt(order, p, i);
    InsertIsOrder(order, p, i);
    InsertSorted(fields, order, p, i);
  }

  function InsertAt(order: seq<nat>, p: nat, i: nat): (r: seq<nat>)
    requires p <= |order|
    ensures |r| == |order| + 1
    ensures forall k | 0 <= k < |r| :: r[k] == if k < p then order[k] else if k == p then i else order[k - 1]
  {
    order[..p] + [i] + order[p..]
  }

  lemma InsertIsOrder(order: seq<nat>, p: nat, i: nat)
    requires IsOrder(order, i) && p <= i
    ensures IsOrder(InsertAt(order, p, i), i + 1)
  {
    var r := InsertAt(order, p, i);
    forall j | 0 <= j < i + 1 ensures j in r {
      if j < i {
        assert j in order;
        var k :| 0 <= k < |order| && order[k] == j;
        assert r[if k < p then k else k + 1] == j;
      } else {
        assert r[p] == i;
      }
    }
  }

  lemma InsertSorted(fields: seq<KeyField>, order: seq<nat>, p: nat, i: nat)
    requires i < |fields| && Sorted(fields, order) && p <= |order|
    requires forall k | 0 <= k < p :: Before(fields, order[k], i)
    requires p < |order| ==> Before(fields, i, order[p])
    ensures Sorted(fields, InsertAt(order, p, i))
  {
    forall k | p <= k < |order| ensures Before(fields, i, order[k]) {
      if k > p {
        assert Before(fields, order[p], order[k]);
      }
    }
  }

  /** `key_mapping`, written in the order of its values. */
  method InvertOrder(order: seq<nat>) returns (mapping: seq<nat>)
    requires IsOrder(order, |order|)
    ensures |mapping| == |order|
    ensures forall k | 0 <= k < |order| :: mapping[order[k]] == k
    ensures forall i | 0 <= i < |order| :: mapping[i] < |order| && order[mapping[i]] == i
  {
    mapping := seq(|order|, _ => 0);
    for m := 0 to |order|
      invariant |mapping| == |order|
      invariant forall l | 0 <= l < m :: mapping[order[order[l]]] == order[l]
    {
      var idx := order[m];
      mapping := mapping[order[idx] := idx];
    }
    forall k | 0 <= k < |order| ensures mapping[order[k]] == k {
      assert k in order;
      var l :| 0 <= l < |order| && order[l] == k;
    }
    forall i | 0 <= i < |order| ensures mapping[i] < |order| && order[mapping[i]] == i {
      assert i in order;
      var k :| 0 <= k < |order| && order[k] == i;
    }
  }

  /** Where each of the sorted fields starts. */
  method Offsets(input: seq<KeyField>, ghost parts: seq<seq<Byte>>) returns (offsets: seq<nat>)
    requires |parts| == |input| && forall i | 0 <= i < |input| :: |parts[i]| == NBytes(input[i].nbits)
    ensures |offsets| == |input| && forall i | 0 <= i < |input| :: offsets[i] == Start(parts, i)
  {
    hide NBytes;
    offsets := [];
    var curr := 0;
    assert parts[..0] == [];
    for i := 0 to |input|
      invariant curr == Start(parts, i)
      invariant |offsets| == i && forall k | 0 <= k < i :: offsets[k] == Start(parts, k)
    {
      offsets := offsets + [curr];
      StartStep(parts, i);
      curr := curr + NBytes(input[i].nbits);
    }
  }

  /** Part `i` is in place in a buffer for all parts. */
  ghost predicate InPlace(parts: seq<seq<Byte>>, buffer: seq<Byte>, i: nat)
    requires i < |parts|
  {
    var o := Start(parts, i);
    o + |parts[i]| <= |buffer| && buffer[o..o + |parts[i]|] == parts[i]
  }

  lemma {:induction false} AllInPlace(parts: seq<seq<Byte>>, buffer: seq<Byte>, n: nat)
    requires n <= |parts| && |buffer| == |Flat(parts)|
    requires forall i | 0 <= i < n :: InPlace(parts, buffer, i)
    ensures Start(parts, n) <= |buffer| && buffer[..Start(parts, n)] == Flat(parts[..n])
  {
    StartMonotonic(parts, n, n);
    if n > 0 {
      AllInPlace(parts, buffer, n - 1);
      assert InPlace(parts, buffer, n - 1);
      StartStep(parts, n - 1);
      FlatSnoc(parts[..n - 1], parts[n - 1]);
      assert parts[..n] == parts[..n - 1] + [parts[n - 1]];
    }
  }

  /** Copies one part into place and leaves the others alone. */
  method PlacePart(ghost parts: seq<seq<Byte>>, ghost k: nat, part: seq<Byte>, buffer: array<Byte>, offset: nat)
    requires buffer.Length == |Flat(parts)| && k < |parts| && part == parts[k] && offset == Start(parts, k)
    modifies buffer
    ensures InPlace(parts, buffer[..], k)
    ensures forall l | 0 <= l < |parts| && old(InPlace(parts, buffer[..], l)) :: InPlace(parts, buffer[..], l)
  {
    hide Start, Flat;
    PartAt(parts, k);
    CopyAt(part, buffer, offset);
    forall l | 0 <= l < |parts| && l != k && old(InPlace(parts, buffer[..], l)) ensures InPlace(parts, buffer[..], l) {
      StartStep(parts, k);
      StartStep(parts, l);
      if l < k {
        StartMonotonic(parts, l + 1, k);
      } else {
        StartMonotonic(parts, k + 1, l);
      }
    }
  }

  lemma WholeFlat(parts: seq<seq<Byte>>)
    ensures Start(parts, |parts|) == |Flat(parts)| && parts[..|parts|] == parts
  {
    assert parts[..|parts|] == parts;
  }

  /** Reordering numbers keeps their sum. */
  lemma {:induction false} OrderedSum(sizes: seq<nat>, order: seq<nat>)
    requires IsOrder(order, |sizes|)
    ensures Sum(Ordered(sizes, order)) == Sum(sizes)
    decreases |sizes|
  {
    hide Sum, IsOrder;
    if sizes == [] {
      assert Ordered(sizes, order) == sizes by {
        OrderBounds(order, 0);
      }
    } else {
      var n := |sizes| - 1;
      var p := WithoutLast(order, n);
      var order', rest := order[..p] + order[p + 1..], sizes[..n];
      OrderedSum(rest, order');
      SumSnoc(rest, sizes[n]);
      assert sizes == rest + [sizes[n]];
      OrderedSplit(sizes, order, p);
      var before, after := Ordered(rest, order[..p]), Ordered(rest, order[p + 1..]);
      SumConcat(before, after);
      SumConcat(before + [sizes[n]], after);
      SumSnoc(before, sizes[n]);
    }
  }

  function Sizes(parts: seq<seq<Byte>>): (r: seq<nat>)
    ensures |r| == |parts| && forall i | 0 <= i < |parts| :: r[i] == |parts[i]|
  {
    seq(|parts|, i requires 0 <= i < |parts| => |parts[i]|)
  }

  lemma {:induction false} FlatSize(parts: seq<seq<Byte>>)
    ensures |Flat(parts)| == Sum(Sizes(parts))
  {
    if parts != [] {
      FlatSize(parts[1..]);
      assert Sizes(parts)[1..] == Sizes(parts[1..]);
    }
  }

  /** Reordering the parts keeps their total size. */
  lemma OrderedSize(parts: seq<seq<Byte>>, order: seq<nat>)
    requires IsOrder(order, |parts|)
    ensures |Flat(Ordered(parts, order))| == |Flat(parts)|
  {
    hide Sum, Flat;
    FlatSize(parts);
    FlatSize(Ordered(parts, order));
    OrderedSum(Sizes(parts), order);
    assert Sizes(Ordered(parts, order)) == Ordered(Sizes(parts), order);
  }

  lemma OrderedSplit<T>(parts: seq<T>, order: seq<nat>, p: nat)
    requires |order| == |parts| && p < |order| && order[p] == |parts| - 1
    requires forall k | 0 <= k < |order| && k != p :: order[k] < |parts| - 1
    ensures var rest := parts[..|parts| - 1];
            && Ordered(rest, order[..p] + order[p + 1..]) == Ordered(rest, order[..p]) + Ordered(rest, order[p + 1..])
            && Ordered(parts, order) ==
               (Ordered(rest, order[..p]) + [parts[|parts| - 1]]) + Ordered(rest, order[p + 1..])
  {
  }

  lemma OrderBounds(order: seq<nat>, n: nat)
    requires IsOrder(order, n)
    ensures |order| == n && forall k | 0 <= k < n :: order[k] < n
  {
  }

  /** Taking the largest index out of an order leaves an order. */
  lemma WithoutLast(order: seq<nat>, n: nat) returns (p: nat)
    requires IsOrder(order, n + 1)
    ensures p < |order| == n + 1 && order[p] == n && IsOrder(order[..p] + order[p + 1..], n)
    ensures forall k | 0 <= k < |order| && k != p :: order[k] < n
  {
    assert n in order;
    p :| p < |order| && order[p] == n;
    var r := order[..p] + order[p + 1..];
    forall j | 0 <= j < n ensures j in r {
      StillIn(order, p, j);
    }
    assert forall k | 0 <= k < n :: r[k] == order[if k < p then k else k + 1];
  }

  lemma StillIn(order: seq<nat>, p: nat, j: nat)
    requires p < |order| && j in order && order[p] != j
    ensures j in order[..p] + order[p + 1..]
  {
    var k :| 0 <= k < |order| && order[k] == j;
    assert (order[..p] + order[p + 1..])[if k < p then k else k - 1] == j;
  }

  /** `order` sorts the fields, `mapping` is its inverse, `input` and `starts` are the
      sorted fields and where each field starts among them. */
  ghost predicate Arranged(fields: seq<KeyField>, masks: seq<seq<Byte>>, order: seq<nat>, mapping: seq<nat>,
                           input: seq<KeyField>, starts: seq<nat>)
  {
    var n := |fields|;
    && |masks| == n && IsOrder(order, n) && Sorted(fields, order)
    && input == Ordered(fields, order)
    && |mapping| == n && |starts| == n
    && (forall k | 0 <= k < n :: mapping[order[k]] == k)
    && (forall i | 0 <= i < n :: mapping[i] < n && order[mapping[i]] == i)
    && (forall i | 0 <= i < n :: starts[i] == Start(Ordered(masks, order), mapping[i]))
  }

  /** The order of the switch, its inverse, the sorted fields and where they start. */
  method Arrange(input: seq<KeyField>, ghost masks: seq<seq<Byte>>)
    returns (order: seq<nat>, mapping: seq<nat>, newInput: seq<KeyField>, starts: seq<nat>)
    requires |masks| == |input| && forall i | 0 <= i < |input| :: |masks[i]| == NBytes(input[i].nbits)
    ensures Arranged(input, masks, order, mapping, newInput, starts)
  {
    hide Start, NBytes, Before;
    order := Sort(input);
    mapping := InvertOrder(order);
    newInput := [];
    for k := 0 to |order|
      invariant newInput == Ordered(input, order)[..k]
    {
      newInput := newInput + [input[order[k]]];
    }
    var offsets := Offsets(newInput, Ordered(masks, order));
    starts := [];
    for i := 0 to |mapping|
      invariant |starts| == i && forall k | 0 <= k < i :: starts[k] == offsets[mapping[k]]
    {
      starts := starts + [offsets[mapping[i]]];
    }
  }

  /** The masks of the fields, at the offsets of the fields. */
  method BigMask(ghost fields: seq<KeyField>, masks: seq<seq<Byte>>, ghost order: seq<nat>, ghost mapping: seq<nat>,
                 ghost input: seq<KeyField>, offsets: seq<nat>, size: nat)
    returns (mask: seq<Byte>)
    requires Arranged(fields, masks, order, mapping, input, offsets) && size == |Flat(masks)|
    ensures IsOrder(order, |masks|) && mask == Flat(Ordered(masks, order))
  {
    hide Start, Flat, InPlace, Before;
    OrderedSize(masks, order);
    var buffer := new Byte[size](_ => 0);
    ghost var parts := Ordered(masks, order);
    for i := 0 to |masks|
      invariant forall k | 0 <= k < i :: InPlace(parts, buffer[..], mapping[k])
    {
      PlacePart(parts, mapping[i], masks[i], buffer, offsets[i]);
    }
    forall k | 0 <= k < |parts| ensures InPlace(parts, buffer[..], k) {
      assert InPlace(parts, buffer[..], mapping[order[k]]);
    }
    AllInPlace(parts, buffer[..], |parts|);
    WholeFlat(parts);
    mask := buffer[..];
  }

  class MatchKeyBuilder {
    var keyInput: seq<KeyField>
    var nbytesKey: nat
    var hasBigMask: bool
    var bigMask: seq<Byte>
    var keyMapping: seq<nat>
    var invMapping: seq<nat>
    var keyOffsets: seq<nat>
    var built: bool
    var masks: seq<seq<Byte>>
    /** The fields in the order in which they were pushed. */
    ghost var fields: seq<KeyField>

    ghost predicate Valid()
      reads this
    {
      && |masks| == |fields|
      && (forall i | 0 <= i < |fields| :: FieldOk(fields[i]) && |masks[i]| == NBytes(fields[i].nbits))
      && (!hasBigMask ==> forall i | 0 <= i < |masks| :: masks[i] == Full(|masks[i]|))
      && nbytesKey == |Flat(masks)|
      && (if built then Built() else keyInput == fields)
    }

    ghost function TheLayout(): Layout
      reads this
    {
      Layout(fields, masks, invMapping)
    }

    /** `key_mapping` and `inv_mapping` are inverses, and offsets and mask are those of
        the parts in their new places. */
    ghost predicate Built()
      reads this
    {
      && TheLayout().Valid()
      && Arranged(fields, masks, invMapping, keyMapping, keyInput, keyOffsets)
      && bigMask == TheLayout().Join(masks)
    }

    constructor ()
      ensures Valid() && !built && fields == []
    {
      keyInput, nbytesKey, hasBigMask, bigMask := [], 0, false, [];
      keyMapping, invMapping, keyOffsets, built, masks := [], [], [], false, [];
      fields := [];
    }

    method PushBack(input: KeyField, mask: seq<Byte>)
      requires Valid() && !built && FieldOk(input) && |mask| == NBytes(input.nbits)
      requires hasBigMask || mask == Full(|mask|)
      modifies this
      ensures Valid() && !built && hasBigMask == old(hasBigMask)
      ensures fields == old(fields) + [input] && masks == old(masks) + [mask]
    {
      hide Flat, Full, NBytes, Arranged, Layout.Valid;
      FlatSnoc(masks, mask);
      keyInput := keyInput + [input];
      nbytesKey := nbytesKey + NBytes(input.nbits);
      masks := masks + [mask];
      fields := fields + [input];
    }

    method PushBackField(header: nat, offset: nat, nbits: nat, mtype: MatchType)
      requires Valid() && !built && nbits > 0 && mtype != VALID
      modifies this
      ensures Valid() && !built
      ensures fields == old(fields) + [KeyField(header, offset, mtype, nbits)]
      ensures masks == old(masks) + [Full(NBytes(nbits))]
    {
      PushBack(KeyField(header, offset, mtype, nbits), Full(NBytes(nbits)));
    }

    method PushBackMaskedField(header: nat, offset: nat, nbits: nat, mask: seq<Byte>, mtype: MatchType)
      requires Valid() && !built && nbits > 0 && mtype != VALID && |mask| == NBytes(nbits)
      modifies this
      ensures Valid() && !built
      ensures fields == old(fields) + [KeyField(header, offset, mtype, nbits)] && masks == old(masks) + [mask]
    {
      hasBigMask := true;
      PushBack(KeyField(header, offset, mtype, nbits), mask);
    }

    method PushBackValidHeader(header: nat)
      requires Valid() && !built
      modifies this
      ensures Valid() && !built
      ensures fields == old(fields) + [KeyField(header, 0, VALID, 8)] && masks == old(masks) + [Full(1)]
    {
      PushBack(KeyField(header, 0, VALID, 8), Full(1));
    }

    /** `build`. */
    method Build()
      requires Valid()
      modifies this
      ensures Valid() && built && fields == old(fields) && masks == old(masks) && hasBigMask == old(hasBigMask)
    {
      hide Flat, NBytes, Arranged, IsOrder;
      if built {
        return;
      }
      var order, mapping, newInput, starts := Arrange(keyInput, masks);
      bigMask := BigMask(fields, masks, order, mapping, newInput, starts, nbytesKey);
      keyInput, keyMapping, invMapping, keyOffsets := newInput, mapping, order, starts;
      built := true;
    }

    /** `operator()`: the key of a packet. */
    method BuildKey(phv: Phv) returns (key: seq<Byte>)
      requires Valid() && built && TheLayout().Covers(phv)
      ensures key == TheLayout().Key(phv)
    {
      hide Flat, Arranged, FieldBytes;
      ghost var l := TheLayout();
      InputIsOrdered();
      ghost var parts := Ordered(l.Values(phv), l.order);
      key := [];
      FlatNone();
      assert parts[..0] == [];
      for k := 0 to |keyInput|
        invariant key == Flat(parts[..k])
      {
        FlatSnoc(parts[..k], parts[k]);
        assert parts[..k + 1] == parts[..k] + [parts[k]];
        var f := keyInput[k];
        var header := phv[f.header];
        FieldBytesAre(f, phv);
        var bytes;
        if f.mtype == VALID {
          bytes := [if header.valid then 0x01 else 0x00];
        } else if header.valid {
          bytes := header.fields[f.offset];
        } else {
          bytes := seq(NBytes(f.nbits), _ => 0);
        }
        assert bytes == FieldBytes(f, phv);
        key := key + bytes;
      }
      assert parts[..|parts|] == parts;
      l.JoinAlike(l.Values(phv), masks);
      key := ApplyBigMask(key);
    }

    /** What the key of a packet holds at the offset of field `i`: 01 or 00 for whether a
        header is valid, the field's bytes under its mask if its header is, and else zeros. */
    lemma KeyHolds(phv: Phv, i: nat)
      requires Valid() && built && TheLayout().Covers(phv) && i < |fields|
      ensures var key, at, f := TheLayout().Key(phv), keyOffsets[i], fields[i];
              && at + |masks[i]| <= |key| && |masks[i]| == NBytes(f.nbits)
              && var r, h := key[at..at + |masks[i]|], phv[f.header];
                 && (f.mtype == VALID ==> r == [(if h.valid then 0x01 else 0x00) & masks[i][0]])
                 && (f.mtype != VALID && h.valid ==> r == And(h.fields[f.offset], masks[i]))
                 && (f.mtype != VALID && !h.valid ==> forall k | 0 <= k < |r| :: r[k] == 0)
    {
      hide *;
      PlaceOf(i);
      PartOfKey(TheLayout(), phv, keyMapping[i]);
      MaskedBytesAre(fields[i], phv, masks[i]);
    }

    /** Where field `i` is in the order of the switch, and where it starts. */
    lemma PlaceOf(i: nat)
      requires Valid() && built && i < |fields|
      ensures TheLayout().Valid() && TheLayout().fields == fields && TheLayout().masks == masks
      ensures |masks| == |keyMapping| == |keyOffsets| == |fields| == |TheLayout().order|
      ensures FieldOk(fields[i]) && |masks[i]| == NBytes(fields[i].nbits)
      ensures keyMapping[i] < |fields| && TheLayout().order[keyMapping[i]] == i
      ensures keyOffsets[i] == Start(Ordered(masks, TheLayout().order), keyMapping[i])
    {
      hide Sorted, Start, Flat;
    }

    lemma InputIsOrdered()
      requires Valid() && built
      ensures keyInput == Ordered(fields, invMapping)
    {
    }

    /** `apply_big_mask`. */
    method ApplyBigMask(key: seq<Byte>) returns (r: seq<Byte>)
      requires Valid() && built && |key| == |TheLayout().Join(masks)|
      ensures r == And(key, TheLayout().Join(masks))
    {
      if hasBigMask {
        r := ApplyMask(key, bigMask);
      } else {
        FlatFull(Ordered(masks, invMapping));
        AndFull(key);
        r := key;
      }
    }

    /** `match_params_sanity_check`. */
    method SanityCheck(params: seq<Param>) returns (ok: bool)
      requires Valid() && built
      ensures ok <==> AllSane(params, fields)
    {
      hide Sane, Flat;
      InputIsOrdered();
      if |params| != |keyInput| {
        return false;
      }
      for i := 0 to |invMapping|
        invariant forall k | 0 <= k < i :: Sane(params[invMapping[k]], fields[invMapping[k]])
      {
        var param, f := params[invMapping[i]], keyInput[i];
        SaneIff(param, f);
        if param.mtype != f.mtype || |param.key| != NBytes(f.nbits) {
          return false;
        }
        if param.mtype == LPM && !(0 <= param.prefixLength <= f.nbits) {
          return false;
        }
        if param.mtype == TERNARY && |param.mask| != NBytes(f.nbits) {
          return false;
        }
      }
      forall j | 0 <= j < |fields| ensures Sane(params[j], fields[j]) {
        assert j in invMapping;
      }
      ok := true;
    }
  }

  /** The part of a packet's key that has place `k` in the order of the switch. */
  lemma PartOfKey(l: Layout, phv: Phv, k: nat)
    requires l.Valid() && l.Covers(phv) && k < |l.order|
    ensures var i, at, key := l.order[k], Start(Ordered(l.masks, l.order), k), l.Key(phv);
            && InPacket(l.fields[i], phv) && FieldOk(l.fields[i]) && |l.masks[i]| == NBytes(l.fields[i].nbits)
            && at + |l.masks[i]| <= |key|
            && key[at..at + |l.masks[i]|] == And(FieldBytes(l.fields[i], phv), l.masks[i])
  {
    hide Flat, FieldBytes, Start, And;
    var values := l.Values(phv);
    var parts := AndParts(values, l.masks);
    l.JoinAnd(values, l.masks);
    SameStart(Ordered(parts, l.order), Ordered(l.masks, l.order), k);
    PartAt(Ordered(parts, l.order), k);
  }

  lemma MaskedBytesAre(f: KeyField, phv: Phv, mask: seq<Byte>)
    requires InPacket(f, phv) && FieldOk(f) && |mask| == NBytes(f.nbits)
    ensures var r, h := And(FieldBytes(f, phv), mask), phv[f.header];
            && (f.mtype == VALID ==> r == [(if h.valid then 0x01 else 0x00) & mask[0]])
            && (f.mtype != VALID && h.valid ==> r == And(h.fields[f.offset], mask))
            && (f.mtype != VALID && !h.valid ==> forall k | 0 <= k < |r| :: r[k] == 0)
  {
    hide FieldBytes;
    FieldBytesAre(f, phv);
    ZeroAnd(mask);
  }

  /** Parts of the same sizes start at the same places. */
  lemma SameStart(p: seq<seq<Byte>>, q: seq<seq<Byte>>, i: nat)
    requires Alike(p, q) && i <= |p|
    ensures Start(p, i) == Start(q, i)
  {
    FlatAlike(p[..i], q[..i]);
  }

  lemma ZeroAnd(m: seq<Byte>)
    ensures forall k | 0 <= k < |m| :: 0 & m[k] == 0
  {
  }

  /** What an invalid header holds never gets into a key. */
  lemma OnlyValidMatter(l: Layout, phv: Phv, phv': Phv)
    requires l.Valid() && l.Covers(phv) && l.Covers(phv')
    requires |phv| == |phv'| && forall h | 0 <= h < |phv| ::
               phv[h].valid == phv'[h].valid && (phv[h].valid ==> phv[h].fields == phv'[h].fields)
    ensures l.Values(phv) == l.Values(phv') && l.Key(phv) == l.Key(phv')
  {
    hide Flat, And;
    forall i | 0 <= i < |l.fields| ensures FieldBytes(l.fields[i], phv) == FieldBytes(l.fields[i], phv') {
      assert InPacket(l.fields[i], phv) && InPacket(l.fields[i], phv');
    }
    assert l.Values(phv) == l.Values(phv');
  }

  lemma {:induction false} FlatFull(parts: seq<seq<Byte>>)
    requires forall i | 0 <= i < |parts| :: parts[i] == Full(|parts[i]|)
    ensures Flat(parts) == Full(|Flat(parts)|)
  {
    if parts != [] {
      FlatFull(parts[1..]);
    }
  }

  /** `ByteContainer::apply_mask`. */
  method ApplyMask(key: seq<Byte>, mask: seq<Byte>) returns (r: seq<Byte>)
    requires |key| == |mask|
    ensures r == And(key, mask)
  {
    r := key;
    for i := 0 to |key|
      invariant |r| == |key|
      invariant forall k | 0 <= k < |key| :: r[k] == if k < i then key[k] & mask[k] else key[k]
    {
      r := r[i := r[i] & mask[i]];
    }
  }
}
