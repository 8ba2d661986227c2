/** Conversions between the parameters of a match, one for each field in the order of
    the program, and the entry that a table stores for them. */
module MatchParams {
  import opened Bits
  import opened FieldBits
  import opened KeyBuilder
  import opened MatchKeys

  /** Appends a parameter and clears the bits in front of the field. */
  method AppendParam(data: seq<Byte>, param: Param, f: KeyField) returns (r: seq<Byte>)
    requires f.nbits > 0 && Sane(param, f)
    ensures r == data + Normal(param, f)
  {
    r := data + param.key;
    r := r[|data| := r[|data|] & Byte0Mask(f.nbits)];
  }

  /** The data of an entry; for an exact table there is nothing else. */
  method ExactEntry(kb: MatchKeyBuilder, params: seq<Param>) returns (data: seq<Byte>)
    requires kb.Valid() && kb.built && AllSane(params, kb.fields)
    ensures data == kb.TheLayout().Join(Normals(params, kb.fields))
  {
    hide Flat, Sane, Arranged;
    kb.InputIsOrdered();
    ghost var parts := Ordered(Normals(params, kb.fields), kb.invMapping);
    data := [];
    FlatNone();
    assert parts[..0] == [];
    for i := 0 to |kb.invMapping|
      invariant data == Flat(parts[..i])
    {
      FlatSnoc(parts[..i], parts[i]);
      assert parts[..i + 1] == parts[..i] + [parts[i]];
      data := AppendParam(data, params[kb.invMapping[i]], kb.keyInput[i]);
    }
    assert parts[..|parts|] == parts;
  }

  method LpmEntry(kb: MatchKeyBuilder, params: seq<Param>) returns (data: seq<Byte>, prefixLength: nat)
    requires kb.Valid() && kb.built && AllSane(params, kb.fields)
    requires forall i | 0 <= i < |kb.fields| :: kb.fields[i].mtype != TERNARY
    ensures data == kb.TheLayout().Join(Normals(params, kb.fields))
    ensures prefixLength == Sum(Ordered(PrefixBitsAll(params, kb.fields), kb.invMapping))
  {
    hide Flat, Sane, Sum, Arranged;
    kb.InputIsOrdered();
    data := ExactEntry(kb, params);
    ghost var bits := Ordered(PrefixBitsAll(params, kb.fields), kb.invMapping);
    prefixLength := 0;
    SumNone();
    assert bits[..0] == [];
    for i := 0 to |kb.invMapping|
      invariant prefixLength == Sum(bits[..i])
    {
      SumSnoc(bits[..i], bits[i]);
      assert bits[..i + 1] == bits[..i] + [bits[i]];
      var param := params[kb.invMapping[i]];
      SaneBits(param, kb.keyInput[i]);
      match param.mtype
      case VALID => prefixLength := prefixLength + 8;
      case EXACT => prefixLength := prefixLength + 8 * |param.key|;
      case LPM => prefixLength := prefixLength + param.prefixLength;
      case TERNARY => assert false;
    }
    assert bits[..|bits|] == bits;
  }

  lemma SumNone()
    ensures Sum([]) == 0
  {
  }

  lemma SaneBits(p: Param, f: KeyField)
    requires FieldOk(f) && Sane(p, f)
    ensures p.mtype == f.mtype && (p.mtype == VALID ==> |p.key| == 1)
    ensures p.mtype == LPM ==> 0 <= p.prefixLength <= 8 * |p.key|
    ensures |p.key| == NBytes(f.nbits) && (p.mtype == TERNARY ==> |p.mask| == NBytes(f.nbits))
  {
  }

  method TernaryEntry(kb: MatchKeyBuilder, params: seq<Param>) returns (data: seq<Byte>, mask: seq<Byte>)
    requires kb.Valid() && kb.built && AllSane(params, kb.fields)
    ensures var l := kb.TheLayout();
            && l.Parts(Normals(params, l.fields)) && l.Parts(MasksOf(params, l.fields))
            && mask == l.Join(MasksOf(params, l.fields))
            && |l.Join(Normals(params, l.fields))| == |mask|
            && data == And(l.Join(Normals(params, l.fields)), mask)
  {
    hide Flat, Sane, Arranged, Normal, MaskOf, PrefixMask, Full;
    kb.InputIsOrdered();
    ghost var l := kb.TheLayout();
    data := ExactEntry(kb, params);
    ghost var parts := Ordered(MasksOf(params, kb.fields), kb.invMapping);
    mask := [];
    FlatNone();
    assert parts[..0] == [];
    for i := 0 to |kb.invMapping|
      invariant mask == Flat(parts[..i])
    {
      FlatSnoc(parts[..i], parts[i]);
      assert parts[..i + 1] == parts[..i] + [parts[i]];
      var m := ParamMask(params[kb.invMapping[i]], kb.keyInput[i]);
      mask := mask + m;
    }
    assert parts[..|parts|] == parts;
    l.JoinAlike(Normals(params, l.fields), MasksOf(params, l.fields));
    data := ApplyMask(data, mask);
  }

  /** The mask that a parameter adds to a ternary key. */
  method ParamMask(param: Param, f: KeyField) returns (m: seq<Byte>)
    requires FieldOk(f) && Sane(param, f)
    ensures m == MaskOf(param, f)
  {
    match param.mtype
    case VALID => m := [0xff];
    case EXACT => m := seq(|param.key|, _ => 0xff);
    case LPM => m := CreateMask(param.prefixLength, |param.key|);
    case TERNARY => m := param.mask;
  }

  // ----- and back -----

  /** The bytes of field `i` in an entry. */
  method FieldOf(kb: MatchKeyBuilder, i: nat, data: seq<Byte>, ghost parts: seq<seq<Byte>>) returns (part: seq<Byte>)
    requires kb.Valid() && kb.built && i < |kb.fields|
    requires kb.TheLayout().Parts(parts) && data == kb.TheLayout().Join(parts)
    ensures part == parts[i]
  {
    hide Flat;
    kb.InputIsOrdered();
    ghost var ordered, k := Ordered(parts, kb.invMapping), kb.keyMapping[i];
    SameStarts(ordered, Ordered(kb.masks, kb.invMapping), k);
    PartAt(ordered, k);
    part := data[kb.keyOffsets[i]..kb.keyOffsets[i] + NBytes(kb.keyInput[kb.keyMapping[i]].nbits)];
  }

  lemma SameStarts(p: seq<seq<Byte>>, q: seq<seq<Byte>>, k: nat)
    requires Alike(p, q) && k <= |p|
    ensures Start(p, k) == Start(q, k)
  {
    FlatAlike(p[..k], q[..k]);
  }

  method ExactParams(kb: MatchKeyBuilder, data: seq<Byte>, ghost parts: seq<seq<Byte>>) returns (params: seq<Param>)
    requires kb.Valid() && kb.built
    requires forall i | 0 <= i < |kb.fields| :: kb.fields[i].mtype == VALID || kb.fields[i].mtype == EXACT
    requires kb.TheLayout().Parts(parts) && data == kb.TheLayout().Join(parts)
    ensures |params| == |kb.fields|
    ensures forall i | 0 <= i < |params| :: params[i] == Param(kb.fields[i].mtype, parts[i], [], 0)
  {
    hide Flat;
    kb.InputIsOrdered();
    params := [];
    for i := 0 to |kb.keyMapping|
      invariant |params| == i
      invariant forall k | 0 <= k < i :: params[k] == Param(kb.fields[k].mtype, parts[k], [], 0)
    {
      var part := FieldOf(kb, i, data, parts);
      params := params + [Param(kb.keyInput[kb.keyMapping[i]].mtype, part, [], 0)];
    }
  }

  /** The prefix of the LPM field is what the other fields leave of the prefix of the key. */
  method LpmParams(kb: MatchKeyBuilder, data: seq<Byte>, prefixLength: nat, ghost parts: seq<seq<Byte>>, ghost lpm: nat)
    returns (params: seq<Param>)
    requires kb.Valid() && kb.built && lpm < |kb.fields| && kb.fields[lpm].mtype == LPM
    requires forall i | 0 <= i < |kb.fields| ::
               kb.fields[i].mtype != TERNARY && (kb.fields[i].mtype == LPM ==> i == lpm)
    requires kb.TheLayout().Parts(parts) && data == kb.TheLayout().Join(parts)
    ensures |params| == |kb.fields|
    ensures forall i | 0 <= i < |params| && i != lpm :: params[i] == Param(kb.fields[i].mtype, parts[i], [], 0)
    ensures params[lpm] == Param(LPM, parts[lpm], [], prefixLength - 8 * OthersSize(parts, lpm, |parts|))
  {
    hide Layout.Join, Layout.Parts, Layout.Valid, MatchKeyBuilder.Valid;
    Mapped(kb, parts);
    params := [];
    var lpmIdx: nat, pref := 0, prefixLength as int;
    for i := 0 to |kb.keyMapping|
      invariant |params| == i
      invariant forall k | 0 <= k < i :: params[k] == Param(kb.fields[k].mtype, parts[k], [], 0)
      invariant lpm < i ==> lpmIdx == lpm
      invariant pref == prefixLength - 8 * OthersSize(parts, lpm, i)
    {
      var part := FieldOf(kb, i, data, parts);
      var mtype := kb.keyInput[kb.keyMapping[i]].mtype;
      params := params + [Param(mtype, part, [], 0)];
      if mtype == LPM {
        lpmIdx := i;
      } else {
        pref := pref - 8 * |part|;
      }
    }
    params := params[lpmIdx := params[lpmIdx].(prefixLength := pref)];
  }

  /** The mapping leads from the user's order to the fields in key order. */
  lemma Mapped(kb: MatchKeyBuilder, parts: seq<seq<Byte>>)
    requires kb.Valid() && kb.built && kb.TheLayout().Parts(parts)
    ensures |kb.keyMapping| == |kb.fields| == |parts|
    ensures forall i | 0 <= i < |kb.fields| ::
              kb.keyMapping[i] < |kb.keyInput| && kb.keyInput[kb.keyMapping[i]] == kb.fields[i]
  {
    hide Flat;
    kb.InputIsOrdered();
  }

  /** The bytes of the first `n` parts, except for one of them. */
  function OthersSize(parts: seq<seq<Byte>>, lpm: nat, n: nat): nat
    requires n <= |parts|
  {
    if n == 0 then 0 else OthersSize(parts, lpm, n - 1) + if n - 1 == lpm then 0 else |parts[n - 1]|
  }

  method TernaryParams(kb: MatchKeyBuilder, data: seq<Byte>, mask: seq<Byte>,
                       ghost parts: seq<seq<Byte>>, ghost maskParts: seq<seq<Byte>>)
    returns (params: seq<Param>)
    requires kb.Valid() && kb.built
    requires kb.TheLayout().Parts(parts) && data == kb.TheLayout().Join(parts)
    requires kb.TheLayout().Parts(maskParts) && mask == kb.TheLayout().Join(maskParts)
    ensures |params| == |kb.fields|
    ensures forall i | 0 <= i < |params| :: params[i] == TernaryParam(kb.fields[i].mtype, parts[i], maskParts[i])
  {
    hide Flat, PrefLen;
    kb.InputIsOrdered();
    params := [];
    for i := 0 to |kb.keyMapping|
      invariant |params| == i
      invariant forall k | 0 <= k < i :: params[k] == TernaryParam(kb.fields[k].mtype, parts[k], maskParts[k])
    {
      var part := FieldOf(kb, i, data, parts);
      var m := FieldOf(kb, i, mask, maskParts);
      var mtype := kb.keyInput[kb.keyMapping[i]].mtype;
      match mtype
      case VALID => params := params + [Param(mtype, part, [], 0)];
      case EXACT => params := params + [Param(mtype, part, [], 0)];
      case TERNARY => params := params + [Param(mtype, part, m, 0)];
      case LPM =>
        var pref := PrefLenFromMask(m);
        params := params + [Param(mtype, part, [], pref)];
    }
  }

  function TernaryParam(mtype: MatchType, part: seq<Byte>, mask: seq<Byte>): Param {
    match mtype
    case TERNARY => Param(mtype, part, mask, 0)
    case LPM => Param(mtype, part, [], PrefLen(mask))
    case _ => Param(mtype, part, [], 0)
  }
}
