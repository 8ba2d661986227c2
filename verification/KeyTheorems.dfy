/** What it means for a packet to match an entry: the whole key matches exactly if each
    field matches its own parameter, whatever the order of the fields. */
module KeyTheorems {
  import opened Bits
  import opened FieldBits
  import opened KeyBuilder
  import opened MatchKeys

  datatype UnitKind = ExactUnit | LpmUnit | TernaryUnit

  /** What a table stores as the key of an entry. */
  datatype MatchKey =
    | ExactKey(data: seq<Byte>)
    | LpmKey(data: seq<Byte>, prefixLength: nat)
    | TernaryKey(data: seq<Byte>, mask: seq<Byte>, priority: int)

  /** The kinds of match that a kind of table has.  At most one field is an LPM field. */
  ghost predicate Fits(kind: UnitKind, fields: seq<KeyField>) {
    match kind
    case ExactUnit => forall i | 0 <= i < |fields| :: fields[i].mtype == VALID || fields[i].mtype == EXACT
    case LpmUnit => NoTernary(fields) && exists lpm :: OnlyLpm(fields, lpm)
    case TernaryUnit => true
  }

  ghost predicate NoTernary(fields: seq<KeyField>) {
    forall i | 0 <= i < |fields| :: fields[i].mtype != TERNARY
  }

  ghost predicate OnlyLpm(fields: seq<KeyField>, lpm: nat) {
    && lpm < |fields| && fields[lpm].mtype == LPM
    && forall i | 0 <= i < |fields| :: fields[i].mtype == LPM ==> i == lpm
  }

  ghost predicate Table(kind: UnitKind, l: Layout) {
    l.Valid() && Sorted(l.fields, l.order) && Fits(kind, l.fields)
  }

  lemma PartsOf(l: Layout, params: seq<Param>)
    requires l.Valid() && AllSane(params, l.fields)
    ensures l.Parts(Normals(params, l.fields)) && l.Parts(MasksOf(params, l.fields)) && l.Parts(l.masks)
  {
    hide Normal, MaskOf;
  }

  /** The parts of an entry's data, as stored. */
  function StoredParts(kind: UnitKind, l: Layout, params: seq<Param>): (parts: seq<seq<Byte>>)
    requires l.Valid() && AllSane(params, l.fields)
    ensures l.Parts(parts)
  {
    PartsOf(l, params);
    var normals := Normals(params, l.fields);
    AndParts(if kind == TernaryUnit then AndParts(normals, MasksOf(params, l.fields)) else normals, l.masks)
  }

  /** The key of the entry that is added for some parameters. */
  function KeyOf(kind: UnitKind, l: Layout, params: seq<Param>, priority: int): MatchKey
    requires l.Valid() && AllSane(params, l.fields)
  {
    PartsOf(l, params);
    var data := l.Join(StoredParts(kind, l, params));
    match kind
    case ExactUnit => ExactKey(data)
    case LpmUnit => LpmKey(data, Sum(Ordered(PrefixBitsAll(params, l.fields), l.order)))
    case TernaryUnit => TernaryKey(data, l.Join(MasksOf(params, l.fields)), priority)
  }

  /** How the lookup structures compare an entry with the key of a packet. */
  predicate Matches(entry: MatchKey, key: seq<Byte>) {
    match entry
    case ExactKey(data) => data == key
    case LpmKey(data, n) => n <= 8 * |data| && |data| == |key| && BytesBits(data)[..n] == BytesBits(key)[..n]
    case TernaryKey(data, mask, _) => |data| == |mask| == |key| && data == And(key, mask)
  }

  /** A field of a packet matches a parameter, under the mask of the program. */
  ghost predicate FieldMatches(f: KeyField, mask: seq<Byte>, p: Param, value: seq<Byte>)
    requires f.nbits > 0 && Sane(p, f) && |mask| == |value| == NBytes(f.nbits)
  {
    var wanted, found := And(Normal(p, f), mask), And(value, mask);
    match p.mtype
    case VALID => wanted == found
    case EXACT => wanted == found
    case LPM => BytesBits(wanted)[..p.prefixLength] == BytesBits(found)[..p.prefixLength]
    case TERNARY => And(wanted, p.mask) == And(found, p.mask)
  }

  ghost predicate AllMatch(l: Layout, params: seq<Param>, phv: Phv)
    requires l.Valid() && AllSane(params, l.fields) && l.Covers(phv)
  {
    forall i | 0 <= i < |l.fields| ::
      FieldMatches(l.fields[i], l.masks[i], params[i], FieldBytes(l.fields[i], phv))
  }

  lemma SaneAt(l: Layout, params: seq<Param>, i: nat)
    requires l.Valid() && AllSane(params, l.fields) && i < |l.fields|
    ensures l.fields[i].nbits > 0 && Sane(params[i], l.fields[i]) && |l.masks[i]| == NBytes(l.fields[i].nbits)
    ensures params[i].mtype == l.fields[i].mtype
  {
  }

  // ----- exact tables -----

  lemma ExactMatchesIff(l: Layout, params: seq<Param>, phv: Phv)
    requires Table(ExactUnit, l) && AllSane(params, l.fields) && l.Covers(phv)
    ensures Matches(KeyOf(ExactUnit, l, params, -1), l.Key(phv)) <==> AllMatch(l, params, phv)
  {
    hide Flat, And, Normal, Sane, FieldBytes, BytesBits;
    PartsOf(l, params);
    var normals, values := Normals(params, l.fields), l.Values(phv);
    l.JoinAnd(values, l.masks);
    l.JoinAlike(AndParts(normals, l.masks), AndParts(values, l.masks));
    forall i | 0 <= i < |l.fields|
      ensures AndParts(normals, l.masks)[i] == AndParts(values, l.masks)[i] <==>
              FieldMatches(l.fields[i], l.masks[i], params[i], FieldBytes(l.fields[i], phv))
    {
      SaneAt(l, params, i);
    }
  }

  // ----- ternary tables -----

  lemma AndSwap(s: seq<Byte>, m: seq<Byte>, n: seq<Byte>)
    requires |s| == |m| == |n|
    ensures And(And(s, m), n) == And(And(s, n), m)
  {
    forall i | 0 <= i < |s| ensures (s[i] & m[i]) & n[i] == (s[i] & n[i]) & m[i] {
      AndSwapByte(s[i], m[i], n[i]);
    }
  }

  lemma AndSwapByte(a: Byte, b: Byte, c: Byte)
    ensures (a & b) & c == (a & c) & b
  {
  }

  /** Under its own mask, a field matches in a ternary table as it would by itself. */
  lemma TernaryField(f: KeyField, mask: seq<Byte>, p: Param, value: seq<Byte>)
    requires FieldOk(f) && Sane(p, f) && |mask| == |value| == NBytes(f.nbits)
    ensures And(And(Normal(p, f), MaskOf(p, f)), mask) == And(And(value, mask), MaskOf(p, f))
            <==> FieldMatches(f, mask, p, value)
  {
    hide And, Normal, BytesBits, PrefixMask, Full;
    var wanted, found := And(Normal(p, f), mask), And(value, mask);
    AndSwap(Normal(p, f), MaskOf(p, f), mask);
    if p.mtype == LPM {
      PrefixMaskCompares(wanted, found, p.prefixLength);
    } else if p.mtype != TERNARY {
      AndFull(wanted);
      AndFull(found);
    }
  }

  lemma TernaryMatchesIff(l: Layout, params: seq<Param>, priority: int, phv: Phv)
    requires Table(TernaryUnit, l) && AllSane(params, l.fields) && l.Covers(phv)
    ensures Matches(KeyOf(TernaryUnit, l, params, priority), l.Key(phv)) <==> AllMatch(l, params, phv)
  {
    hide Flat, And, Normal, Sane, FieldBytes, BytesBits, MaskOf, FieldMatches;
    PartsOf(l, params);
    var normals, values, ms := Normals(params, l.fields), l.Values(phv), MasksOf(params, l.fields);
    var stored, seen := StoredParts(TernaryUnit, l, params), AndParts(AndParts(values, l.masks), ms);
    l.JoinAnd(values, l.masks);
    l.JoinAnd(AndParts(values, l.masks), ms);
    l.JoinAlike(stored, seen);
    l.JoinAlike(stored, ms);
    forall i | 0 <= i < |l.fields|
      ensures stored[i] == seen[i] <==>
              FieldMatches(l.fields[i], l.masks[i], params[i], FieldBytes(l.fields[i], phv))
    {
      SaneAt(l, params, i);
      TernaryField(l.fields[i], l.masks[i], params[i], values[i]);
    }
  }

  // ----- LPM tables -----

  /** Prefixes of parts: all parts but the last count in full. */
  ghost predicate Prefixed(parts: seq<seq<Byte>>, bits: seq<nat>) {
    && |bits| == |parts|
    && (forall i | 0 <= i < |parts| :: bits[i] <= 8 * |parts[i]|)
    && (forall i | 0 <= i < |parts| - 1 :: bits[i] == 8 * |parts[i]|)
  }

  ghost predicate PrefixAgrees(p: seq<Byte>, q: seq<Byte>, n: nat)
    requires |p| == |q| && n <= 8 * |p|
  {
    BytesBits(p)[..n] == BytesBits(q)[..n]
  }

  /** The prefix of the concatenation agrees exactly if the prefix of each part does. */
  lemma {:induction false} FlatPrefix(p: seq<seq<Byte>>, q: seq<seq<Byte>>, bits: seq<nat>)
    requires Alike(p, q) && Prefixed(p, bits)
    ensures |Flat(p)| == |Flat(q)| && Sum(bits) <= 8 * |Flat(p)|
    ensures PrefixAgrees(Flat(p), Flat(q), Sum(bits)) <==>
            forall i | 0 <= i < |p| :: PrefixAgrees(p[i], q[i], bits[i])
  {
    hide BytesBits, PrefixAgrees;
    FlatAlike(p, q);
    if p == [] {
      NothingAgrees();
    } else {
      FlatPrefix(p[1..], q[1..], bits[1..]);
      PrefixOfConcat(p[0], q[0], Flat(p[1..]), Flat(q[1..]), bits[0], Sum(bits[1..]));
      assert p == [p[0]] + p[1..] && q == [q[0]] + q[1..] && bits == [bits[0]] + bits[1..];
    }
  }

  lemma NothingAgrees()
    ensures PrefixAgrees([], [], 0)
  {
  }

  lemma PrefixOfConcat(p: seq<Byte>, q: seq<Byte>, s: seq<Byte>, t: seq<Byte>, m: nat, n: nat)
    requires |p| == |q| && |s| == |t| && m <= 8 * |p| && n <= 8 * |s| && (m == 8 * |p| || s == [])
    ensures PrefixAgrees(p + s, q + t, m + n) <==> PrefixAgrees(p, q, m) && PrefixAgrees(s, t, n)
  {
    hide BytesBits;
    BytesBitsConcat(p, s);
    BytesBitsConcat(q, t);
    var x, y := BytesBits(p + s), BytesBits(q + t);
    if s == [] {
      assert p + s == p && q + t == q;
    } else {
      assert BytesBits(p)[..m] == BytesBits(p) && BytesBits(q)[..m] == BytesBits(q);
      assert x[..m + n] == BytesBits(p) + BytesBits(s)[..n];
      assert y[..m + n] == BytesBits(q) + BytesBits(t)[..n];
      if x[..m + n] == y[..m + n] {
        assert x[..m + n][..m] == y[..m + n][..m];
        assert x[..m + n][m..] == y[..m + n][m..];
      }
    }
  }

  /** The LPM field comes last. */
  lemma LpmIsLast(l: Layout, lpm: nat, k: nat)
    requires l.Valid() && Sorted(l.fields, l.order) && NoTernary(l.fields) && OnlyLpm(l.fields, lpm)
    requires k < |l.order| - 1
    ensures l.order[k] != lpm
  {
    assert Before(l.fields, l.order[k], l.order[k + 1]);
  }

  lemma LpmPrefixed(l: Layout, params: seq<Param>, parts: seq<seq<Byte>>)
    requires Table(LpmUnit, l) && AllSane(params, l.fields) && l.Parts(parts)
    ensures Prefixed(Ordered(parts, l.order), Ordered(PrefixBitsAll(params, l.fields), l.order))
  {
    hide Sorted;
    var lpm :| OnlyLpm(l.fields, lpm);
    forall k | 0 <= k < |l.order|
      ensures PrefixBits(params[l.order[k]], l.fields[l.order[k]]) <= 8 * |parts[l.order[k]]|
      ensures k < |l.order| - 1 ==>
                PrefixBits(params[l.order[k]], l.fields[l.order[k]]) == 8 * |parts[l.order[k]]|
    {
      SaneAt(l, params, l.order[k]);
      if k < |l.order| - 1 {
        LpmIsLast(l, lpm, k);
      }
    }
  }

  /** Under its own prefix, a field matches in an LPM table as it would by itself. */
  lemma LpmField(f: KeyField, mask: seq<Byte>, p: Param, value: seq<Byte>)
    requires FieldOk(f) && Sane(p, f) && |mask| == |value| == NBytes(f.nbits) && f.mtype != TERNARY
    ensures PrefixAgrees(And(Normal(p, f), mask), And(value, mask), PrefixBits(p, f))
            <==> FieldMatches(f, mask, p, value)
  {
    hide And, Normal, BytesBits;
    var wanted, found := And(Normal(p, f), mask), And(value, mask);
    if p.mtype != LPM {
      assert BytesBits(wanted)[..8 * |wanted|] == BytesBits(wanted);
      assert BytesBits(found)[..8 * |found|] == BytesBits(found);
      if BytesBits(wanted) == BytesBits(found) {
        BytesBitsInjective(wanted, found);
      }
    }
  }

  lemma LpmMatchesIff(l: Layout, params: seq<Param>, phv: Phv)
    requires Table(LpmUnit, l) && AllSane(params, l.fields) && l.Covers(phv)
    ensures Matches(KeyOf(LpmUnit, l, params, -1), l.Key(phv)) <==> AllMatch(l, params, phv)
  {
    hide Flat, And, Normal, Sane, FieldBytes, BytesBits, FieldMatches, PrefixAgrees, Sum, PrefixBits, Fits, Prefixed;
    PartsOf(l, params);
    var normals, values := Normals(params, l.fields), l.Values(phv);
    var stored, seen := AndParts(normals, l.masks), AndParts(values, l.masks);
    var bits := PrefixBitsAll(params, l.fields);
    l.JoinAnd(values, l.masks);
    l.JoinAlike(stored, seen);
    LpmPrefixed(l, params, stored);
    FlatPrefix(Ordered(stored, l.order), Ordered(seen, l.order), Ordered(bits, l.order));
    MatchesPrefix(l.Join(stored), l.Join(seen), Sum(Ordered(bits, l.order)));
    forall i | 0 <= i < |l.fields|
      ensures |stored[i]| == |seen[i]| && bits[i] <= 8 * |stored[i]|
      ensures PrefixAgrees(stored[i], seen[i], bits[i]) <==>
              FieldMatches(l.fields[i], l.masks[i], params[i], FieldBytes(l.fields[i], phv))
    {
      LpmAt(l, params, i);
      LpmField(l.fields[i], l.masks[i], params[i], values[i]);
    }
    AgreeInOrder(l, stored, seen, bits);
  }

  /** The prefix of an entry is within its key. */
  lemma KeyOfSize(kind: UnitKind, l: Layout, params: seq<Param>, priority: int)
    requires Table(kind, l) && AllSane(params, l.fields)
    ensures var k := KeyOf(kind, l, params, priority);
            && |k.data| == |l.Join(l.masks)|
            && (k.LpmKey? ==> k.prefixLength <= 8 * |k.data|)
            && (k.TernaryKey? ==> |k.mask| == |k.data|)
  {
    hide Flat, And, Normal, Sane, PrefixAgrees, Sum, PrefixBits, Fits, Prefixed, MaskOf;
    PartsOf(l, params);
    var parts := StoredParts(kind, l, params);
    l.JoinAlike(parts, l.masks);
    l.JoinAlike(MasksOf(params, l.fields), l.masks);
    if kind == LpmUnit {
      LpmPrefixed(l, params, parts);
      FlatPrefix(Ordered(parts, l.order), Ordered(parts, l.order), Ordered(PrefixBitsAll(params, l.fields), l.order));
    }
  }

  lemma LpmAt(l: Layout, params: seq<Param>, i: nat)
    requires Table(LpmUnit, l) && AllSane(params, l.fields) && i < |l.fields|
    ensures FieldOk(l.fields[i]) && Sane(params[i], l.fields[i]) && l.fields[i].mtype != TERNARY
    ensures |l.masks[i]| == NBytes(l.fields[i].nbits) && PrefixBits(params[i], l.fields[i]) <= 8 * |l.masks[i]|
  {
  }

  lemma MatchesPrefix(data: seq<Byte>, key: seq<Byte>, n: nat)
    requires |data| == |key| && n <= 8 * |data|
    ensures Matches(LpmKey(data, n), key) <==> PrefixAgrees(data, key, n)
  {
  }

  /** What holds of the parts in one order holds of them in another. */
  lemma AgreeInOrder(l: Layout, p: seq<seq<Byte>>, q: seq<seq<Byte>>, bits: seq<nat>)
    requires l.Valid() && l.Parts(p) && l.Parts(q) && |bits| == |p|
    requires forall i | 0 <= i < |p| :: bits[i] <= 8 * |p[i]|
    ensures (forall k | 0 <= k < |p| ::
               PrefixAgrees(Ordered(p, l.order)[k], Ordered(q, l.order)[k], Ordered(bits, l.order)[k]))
            <==> (forall i | 0 <= i < |p| :: PrefixAgrees(p[i], q[i], bits[i]))
  {
    hide PrefixAgrees;
    var op, oq, ob := Ordered(p, l.order), Ordered(q, l.order), Ordered(bits, l.order);
    if forall k | 0 <= k < |p| :: PrefixAgrees(op[k], oq[k], ob[k]) {
      forall i | 0 <= i < |p| ensures PrefixAgrees(p[i], q[i], bits[i]) {
        assert i in l.order;
        var k :| 0 <= k < |l.order| && l.order[k] == i;
        assert PrefixAgrees(op[k], oq[k], ob[k]);
      }
    }
  }

  /** The main result: a packet matches an entry exactly if each of its fields matches
      the parameter that was given for it, in a table of any kind. */
  lemma MatchesIff(kind: UnitKind, l: Layout, params: seq<Param>, priority: int, phv: Phv)
    requires Table(kind, l) && AllSane(params, l.fields) && l.Covers(phv)
    ensures Matches(KeyOf(kind, l, params, priority), l.Key(phv)) <==> AllMatch(l, params, phv)
  {
    hide AllMatch, Matches;
    match kind
    case ExactUnit => ExactMatchesIff(l, params, phv);
    case LpmUnit => LpmMatchesIff(l, params, phv);
    case TernaryUnit => TernaryMatchesIff(l, params, priority, phv);
  }

  // ----- the bits of the packet -----

  /** Bit `b` of what a packet shows for a field: the last bit of a byte for whether a
      header is valid, and a bit of the field itself if its header is valid. */
  ghost predicate Shows(f: KeyField, phv: Phv, b: nat)
    requires InPacket(f, phv) && FieldOk(f) && b < 8 * NBytes(f.nbits)
  {
    phv[f.header].valid && if f.mtype == VALID then b == 7 else BytesBits(phv[f.header].fields[f.offset])[b]
  }

  /** The bits that a parameter and the mask of the program leave to be compared. */
  ghost predicate Compared(f: KeyField, mask: seq<Byte>, p: Param, b: nat)
    requires Sane(p, f) && |mask| == NBytes(f.nbits) && b < 8 * NBytes(f.nbits)
  {
    BytesBits(mask)[b] && (f.mtype == LPM ==> b < p.prefixLength) && (f.mtype == TERNARY ==> BytesBits(p.mask)[b])
  }

  /** The bits of the parameter's key, and zeros in front of the field. */
  ghost predicate BitAgrees(f: KeyField, mask: seq<Byte>, p: Param, phv: Phv, b: nat)
    requires InPacket(f, phv) && FieldOk(f) && Sane(p, f) && |mask| == NBytes(f.nbits) && b < 8 * NBytes(f.nbits)
  {
    Compared(f, mask, p, b) ==> Shows(f, phv, b) == (b >= Pad(f.nbits) && BytesBits(p.key)[b])
  }

  ghost predicate BitsMatch(l: Layout, params: seq<Param>, phv: Phv)
    requires l.Valid() && AllSane(params, l.fields) && l.Covers(phv)
  {
    forall i, b | 0 <= i < |l.fields| && 0 <= b < 8 * NBytes(l.fields[i].nbits) ::
      BitAgrees(l.fields[i], l.masks[i], params[i], phv, b)
  }

  lemma ShowsBit(f: KeyField, phv: Phv, b: nat)
    requires InPacket(f, phv) && FieldOk(f) && b < 8 * NBytes(f.nbits)
    ensures BytesBits(FieldBytes(f, phv))[b] == Shows(f, phv, b)
  {
    hide Bit, BytesBits;
    BytesBitsAt(FieldBytes(f, phv), b);
    if f.mtype == VALID {
      OneBit(b);
      NoOnes(b);
    } else if !phv[f.header].valid {
      NoOnes(b % 8);
    }
  }

  lemma OneBit(b: nat)
    requires b < 8
    ensures Bit(0x01, b) == (b == 7)
  {
  }

  /** A field matches if the packet has the bits that the parameter asks for. */
  lemma FieldMatchesIff(f: KeyField, mask: seq<Byte>, p: Param, phv: Phv)
    requires InPacket(f, phv) && FieldOk(f) && Sane(p, f) && |mask| == NBytes(f.nbits)
    ensures FieldMatches(f, mask, p, FieldBytes(f, phv)) ==>
              forall b | 0 <= b < 8 * NBytes(f.nbits) :: BitAgrees(f, mask, p, phv, b)
    ensures (forall b | 0 <= b < 8 * NBytes(f.nbits) :: BitAgrees(f, mask, p, phv, b)) ==>
              FieldMatches(f, mask, p, FieldBytes(f, phv))
  {
    hide BytesBits, And, Normal, FieldBytes, Shows;
    var n, x, y := 8 * NBytes(f.nbits), Normal(p, f), FieldBytes(f, phv);
    forall b | 0 <= b < n
      ensures BytesBits(y)[b] == Shows(f, phv, b)
      ensures BytesBits(x)[b] == (b >= Pad(f.nbits) && BytesBits(p.key)[b])
      ensures BytesBits(And(x, mask))[b] == (BytesBits(x)[b] && BytesBits(mask)[b])
      ensures BytesBits(And(y, mask))[b] == (BytesBits(y)[b] && BytesBits(mask)[b])
    {
      ShowsBit(f, phv, b);
      NormalBits(p, f, b);
      AndBit(x, mask, b);
      AndBit(y, mask, b);
    }
    var wanted, found := And(x, mask), And(y, mask);
    match p.mtype {
      case LPM =>
        SamePrefix(BytesBits(wanted), BytesBits(found), p.prefixLength);
        assert forall b | 0 <= b < p.prefixLength ::
            BitAgrees(f, mask, p, phv, b) <==> BytesBits(wanted)[b] == BytesBits(found)[b];
      case TERNARY =>
        AndSame(wanted, found, p.mask);
        assert forall b | 0 <= b < n && BytesBits(p.mask)[b] ::
            BitAgrees(f, mask, p, phv, b) <==> BytesBits(wanted)[b] == BytesBits(found)[b];
      case _ =>
        AndSame(x, y, mask);
        assert forall b | 0 <= b < n && BytesBits(mask)[b] ::
            BitAgrees(f, mask, p, phv, b) <==> BytesBits(x)[b] == BytesBits(y)[b];
    }
  }

  lemma SamePrefix(s: seq<bool>, t: seq<bool>, n: nat)
    requires |s| == |t| && n <= |s|
    ensures s[..n] == t[..n] ==> forall b | 0 <= b < n :: s[b] == t[b]
    ensures (forall b | 0 <= b < n :: s[b] == t[b]) ==> s[..n] == t[..n]
  {
    if s[..n] == t[..n] {
      forall b | 0 <= b < n ensures s[b] == t[b] {
        assert s[..n][b] == t[..n][b];
      }
    }
  }

  /** Matching, in terms of the packet and of what the client asked for: each bit that a
      parameter asks for, under the mask of the program, is the packet's. */
  lemma MatchesBits(kind: UnitKind, l: Layout, params: seq<Param>, priority: int, phv: Phv)
    requires Table(kind, l) && AllSane(params, l.fields) && l.Covers(phv)
    ensures Matches(KeyOf(kind, l, params, priority), l.Key(phv)) <==> BitsMatch(l, params, phv)
  {
    hide Matches, KeyOf, Layout.Key, AllMatch;
    MatchesIff(kind, l, params, priority, phv);
    AllMatchBits(l, params, phv);
  }

  lemma AllMatchBits(l: Layout, params: seq<Param>, phv: Phv)
    requires l.Valid() && AllSane(params, l.fields) && l.Covers(phv)
    ensures AllMatch(l, params, phv) <==> BitsMatch(l, params, phv)
  {
    hide FieldMatches, BitAgrees, Sane;
    forall i | 0 <= i < |l.fields|
      ensures FieldMatches(l.fields[i], l.masks[i], params[i], FieldBytes(l.fields[i], phv)) <==>
              forall b | 0 <= b < 8 * NBytes(l.fields[i].nbits) ::
                BitAgrees(l.fields[i], l.masks[i], params[i], phv, b)
    {
      SaneAt(l, params, i);
      FieldMatchesIff(l.fields[i], l.masks[i], params[i], phv);
    }
  }

  // ----- prefixes of fields that are not whole bytes -----

  /** Prefix lengths are counted from the first bit of the first byte, so the bits in
      front of the field use up part of them. */
  lemma LpmComparesFewer(f: KeyField, p: Param, value: seq<Byte>)
    requires FieldOk(f) && Sane(p, f) && f.mtype == LPM && |value| == NBytes(f.nbits)
             && Padded(BytesBits(value), f.nbits)
    ensures var pad := Pad(f.nbits);
            var m := if p.prefixLength <= pad then 0 else p.prefixLength - pad;
            FieldMatches(f, Full(|value|), p, value) <==> BytesBits(p.key)[pad..][..m] == BytesBits(value)[pad..][..m]
  {
    hide BytesBits, And, Normal, Full;
    var a := BytesBits(Normal(p, f));
    AndFull(Normal(p, f));
    AndFull(value);
    forall k | 0 <= k < |a| ensures a[k] == (k >= Pad(f.nbits) && BytesBits(p.key)[k]) {
      NormalBits(p, f, k);
    }
    PrefixBehindPadding(a, BytesBits(value), BytesBits(p.key), Pad(f.nbits), p.prefixLength);
  }

  lemma PrefixBehindPadding(a: seq<bool>, b: seq<bool>, key: seq<bool>, pad: nat, n: nat)
    requires |a| == |b| == |key| && pad <= |a| && n <= |a|
    requires forall k | 0 <= k < |a| :: a[k] == (k >= pad && key[k])
    requires forall k | 0 <= k < pad :: !b[k]
    ensures var m := if n <= pad then 0 else n - pad;
            a[..n] == b[..n] <==> key[pad..][..m] == b[pad..][..m]
  {
    var m := if n <= pad then 0 else n - pad;
    if a[..n] == b[..n] {
      forall k | 0 <= k < m ensures key[pad..][k] == b[pad..][k] {
        assert a[..n][pad + k] == b[..n][pad + k];
      }
    }
    if key[pad..][..m] == b[pad..][..m] {
      forall k | 0 <= k < n ensures a[k] == b[k] {
        if k >= pad {
          assert key[pad..][..m][k - pad] == b[pad..][..m][k - pad];
        }
      }
    }
  }

  /** A parameter with a prefix length means the field's first bits, that many. */
  ghost predicate MeansPrefix(f: KeyField, p: Param, value: seq<Byte>)
    requires FieldOk(f) && Sane(p, f) && f.mtype == LPM && |value| == NBytes(f.nbits)
  {
    FieldMatches(f, Full(|value|), p, value) <==>
    BytesBits(p.key)[Pad(f.nbits)..][..p.prefixLength] == BytesBits(value)[Pad(f.nbits)..][..p.prefixLength]
  }

  /** Exactly the prefixes of whole-byte fields, and empty ones, mean what they say. */
  lemma PrefixesMeanWhatTheySayIff(f: KeyField, n: nat)
    requires FieldOk(f) && f.mtype == LPM && n <= f.nbits
    ensures (forall key, value | |key| == |value| == NBytes(f.nbits) && Padded(BytesBits(value), f.nbits) ::
               MeansPrefix(f, Param(LPM, key, [], n), value))
            <==> Pad(f.nbits) == 0 || n == 0
  {
    hide BytesBits, FieldMatches, Full;
    var pad, size := Pad(f.nbits), NBytes(f.nbits);
    if pad == 0 || n == 0 {
      forall key, value | |key| == |value| == size && Padded(BytesBits(value), f.nbits)
        ensures MeansPrefix(f, Param(LPM, key, [], n), value)
      {
        LpmComparesFewer(f, Param(LPM, key, [], n), value);
      }
    } else {
      var zeros := Zeros(8 * size);
      var one := zeros[pad + n - 1 := true];
      var key, value := ToBytes(zeros), ToBytes(one);
      var p := Param(LPM, key, [], n);
      assert Padded(BytesBits(value), f.nbits);
      LpmComparesFewer(f, p, value);
      var m := if n <= pad then 0 else n - pad;
      assert zeros[pad..][..m] == one[pad..][..m];
      assert zeros[pad..][..n][n - 1] != one[pad..][..n][n - 1];
      assert !MeansPrefix(f, p, value);
    }
  }

  // ----- what a table returns for an entry -----

  /** The parameters that are read back from an entry. */
  function Returned(kind: UnitKind, l: Layout, params: seq<Param>): (r: seq<Param>)
    requires l.Valid() && AllSane(params, l.fields)
    ensures |r| == |params|
    ensures forall i | 0 <= i < |params| :: r[i] == ReturnedParam(params[i], StoredParts(kind, l, params)[i])
  {
    seq(|params|, i requires 0 <= i < |params| => ReturnedParam(params[i], StoredParts(kind, l, params)[i]))
  }

  function ReturnedParam(p: Param, key: seq<Byte>): Param {
    Param(p.mtype, key, if p.mtype == TERNARY then p.mask else [], if p.mtype == LPM then p.prefixLength else 0)
  }

  lemma SaneReturned(kind: UnitKind, l: Layout, params: seq<Param>)
    requires l.Valid() && AllSane(params, l.fields)
    ensures AllSane(Returned(kind, l, params), l.fields)
  {
    hide StoredParts;
    forall i | 0 <= i < |l.fields| ensures Sane(Returned(kind, l, params)[i], l.fields[i]) {
      SaneAt(l, params, i);
    }
  }

  lemma AndAgain(x: Byte, a: Byte, b: Byte, c: Byte)
    ensures ((x & a) & b) & a == (x & a) & b
    ensures (((x & a) & b) & c) & a == ((x & a) & b) & c
    ensures (((x & a) & b) & a) & b == (x & a) & b
    ensures (x & a) & a == x & a
  {
  }

  /** Normalising and masking a second time changes nothing. */
  lemma StoredAgain(p: Param, f: KeyField, mask: seq<Byte>, ternary: bool)
    requires FieldOk(f) && Sane(p, f) && |mask| == NBytes(f.nbits)
    ensures var m := MaskOf(p, f);
            var s := And(if ternary then And(Normal(p, f), m) else Normal(p, f), mask);
            var r := ReturnedParam(p, s);
            && Sane(r, f) && MaskOf(r, f) == m && PrefixBits(r, f) == PrefixBits(p, f)
            && And(if ternary then And(Normal(r, f), m) else Normal(r, f), mask) == s
  {
    hide MaskOf, Byte0Mask;
    SameMask(p, f, And(if ternary then And(Normal(p, f), MaskOf(p, f)) else Normal(p, f), mask));
    var m, x := MaskOf(p, f), Normal(p, f);
    var s := And(if ternary then And(x, m) else x, mask);
    var r := ReturnedParam(p, s);
    assert Normal(r, f) == s by {
      AndAgain(p.key[0], Byte0Mask(f.nbits), if ternary then m[0] else mask[0], mask[0]);
    }
    forall i | 0 <= i < |s| ensures (if ternary then (s[i] & m[i]) & mask[i] else s[i] & mask[i]) == s[i] {
      AndAgain(x[i], m[i], mask[i], 0);
      AndAgain(x[i], mask[i], 0, 0);
    }
  }

  lemma SameMask(p: Param, f: KeyField, s: seq<Byte>)
    requires FieldOk(f) && Sane(p, f) && |s| == |p.key|
    ensures Sane(ReturnedParam(p, s), f) && MaskOf(ReturnedParam(p, s), f) == MaskOf(p, f)
  {
    hide PrefixMask, Full;
  }

  /** Round trip: the parameters that a table returns stand for the entry that it has. */
  lemma ReturnedIsSame(kind: UnitKind, l: Layout, params: seq<Param>, priority: int)
    requires l.Valid() && AllSane(params, l.fields)
    ensures AllSane(Returned(kind, l, params), l.fields)
    ensures KeyOf(kind, l, Returned(kind, l, params), priority) == KeyOf(kind, l, params, priority)
  {
    hide Normal, MaskOf, And, Flat, PrefixBits, Sane;
    SaneReturned(kind, l, params);
    var r := Returned(kind, l, params);
    forall i | 0 <= i < |l.fields|
      ensures StoredParts(kind, l, r)[i] == StoredParts(kind, l, params)[i]
      ensures MaskOf(r[i], l.fields[i]) == MaskOf(params[i], l.fields[i])
      ensures PrefixBits(r[i], l.fields[i]) == PrefixBits(params[i], l.fields[i])
    {
      SaneAt(l, params, i);
      SaneAt(l, r, i);
      StoredAgain(params[i], l.fields[i], l.masks[i], kind == TernaryUnit);
    }
    assert StoredParts(kind, l, r) == StoredParts(kind, l, params);
    assert MasksOf(r, l.fields) == MasksOf(params, l.fields);
    assert PrefixBitsAll(r, l.fields) == PrefixBitsAll(params, l.fields);
  }
}
