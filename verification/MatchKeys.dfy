/** Match keys as strings of bytes: the parts of a key in the order of the P4 program,
    the order in which the switch concatenates them, and masks. */
module MatchKeys {
  import opened Bits
  import opened FieldBits

  /** In the order in which the switch sorts the fields of a key. */
  datatype MatchType = VALID | EXACT | LPM | TERNARY

  function Rank(t: MatchType): nat {
    match t
    case VALID => 0
    case EXACT => 1
    case LPM => 2
    case TERNARY => 3
  }

  /** A field of a key: which field of which header, and how it is matched. */
  datatype KeyField = KeyField(header: nat, offset: nat, mtype: MatchType, nbits: nat)

  /** What a client asks of one field. */
  datatype Param = Param(mtype: MatchType, key: seq<Byte>, mask: seq<Byte>, prefixLength: int)

  // ----- parts of keys -----

  function Flat(parts: seq<seq<Byte>>): seq<Byte> {
    if parts == [] then [] else parts[0] + Flat(parts[1..])
  }

  lemma {:induction false} FlatConcat(p: seq<seq<Byte>>, q: seq<seq<Byte>>)
    ensures Flat(p + q) == Flat(p) + Flat(q)
  {
    if p == [] {
      assert p + q == q;
    } else {
      assert (p + q)[1..] == p[1..] + q;
      FlatConcat(p[1..], q);
    }
  }

  lemma FlatNone()
    ensures Flat([]) == []
  {
  }

  lemma FlatSnoc(p: seq<seq<Byte>>, s: seq<Byte>)
    ensures Flat(p + [s]) == Flat(p) + s
  {
    FlatConcat(p, [s]);
    assert [s][1..] == [];
  }

  /** Parts of the same sizes. */
  predicate Alike(p: seq<seq<Byte>>, q: seq<seq<Byte>>) {
    |p| == |q| && forall i | 0 <= i < |p| :: |p[i]| == |q[i]|
  }

  lemma {:induction false} FlatAlike(p: seq<seq<Byte>>, q: seq<seq<Byte>>)
    requires Alike(p, q)
    ensures |Flat(p)| == |Flat(q)| && (Flat(p) == Flat(q) <==> p == q)
  {
    if p != [] {
      FlatAlike(p[1..], q[1..]);
      assert p == [p[0]] + p[1..] && q == [q[0]] + q[1..];
      if Flat(p) == Flat(q) {
        assert p[0] == Flat(p)[..|p[0]|] == q[0];
        assert Flat(p[1..]) == Flat(p)[|p[0]|..] == Flat(q[1..]);
      }
    }
  }

  /** Where part `i` starts. */
  function Start(parts: seq<seq<Byte>>, i: nat): nat
    requires i <= |parts|
  {
    |Flat(parts[..i])|
  }

  lemma StartStep(parts: seq<seq<Byte>>, i: nat)
    requires i < |parts|
    ensures Start(parts, i + 1) == Start(parts, i) + |parts[i]|
  {
    assert parts[..i + 1] == parts[..i] + [parts[i]];
    FlatSnoc(parts[..i], parts[i]);
  }

  lemma {:induction false} StartMonotonic(parts: seq<seq<Byte>>, i: nat, j: nat)
    requires i <= j <= |parts|
    ensures Start(parts, i) <= Start(parts, j) <= |Flat(parts)|
    decreases |parts| - i
  {
    if i == |parts| {
      assert parts[..i] == parts;
    } else if i == j {
      StartStep(parts, i);
      StartMonotonic(parts, i + 1, i + 1);
    } else {
      StartStep(parts, i);
      StartMonotonic(parts, i + 1, j);
    }
  }

  /** A part is found at its start. */
  lemma PartAt(parts: seq<seq<Byte>>, i: nat)
    requires i < |parts|
    ensures Start(parts, i) + |parts[i]| <= |Flat(parts)|
    ensures Flat(parts)[Start(parts, i)..Start(parts, i) + |parts[i]|] == parts[i]
  {
    assert parts == parts[..i] + ([parts[i]] + parts[i + 1..]);
    FlatConcat(parts[..i], [parts[i]] + parts[i + 1..]);
    FlatConcat([parts[i]], parts[i + 1..]);
    assert [parts[i]][1..] == [];
  }

  // ----- orders -----

  /** `order` lists the numbers below `n`, each once. */
  ghost predicate IsOrder(order: seq<nat>, n: nat) {
    && |order| == n
    && (forall k | 0 <= k < n :: order[k] < n)
    && (forall k, l | 0 <= k < l < n :: order[k] != order[l])
    && (forall j | 0 <= j < n :: j in order)
  }

  function Ordered<T>(parts: seq<T>, order: seq<nat>): (r: seq<T>)
    requires forall k | 0 <= k < |order| :: order[k] < |parts|
    ensures |r| == |order| && forall k | 0 <= k < |order| :: r[k] == parts[order[k]]
  {
    seq(|order|, k requires 0 <= k < |order| => parts[order[k]])
  }

  /** Reordering loses nothing. */
  lemma OrderedInjective<T>(p: seq<T>, q: seq<T>, order: seq<nat>)
    requires |p| == |q| && IsOrder(order, |p|)
    ensures Ordered(p, order) == Ordered(q, order) <==> p == q
  {
    if Ordered(p, order) == Ordered(q, order) {
      forall j | 0 <= j < |p| ensures p[j] == q[j] {
        assert j in order;
        var k :| 0 <= k < |order| && order[k] == j;
        assert Ordered(p, order)[k] == Ordered(q, order)[k];
      }
    }
  }

  // ----- masks -----

  function And(s: seq<Byte>, m: seq<Byte>): (r: seq<Byte>)
    requires |s| == |m|
    ensures |r| == |s| && forall i | 0 <= i < |s| :: r[i] == s[i] & m[i]
  {
    seq(|s|, i requires 0 <= i < |s| => s[i] & m[i])
  }

  function AndParts(p: seq<seq<Byte>>, m: seq<seq<Byte>>): (r: seq<seq<Byte>>)
    requires Alike(p, m)
    ensures |r| == |p| && forall i | 0 <= i < |p| :: r[i] == And(p[i], m[i])
  {
    seq(|p|, i requires 0 <= i < |p| => And(p[i], m[i]))
  }

  lemma AndConcat(s: seq<Byte>, m: seq<Byte>, t: seq<Byte>, n: seq<Byte>)
    requires |s| == |m| && |t| == |n|
    ensures And(s + t, m + n) == And(s, m) + And(t, n)
  {
  }

  /** A mask applies to each part by itself. */
  lemma {:induction false} AndFlat(p: seq<seq<Byte>>, m: seq<seq<Byte>>)
    requires Alike(p, m)
    ensures |Flat(p)| == |Flat(m)| && And(Flat(p), Flat(m)) == Flat(AndParts(p, m))
  {
    FlatAlike(p, m);
    if p != [] {
      AndFlat(p[1..], m[1..]);
      AndConcat(p[0], m[0], Flat(p[1..]), Flat(m[1..]));
      assert AndParts(p, m) == [And(p[0], m[0])] + AndParts(p[1..], m[1..]);
    }
  }

  function Full(n: nat): (r: seq<Byte>)
    ensures |r| == n && forall i | 0 <= i < n :: r[i] == 0xff
  {
    seq(n, _ => 0xff)
  }

  lemma AndFull(s: seq<Byte>)
    ensures And(s, Full(|s|)) == s
  {
    forall i | 0 <= i < |s| ensures s[i] & 0xff == s[i] {
      FullByte(s[i]);
    }
  }

  lemma FullByte(b: Byte)
    ensures b & 0xff == b
  {
  }

  // ----- masks of prefixes -----

  /** `create_mask_from_pref_len`. */
  method CreateMask(prefixLength: nat, size: nat) returns (mask: seq<Byte>)
    requires prefixLength <= 8 * size
    ensures mask == PrefixMask(prefixLength, size)
  {
    var a := new Byte[size](_ => 0);
    for i := 0 to prefixLength / 8
      invariant forall k | 0 <= k < size :: a[k] == if k < i then 0xff else 0
    {
      a[i] := 0xff;
    }
    if prefixLength % 8 != 0 {
      a[prefixLength / 8] := Shl(0xff, 8 - prefixLength % 8);
    }
    mask := a[..];
  }

  /** The first `n` bits are set. */
  function PrefixMask(n: nat, size: nat): (r: seq<Byte>)
    requires n <= 8 * size
    ensures |r| == size && forall i | 0 <= i < size :: r[i] == PrefixMaskByte(n, i)
  {
    seq(size, i requires 0 <= i < size => PrefixMaskByte(n, i))
  }

  function PrefixMaskByte(n: nat, i: nat): Byte {
    if i < n / 8 then 0xff else if i == n / 8 && n % 8 != 0 then Shl(0xff, 8 - n % 8) else 0
  }

  lemma AndBit(s: seq<Byte>, m: seq<Byte>, k: nat)
    requires |s| == |m| && k < 8 * |s|
    ensures BytesBits(And(s, m))[k] == (BytesBits(s)[k] && BytesBits(m)[k])
  {
    hide BytesBits, Bit;
    BytesBitsAt(And(s, m), k);
    BytesBitsAt(s, k);
    BytesBitsAt(m, k);
    AndAt(s[k / 8], m[k / 8], k % 8);
  }

  /** Under a mask, two strings are the same if their bits are where the mask has ones. */
  lemma AndSame(s: seq<Byte>, t: seq<Byte>, m: seq<Byte>)
    requires |s| == |t| == |m|
    ensures And(s, m) == And(t, m) ==>
              forall k | 0 <= k < 8 * |s| && BytesBits(m)[k] :: BytesBits(s)[k] == BytesBits(t)[k]
    ensures (forall k | 0 <= k < 8 * |s| && BytesBits(m)[k] :: BytesBits(s)[k] == BytesBits(t)[k]) ==>
              And(s, m) == And(t, m)
  {
    hide BytesBits, And;
    forall k | 0 <= k < 8 * |s|
      ensures BytesBits(And(s, m))[k] == (BytesBits(s)[k] && BytesBits(m)[k])
      ensures BytesBits(And(t, m))[k] == (BytesBits(t)[k] && BytesBits(m)[k])
    {
      AndBit(s, m, k);
      AndBit(t, m, k);
    }
    MaskedSame(BytesBits(s), BytesBits(t), BytesBits(m), BytesBits(And(s, m)), BytesBits(And(t, m)));
    if BytesBits(And(s, m)) == BytesBits(And(t, m)) {
      BytesBitsInjective(And(s, m), And(t, m));
    }
  }

  lemma MaskedSame(x: seq<bool>, y: seq<bool>, m: seq<bool>, a: seq<bool>, b: seq<bool>)
    requires |x| == |y| == |m| == |a| == |b|
    requires forall k | 0 <= k < |x| :: a[k] == (x[k] && m[k]) && b[k] == (y[k] && m[k])
    ensures a == b ==> forall k | 0 <= k < |x| && m[k] :: x[k] == y[k]
    ensures (forall k | 0 <= k < |x| && m[k] :: x[k] == y[k]) ==> a == b
  {
    if a == b {
      forall k | 0 <= k < |x| && m[k] ensures x[k] == y[k] {
        assert a[k] == b[k];
      }
    }
  }

  lemma PrefixMaskBit(n: nat, size: nat, k: nat)
    requires n <= 8 * size && k < 8 * size
    ensures BytesBits(PrefixMask(n, size))[k] == (k < n)
  {
    hide BytesBits, Bit, Shl;
    BytesBitsAt(PrefixMask(n, size), k);
    ShlBit(0xff, 8 - n % 8, k % 8);
    AllOnes(k % 8);
    NoOnes(k % 8);
    if k % 8 + 8 - n % 8 < 8 {
      AllOnes(k % 8 + 8 - n % 8);
    }
  }

  lemma NoOnes(j: nat)
    requires j < 8
    ensures !Bit(0, j)
  {
  }

  /** Comparing under the mask of a prefix is comparing the prefix. */
  lemma PrefixMaskCompares(a: seq<Byte>, b: seq<Byte>, n: nat)
    requires |a| == |b| && n <= 8 * |a|
    ensures And(a, PrefixMask(n, |a|)) == And(b, PrefixMask(n, |a|)) <==> BytesBits(a)[..n] == BytesBits(b)[..n]
  {
    hide BytesBits, And, PrefixMask;
    var m := PrefixMask(n, |a|);
    forall k | 0 <= k < 8 * |a|
      ensures BytesBits(And(a, m))[k] == (BytesBits(a)[k] && k < n)
      ensures BytesBits(And(b, m))[k] == (BytesBits(b)[k] && k < n)
    {
      AndBit(a, m, k);
      AndBit(b, m, k);
      PrefixMaskBit(n, |a|, k);
    }
    if And(a, m) == And(b, m) {
      forall k | 0 <= k < n ensures BytesBits(a)[k] == BytesBits(b)[k] {
      }
    }
    if BytesBits(a)[..n] == BytesBits(b)[..n] {
      forall k | 0 <= k < 8 * |a| ensures BytesBits(And(a, m))[k] == BytesBits(And(b, m))[k] {
        if k < n {
          assert BytesBits(a)[..n][k] == BytesBits(b)[..n][k];
        }
      }
      BytesBitsInjective(And(a, m), And(b, m));
    }
  }

  // ----- from a mask back to the length of the prefix -----

  /** The parallel count of the bits of a byte. */
  function PopCount(b: Byte): Byte {
    var c1 := b - ((b >> 1) & 0x55);
    var c2 := (c1 & 0x33) + ((c1 >> 2) & 0x33);
    (c2 + (c2 >> 4)) & 0x0f
  }

  /** `pref_len_from_mask`. */
  method PrefLenFromMask(mask: seq<Byte>) returns (pref: nat)
    ensures pref == PrefLen(mask)
  {
    pref := 0;
    for i := 0 to |mask|
      invariant pref + PrefLen(mask[i..]) == PrefLen(mask)
    {
      assert mask[i..][0] == mask[i] && mask[i..][1..] == mask[i + 1..];
      if mask[i] == 0xff {
        pref := pref + 8;
      } else {
        pref := pref + AsWord(PopCount(mask[i]));
      }
    }
  }

  function PrefLen(mask: seq<Byte>): nat {
    if mask == [] then 0
    else (if mask[0] == 0xff then 8 else AsWord(PopCount(mask[0]))) + PrefLen(mask[1..])
  }

  lemma PrefixMaskTail(n: nat, size: nat)
    requires n <= 8 * size && size > 0
    ensures n >= 8 ==> PrefixMask(n, size) == [0xff] + PrefixMask(n - 8, size - 1)
    ensures n < 8 ==> PrefixMask(n, size) == [if n == 0 then 0 else Shl(0xff, 8 - n)] + PrefixMask(0, size - 1)
  {
    hide Shl;
  }

  lemma {:induction false} PrefLenOfMask(n: nat, size: nat)
    requires n <= 8 * size
    ensures PrefLen(PrefixMask(n, size)) == n
  {
    hide PrefixMask, PopCount, AsWord, Shl;
    if size > 0 {
      var rest := if n >= 8 then n - 8 else 0;
      PrefixMaskTail(n, size);
      PrefLenOfMask(rest, size - 1);
      assert PrefixMask(n, size)[1..] == PrefixMask(rest, size - 1);
      if n < 8 {
        PartialByte(n);
      }
    }
  }

  lemma PartialByte(r: nat)
    requires r < 8
    ensures var b := if r == 0 then 0 else Shl(0xff, 8 - r); b != 0xff && AsWord(PopCount(b)) == r
  {
    hide AsWord;
    PopCountPartial(r);
    SmallWord(r);
  }

  /** The number `r` as a byte. */
  function Small(r: nat): Byte
    requires r < 8
  {
    match r
    case 0 => 0
    case 1 => 1
    case 2 => 2
    case 3 => 3
    case 4 => 4
    case 5 => 5
    case 6 => 6
    case _ => 7
  }

  lemma PopCountPartial(r: nat)
    requires r < 8
    ensures var b := if r == 0 then 0 else Shl(0xff, 8 - r); b != 0xff && PopCount(b) == Small(r)
  {
    match r
    case 0 =>
    case 1 => assert Shl(0xff, 7) == 0x80;
    case 2 => assert Shl(0xff, 6) == 0xc0;
    case 3 => assert Shl(0xff, 5) == 0xe0;
    case 4 => assert Shl(0xff, 4) == 0xf0;
    case 5 => assert Shl(0xff, 3) == 0xf8;
    case 6 => assert Shl(0xff, 2) == 0xfc;
    case _ => assert Shl(0xff, 1) == 0xfe;
  }

  lemma SmallWord(r: nat)
    requires r < 8
    ensures AsWord(Small(r)) == r
  {
    ByteValue(Small(r));
  }

  lemma ByteValue(b: Byte)
    requires !Bit(b, 0) && !Bit(b, 1) && !Bit(b, 2) && !Bit(b, 3) && !Bit(b, 4)
    ensures AsWord(b) == (if Bit(b, 5) then 4 else 0) + (if Bit(b, 6) then 2 else 0) + (if Bit(b, 7) then 1 else 0)
  {
    hide Bit;
    var s := ByteBits(b);
    assert s == Zeros(5) + s[5..];
    ValueZeros(5, s[5..]);
    assert s[5..][..2] == s[5..7] && s[5..7][..1] == [s[5]] && [s[5]][..0] == [];
    assert Value([s[5]]) == if s[5] then 1 else 0;
    assert Value(s[5..7]) == 2 * Value([s[5]]) + if s[6] then 1 else 0;
  }

  // ----- parameters of a match -----

  /** `get_byte0_mask`. */
  function Byte0Mask(nbits: nat): Byte {
    if nbits % 8 == 0 then 0xff else Shl(1, nbits % 8) - 1
  }

  /** What `match_params_sanity_check` asks of one parameter. */
  predicate Sane(p: Param, f: KeyField) {
    && p.mtype == f.mtype && |p.key| == NBytes(f.nbits)
    && (p.mtype == LPM ==> 0 <= p.prefixLength <= f.nbits)
    && (p.mtype == TERNARY ==> |p.mask| == NBytes(f.nbits))
  }

  lemma SaneIff(p: Param, f: KeyField)
    ensures Sane(p, f) <==>
            && p.mtype == f.mtype && |p.key| == NBytes(f.nbits)
            && (f.mtype == LPM ==> 0 <= p.prefixLength <= f.nbits)
            && (f.mtype == TERNARY ==> |p.mask| == NBytes(f.nbits))
  {
  }

  predicate AllSane(params: seq<Param>, fields: seq<KeyField>) {
    |params| == |fields| && forall i | 0 <= i < |fields| :: fields[i].nbits > 0 && Sane(params[i], fields[i])
  }

  /** The bytes of a parameter without the bits in front of the field. */
  function Normal(p: Param, f: KeyField): (r: seq<Byte>)
    requires f.nbits > 0 && Sane(p, f)
    ensures |r| == NBytes(f.nbits)
  {
    p.key[0 := p.key[0] & Byte0Mask(f.nbits)]
  }

  function Normals(params: seq<Param>, fields: seq<KeyField>): (r: seq<seq<Byte>>)
    requires AllSane(params, fields)
    ensures |r| == |fields| && forall i | 0 <= i < |fields| :: r[i] == Normal(params[i], fields[i])
  {
    seq(|fields|, i requires 0 <= i < |fields| => Normal(params[i], fields[i]))
  }

  /** The mask that a parameter stands for in a ternary key. */
  function MaskOf(p: Param, f: KeyField): (r: seq<Byte>)
    requires f.nbits > 0 && Sane(p, f)
    ensures |r| == NBytes(f.nbits)
  {
    match p.mtype
    case LPM => PrefixMask(p.prefixLength, |p.key|)
    case TERNARY => p.mask
    case _ => Full(|p.key|)
  }

  function MasksOf(params: seq<Param>, fields: seq<KeyField>): (r: seq<seq<Byte>>)
    requires AllSane(params, fields)
    ensures |r| == |fields| && forall i | 0 <= i < |fields| :: r[i] == MaskOf(params[i], fields[i])
  {
    seq(|fields|, i requires 0 <= i < |fields| => MaskOf(params[i], fields[i]))
  }

  /** The bits that a parameter adds to the length of a prefix. */
  function PrefixBits(p: Param, f: KeyField): (n: nat)
    requires f.nbits > 0 && Sane(p, f)
    ensures n <= 8 * |p.key|
  {
    if p.mtype == LPM then p.prefixLength else 8 * |p.key|
  }

  function PrefixBitsAll(params: seq<Param>, fields: seq<KeyField>): (r: seq<nat>)
    requires AllSane(params, fields)
    ensures |r| == |fields| && forall i | 0 <= i < |fields| :: r[i] == PrefixBits(params[i], fields[i])
  {
    seq(|fields|, i requires 0 <= i < |fields| => PrefixBits(params[i], fields[i]))
  }

  function Sum(s: seq<nat>): nat {
    if s == [] then 0 else s[0] + Sum(s[1..])
  }

  lemma {:induction false} SumConcat(s: seq<nat>, t: seq<nat>)
    ensures Sum(s + t) == Sum(s) + Sum(t)
  {
    if s == [] {
      assert s + t == t;
    } else {
      assert (s + t)[1..] == s[1..] + t;
      SumConcat(s[1..], t);
    }
  }

  lemma SumSnoc(s: seq<nat>, x: nat)
    ensures Sum(s + [x]) == Sum(s) + x
  {
    SumConcat(s, [x]);
    assert [x][1..] == [];
  }

  lemma Byte0MaskClears(b: Byte, n: nat, j: nat)
    requires n > 0 && j < 8
    ensures Bit(b & Byte0Mask(n), j) == (j >= Pad(n) && Bit(b, j))
  {
    hide Bit, Shl;
    AndAt(b, Byte0Mask(n), j);
    Byte0MaskAt(n % 8, j);
    AllOnes(j);
  }

  lemma Byte0MaskAt(r: nat, j: nat)
    requires 0 <= r < 8 && j < 8
    ensures r > 0 ==> Bit(Shl(1, r) - 1, j) == (j >= 8 - r)
  {
    match r
    case 0 =>
    case 1 => assert Shl(1, 1) - 1 == 0x01;
    case 2 => assert Shl(1, 2) - 1 == 0x03;
    case 3 => assert Shl(1, 3) - 1 == 0x07;
    case 4 => assert Shl(1, 4) - 1 == 0x0f;
    case 5 => assert Shl(1, 5) - 1 == 0x1f;
    case 6 => assert Shl(1, 6) - 1 == 0x3f;
    case _ => assert Shl(1, 7) - 1 == 0x7f;
  }

  /** Normalising clears the padding and keeps the field. */
  lemma NormalBits(p: Param, f: KeyField, k: nat)
    requires f.nbits > 0 && Sane(p, f) && k < 8 * NBytes(f.nbits)
    ensures BytesBits(Normal(p, f))[k] == (k >= Pad(f.nbits) && BytesBits(p.key)[k])
  {
    hide BytesBits, Bit, Byte0Mask;
    BytesBitsAt(Normal(p, f), k);
    BytesBitsAt(p.key, k);
    Byte0MaskClears(p.key[0], f.nbits, k % 8);
  }
}
