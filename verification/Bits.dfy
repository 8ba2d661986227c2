/** Bytes and the bits in them, most significant first, as the network sends them. */
module Bits {

  type Byte = bv8

  function Bit(b: Byte, i: nat): bool
    requires i < 8
  {
    match i
    case 0 => b & 0x80 != 0
    case 1 => b & 0x40 != 0
    case 2 => b & 0x20 != 0
    case 3 => b & 0x10 != 0
    case 4 => b & 0x08 != 0
    case 5 => b & 0x04 != 0
    case 6 => b & 0x02 != 0
    case _ => b & 0x01 != 0
  }

  function ByteBits(b: Byte): (r: seq<bool>)
    ensures |r| == 8 && forall i | 0 <= i < 8 :: r[i] == Bit(b, i)
  {
    seq(8, i requires 0 <= i < 8 => Bit(b, i))
  }

  lemma ByteBitsInjective(a: Byte, b: Byte)
    requires ByteBits(a) == ByteBits(b)
    ensures a == b
  {
    SameBits(a, b, ByteBits(a));
  }

  lemma SameBits(a: Byte, b: Byte, s: seq<bool>)
    requires |s| == 8 && forall i | 0 <= i < 8 :: s[i] == Bit(a, i) && s[i] == Bit(b, i)
    ensures a == b
  {
    assert Bit(a, 0) == Bit(b, 0) && Bit(a, 1) == Bit(b, 1) && Bit(a, 2) == Bit(b, 2) && Bit(a, 3) == Bit(b, 3);
    assert Bit(a, 4) == Bit(b, 4) && Bit(a, 5) == Bit(b, 5) && Bit(a, 6) == Bit(b, 6) && Bit(a, 7) == Bit(b, 7);
  }

  function Zeros(n: nat): (r: seq<bool>)
    ensures |r| == n && forall i | 0 <= i < n :: !r[i]
  {
    seq(n, _ => false)
  }

  /** C's shifts of a byte stored back into a byte, one place at a time. */
  function Shl(b: Byte, o: nat): Byte {
    if o == 0 then b else Shl(b, o - 1) << 1
  }

  function Shr(b: Byte, o: nat): Byte {
    if o == 0 then b else Shr(b, o - 1) >> 1
  }

  lemma ShiftOne(b: Byte, i: nat)
    requires i < 8
    ensures Bit(b << 1, i) == (i < 7 && Bit(b, i + 1))
    ensures Bit(b >> 1, i) == (i > 0 && Bit(b, i - 1))
  {
  }

  lemma {:induction false} ShlBit(b: Byte, o: nat, i: nat)
    requires i < 8
    ensures Bit(Shl(b, o), i) == (i + o < 8 && Bit(b, i + o))
  {
    hide Bit;
    if o > 0 {
      ShiftOne(Shl(b, o - 1), i);
      if i < 7 {
        ShlBit(b, o - 1, i + 1);
      }
    }
  }

  lemma {:induction false} ShrBit(b: Byte, o: nat, i: nat)
    requires i < 8
    ensures Bit(Shr(b, o), i) == (i >= o && Bit(b, i - o))
  {
    hide Bit;
    if o > 0 {
      ShiftOne(Shr(b, o - 1), i);
      if i > 0 {
        ShrBit(b, o - 1, i - 1);
      }
    }
  }

  lemma ShrBits(b: Byte, o: nat)
    requires o <= 8
    ensures ByteBits(Shr(b, o)) == Zeros(o) + ByteBits(b)[..8 - o]
  {
    hide Bit;
    forall i | 0 <= i < 8 ensures Bit(Shr(b, o), i) == (Zeros(o) + ByteBits(b)[..8 - o])[i] {
      ShrBit(b, o, i);
    }
  }

  /** The bitwise operators act on each bit by itself. */
  lemma AndAt(a: Byte, b: Byte, i: nat)
    requires i < 8
    ensures Bit(a & b, i) == (Bit(a, i) && Bit(b, i))
  {
  }

  lemma OrAt(a: Byte, b: Byte, i: nat)
    requires i < 8
    ensures Bit(a | b, i) == (Bit(a, i) || Bit(b, i))
  {
  }

  lemma NotAt(a: Byte, i: nat)
    requires i < 8
    ensures Bit(!a, i) == !Bit(a, i)
  {
  }

  function BytesBits(s: seq<Byte>): (r: seq<bool>)
    ensures |r| == 8 * |s|
  {
    if s == [] then [] else ByteBits(s[0]) + BytesBits(s[1..])
  }

  lemma {:induction false} BytesBitsAt(s: seq<Byte>, i: nat)
    requires i < 8 * |s|
    ensures BytesBits(s)[i] == ByteBits(s[i / 8])[i % 8]
  {
    if i >= 8 {
      BytesBitsAt(s[1..], i - 8);
      assert BytesBits(s)[i] == BytesBits(s[1..])[i - 8];
      assert s[1..][(i - 8) / 8] == s[i / 8];
    }
  }

  lemma {:induction false} BytesBitsConcat(s: seq<Byte>, t: seq<Byte>)
    ensures BytesBits(s + t) == BytesBits(s) + BytesBits(t)
  {
    if s == [] {
      assert s + t == t;
    } else {
      assert (s + t)[1..] == s[1..] + t;
      BytesBitsConcat(s[1..], t);
    }
  }

  lemma BytesBitsTake(s: seq<Byte>, n: nat)
    requires n <= |s|
    ensures BytesBits(s[..n]) == BytesBits(s)[..8 * n] && BytesBits(s[n..]) == BytesBits(s)[8 * n..]
  {
    assert s == s[..n] + s[n..];
    BytesBitsConcat(s[..n], s[n..]);
  }

  lemma {:induction false} BytesBitsInjective(s: seq<Byte>, t: seq<Byte>)
    requires BytesBits(s) == BytesBits(t)
    ensures s == t
  {
    if s != [] && t != [] {
      assert BytesBits(s)[..8] == ByteBits(s[0]) && BytesBits(t)[..8] == ByteBits(t[0]);
      ByteBitsInjective(s[0], t[0]);
      assert BytesBits(s)[8..] == BytesBits(s[1..]) && BytesBits(t)[8..] == BytesBits(t[1..]);
      BytesBitsInjective(s[1..], t[1..]);
    }
  }

  /** The byte with the given bits. */
  function ByteOf(s: seq<bool>): Byte
    requires |s| == 8
  {
      (if s[0] then 0x80 else 0) | (if s[1] then 0x40 else 0) | (if s[2] then 0x20 else 0) | (if s[3] then 0x10 else 0)
    | (if s[4] then 0x08 else 0) | (if s[5] then 0x04 else 0) | (if s[6] then 0x02 else 0) | (if s[7] then 0x01 else 0)
  }

  lemma ByteOfBits(s: seq<bool>)
    requires |s| == 8
    ensures ByteBits(ByteOf(s)) == s
  {
    var b := ByteOf(s);
    hide ByteOf;
    forall i | 0 <= i < 8 ensures Bit(b, i) == s[i] {
      ByteOfBit(s, i);
    }
  }

  lemma ByteOfBit(s: seq<bool>, i: nat)
    requires |s| == 8 && i < 8
    ensures Bit(ByteOf(s), i) == s[i]
  {
  }

  /** The bytes with the given bits. */
  function ToBytes(bits: seq<bool>): (r: seq<Byte>)
    requires |bits| % 8 == 0
    ensures 8 * |r| == |bits| && BytesBits(r) == bits
  {
    if bits == [] then [] else
      var b := ByteOf(bits[..8]);
      ByteOfBits(bits[..8]);
      [b] + ToBytes(bits[8..])
  }

  /** Every string of bits is the start of a string of bytes. */
  lemma {:induction false} AnyBits(s: seq<bool>) returns (bytes: seq<Byte>)
    ensures |s| <= 8 * |bytes| && BytesBits(bytes)[..|s|] == s
  {
    if |s| <= 8 {
      bytes := [ByteOf(s + Zeros(8 - |s|))];
      ByteOfBits(s + Zeros(8 - |s|));
      assert BytesBits(bytes[1..]) == [];
    } else {
      var rest := AnyBits(s[8..]);
      bytes := [ByteOf(s[..8])] + rest;
      ByteOfBits(s[..8]);
      assert bytes[1..] == rest;
      assert s == s[..8] + s[8..];
    }
  }

  // ----- numbers -----

  function Pow2(n: nat): nat {
    if n == 0 then 1 else 2 * Pow2(n - 1)
  }

  /** The number that a string of bits is. */
  function Value(s: seq<bool>): nat {
    if s == [] then 0 else 2 * Value(s[..|s| - 1]) + if s[|s| - 1] then 1 else 0
  }

  lemma {:induction false} ValueBound(s: seq<bool>)
    ensures Value(s) < Pow2(|s|)
  {
    if s != [] {
      ValueBound(s[..|s| - 1]);
    }
  }

  lemma {:induction false} ValueInjective(s: seq<bool>, t: seq<bool>)
    requires |s| == |t| && Value(s) == Value(t)
    ensures s == t
  {
    if s != [] {
      var k := |s| - 1;
      ValueInjective(s[..k], t[..k]);
      assert s == s[..k] + [s[k]] && t == t[..k] + [t[k]];
    }
  }

  lemma {:induction false} ValueZeros(k: nat, s: seq<bool>)
    ensures Value(Zeros(k) + s) == Value(s)
    decreases k + |s|
  {
    var z := Zeros(k) + s;
    if s != [] {
      assert z[..|z| - 1] == Zeros(k) + s[..|s| - 1];
      ValueZeros(k, s[..|s| - 1]);
    } else if k > 0 {
      assert z[..|z| - 1] == Zeros(k - 1) + s;
      ValueZeros(k - 1, s);
    }
  }

  /** The `n` bits of a number below `2^n`. */
  function BitsOfNumber(w: nat, n: nat): (s: seq<bool>)
    ensures |s| == n
  {
    if n == 0 then [] else BitsOfNumber(w / 2, n - 1) + [w % 2 == 1]
  }

  lemma {:induction false} ValueOfNumber(w: nat, n: nat)
    requires w < Pow2(n)
    ensures Value(BitsOfNumber(w, n)) == w
  {
    if n > 0 {
      ValueOfNumber(w / 2, n - 1);
      var s := BitsOfNumber(w, n);
      assert s[..n - 1] == BitsOfNumber(w / 2, n - 1);
    }
  }

  /** Arrays are indexed by machine words. */
  type Word = nat

  /** The number that a byte is. */
  function AsWord(b: Byte): (r: Word)
    ensures r < 256
  {
    ValueBound(ByteBits(b));
    assert Pow2(8) == 256;
    Value(ByteBits(b))
  }

  lemma AsWordInjective(b: Byte, c: Byte)
    requires AsWord(b) == AsWord(c)
    ensures b == c
  {
    hide Value;
    ValueInjective(ByteBits(b), ByteBits(c));
    ByteBitsInjective(b, c);
  }

  /** Every number below 256 is a byte. */
  function ByteOfWord(w: Word): (b: Byte)
    requires w < 256
    ensures AsWord(b) == w
  {
    assert Pow2(8) == 256;
    ValueOfNumber(w, 8);
    ByteOfBits(BitsOfNumber(w, 8));
    ByteOf(BitsOfNumber(w, 8))
  }

  function Words(s: seq<Byte>): (r: seq<Word>)
    ensures |r| == |s| && forall i | 0 <= i < |s| :: r[i] == AsWord(s[i])
  {
    seq(|s|, i requires 0 <= i < |s| => AsWord(s[i]))
  }

  lemma WordsInjective(s: seq<Byte>, t: seq<Byte>)
    requires Words(s) == Words(t)
    ensures s == t
  {
    hide AsWord;
    forall i | 0 <= i < |s| ensures s[i] == t[i] {
      assert Words(s)[i] == Words(t)[i];
      AsWordInjective(s[i], t[i]);
    }
  }
}
