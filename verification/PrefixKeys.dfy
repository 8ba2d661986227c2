/** Bit-prefixes, and the slot of the trie that stores one: the node reached by its
    whole bytes, and within the node a key for the 0 to 7 bits that remain. */
module PrefixKeys {
  import opened Bits

  type Path = seq<Word>

  datatype Slot = Slot(path: Path, key: Word)

  /** `get_prefix_key`: the residue's value, tagged with its length. */
  function PrefixKey(len: nat, b: Byte): Word
    requires len < 8
  {
    if len == 0 then 0 else AsWord(Shr(b, 8 - len)) + 256 * len
  }

  lemma ShrSame(b: Byte, c: Byte, len: nat)
    requires len <= 8
    ensures Shr(b, 8 - len) == Shr(c, 8 - len) <==> ByteBits(b)[..len] == ByteBits(c)[..len]
  {
    hide ByteBits, Bit, Shr;
    ShrBits(b, 8 - len);
    ShrBits(c, 8 - len);
    var sb, sc := ByteBits(Shr(b, 8 - len)), ByteBits(Shr(c, 8 - len));
    assert sb[8 - len..] == ByteBits(b)[..len] && sc[8 - len..] == ByteBits(c)[..len];
    if ByteBits(b)[..len] == ByteBits(c)[..len] {
      ByteBitsInjective(Shr(b, 8 - len), Shr(c, 8 - len));
    }
  }

  /** Keys tell residues of different lengths and of different bits apart. */
  lemma PrefixKeySame(l: nat, b: Byte, m: nat, c: Byte)
    requires l < 8 && m < 8
    ensures PrefixKey(l, b) == PrefixKey(m, c) <==> l == m && ByteBits(b)[..l] == ByteBits(c)[..m]
  {
    hide AsWord, Shr, ByteBits;
    if l == m && l > 0 {
      ShrSame(b, c, l);
      if PrefixKey(l, b) == PrefixKey(m, c) {
        AsWordInjective(Shr(b, 8 - l), Shr(c, 8 - l));
      }
    }
  }

  /** The first `n` bits of `bytes`: what a caller of the trie passes. */
  function BitsOf(bytes: seq<Byte>, n: nat): seq<bool>
    requires n <= 8 * |bytes|
  {
    BytesBits(bytes)[..n]
  }

  function SlotOf(bytes: seq<Byte>, n: nat): Slot
    requires n <= 8 * |bytes|
  {
    Slot(Words(bytes[..n / 8]), if n % 8 == 0 then 0 else PrefixKey(n % 8, bytes[n / 8]))
  }

  lemma BitsOfParts(bytes: seq<Byte>, n: nat)
    requires n <= 8 * |bytes|
    ensures BitsOf(bytes, n)[..8 * (n / 8)] == BytesBits(bytes[..n / 8])
    ensures n % 8 != 0 ==> BitsOf(bytes, n)[8 * (n / 8)..] == ByteBits(bytes[n / 8])[..n % 8]
  {
    var q := n / 8;
    BytesBitsTake(bytes, q);
    assert BitsOf(bytes, n)[..8 * q] == BytesBits(bytes)[..8 * q];
    if n % 8 != 0 {
      assert BytesBits(bytes[q..])[..8] == ByteBits(bytes[q]);
      assert BitsOf(bytes, n)[8 * q..] == BytesBits(bytes)[8 * q..][..n % 8];
    }
  }

  /** Two prefixes have the same slot exactly when they are the same bits. */
  lemma SlotSame(x: seq<Byte>, n: nat, y: seq<Byte>, m: nat)
    requires n <= 8 * |x| && m <= 8 * |y|
    ensures SlotOf(x, n) == SlotOf(y, m) <==> BitsOf(x, n) == BitsOf(y, m)
  {
    hide PrefixKey, ByteBits, BytesBits;
    BitsOfParts(x, n);
    BitsOfParts(y, m);
    var xb := if n % 8 == 0 then 0 else x[n / 8];
    var yb := if m % 8 == 0 then 0 else y[m / 8];
    KeyOfNothing(xb);
    KeyOfNothing(yb);
    PrefixKeySame(n % 8, xb, m % 8, yb);
    if SlotOf(x, n) == SlotOf(y, m) {
      assert n / 8 == m / 8 by { assert |Words(x[..n / 8])| == |Words(y[..m / 8])|; }
      assert n == m;
      WordsInjective(x[..n / 8], y[..m / 8]);
      Rejoin(BitsOf(x, n), BitsOf(y, m), 8 * (n / 8));
    }
    if BitsOf(x, n) == BitsOf(y, m) {
      BytesBitsInjective(x[..n / 8], y[..m / 8]);
    }
  }

  lemma KeyOfNothing(b: Byte)
    ensures PrefixKey(0, b) == 0
  {
  }

  lemma Rejoin<T>(s: seq<T>, t: seq<T>, k: nat)
    requires |s| == |t| && k <= |s| && s[..k] == t[..k] && (k < |s| ==> s[k..] == t[k..])
    ensures s == t
  {
    assert s == s[..k] + s[k..] && t == t[..k] + t[k..];
  }

  /** Keys that `get_prefix_key` can return, and paths of bytes. */
  ghost predicate ValidSlot(s: Slot) {
    exists bytes: seq<Byte>, n: nat :: n <= 8 * |bytes| && SlotOf(bytes, n) == s
  }

  lemma SlotIsValid(bytes: seq<Byte>, n: nat)
    requires n <= 8 * |bytes|
    ensures ValidSlot(SlotOf(bytes, n))
  {
  }

  // ----- how many keys and how many bytes there are -----

  lemma {:induction false} AtMost(s: set<int>, lo: int, hi: int)
    requires lo <= hi && forall x | x in s :: lo <= x < hi
    ensures |s| <= hi - lo
    decreases hi - lo
  {
    if lo == hi {
      assert s == {};
    } else {
      AtMost(s - {lo}, lo + 1, hi);
    }
  }

  ghost predicate IsKeyOf(k: Word, len: nat) {
    256 * len <= k < 256 * len + Pow2(len)
  }

  lemma KeyRange(len: nat, b: Byte)
    requires len < 8
    ensures IsKeyOf(PrefixKey(len, b), len)
  {
    hide AsWord;
    if len > 0 {
      SmallShift(b, len);
    }
  }

  lemma SmallShift(b: Byte, len: nat)
    requires len <= 8
    ensures AsWord(Shr(b, 8 - len)) < Pow2(len)
  {
    hide Value, ByteBits, Pow2;
    ShrBits(b, 8 - len);
    ValueZeros(8 - len, ByteBits(b)[..len]);
    ValueBound(ByteBits(b)[..len]);
  }

  ghost predicate ValidKey(k: Word, n: nat) {
    exists len: nat :: len < n && IsKeyOf(k, len)
  }

  lemma SlotRange(s: Slot)
    requires ValidSlot(s)
    ensures ValidKey(s.key, 8) && forall i | 0 <= i < |s.path| :: s.path[i] < 256
  {
    var bytes, n: nat :| n <= 8 * |bytes| && SlotOf(bytes, n) == s;
    var b := if n % 8 == 0 then 0 else bytes[n / 8];
    KeyOfNothing(b);
    KeyRange(n % 8, b);
  }

  /** A node stores at most 1 + 2 + 4 + ... + 128 prefixes, so its 8-bit counter of
      them never wraps. */
  lemma KeysAtMost(s: set<Word>)
    requires forall k | k in s :: ValidKey(k, 8)
    ensures |s| <= 255
  {
    KeysBelow(s, 8);
    assert Pow2(8) == 256;
  }

  lemma {:induction false} KeysBelow(s: set<Word>, n: nat)
    requires forall k | k in s :: ValidKey(k, n)
    ensures |s| <= Pow2(n) - 1
  {
    if n == 0 {
      forall k ensures !ValidKey(k, n) {
      }
      assert s == {};
    } else {
      var t := set k | k in s && IsKeyOf(k, n - 1);
      KeysBelow(s - t, n - 1);
      AtMost(set k | k in t, 256 * (n - 1), 256 * (n - 1) + Pow2(n - 1));
      assert t == set k | k in t;
      assert s == (s - t) + t;
    }
  }
}
