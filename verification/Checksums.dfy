/** The 16-bit checksum, computed in 64-bit lanes with end-around carry on a
    little-endian machine, and the IPv4 header checksum built on it. */
module Checksums {
  import opened Bits
  import opened Wrappers

  /** The number in memory at the start of `s`, least significant byte first. */
  function LittleEndian(s: seq<Byte>): nat {
    if s == [] then 0 else AsWord(s[0]) + 256 * LittleEndian(s[1..])
  }

  // ----- the reference: sections 1 and 2 of RFC 1071 -----

  /** Ones'-complement addition of 16-bit words. */
  function Add16(a: nat, b: nat): (r: nat)
    requires a < TWO16 && b < TWO16
    ensures r < TWO16
  {
    if a + b < TWO16 then a + b else a + b - 0xffff
  }

  /** The 16-bit words of a buffer; an odd last byte is padded with a zero byte. */
  function WordAt(buf: seq<Byte>, bigEndian: bool): (r: nat)
    requires buf != []
    ensures r < TWO16
  {
    var b0, b1 := AsWord(buf[0]), if |buf| > 1 then AsWord(buf[1]) else 0;
    if bigEndian then 256 * b0 + b1 else b0 + 256 * b1
  }

  function Rest(buf: seq<Byte>): seq<Byte>
    requires buf != []
  {
    if |buf| > 1 then buf[2..] else []
  }

  /** The ones'-complement sum of the words, one after the other. */
  function OnesSum(buf: seq<Byte>, bigEndian: bool): (r: nat)
    ensures r < TWO16
    decreases |buf|
  {
    if buf == [] then 0 else Add16(WordAt(buf, bigEndian), OnesSum(Rest(buf), bigEndian))
  }

  /** The plain sum of the words. */
  function Total(buf: seq<Byte>, bigEndian: bool): nat
    decreases |buf|
  {
    if buf == [] then 0 else WordAt(buf, bigEndian) + Total(Rest(buf), bigEndian)
  }

  // ----- numbers that a ones'-complement sum cannot tell apart -----

  /** Equal modulo 0xffff, and 0 together. */
  predicate Alike(x: nat, y: nat) {
    x % 0xffff == y % 0xffff && (x == 0 <==> y == 0)
  }

  lemma AlikeAdd(a: nat, b: nat, c: nat, d: nat)
    requires Alike(a, b) && Alike(c, d)
    ensures Alike(a + c, b + d)
  {
    ModAdd(a, c);
    ModAdd(b, d);
  }

  lemma ModAdd(a: nat, c: nat)
    ensures (a + c) % 0xffff == (a % 0xffff + c % 0xffff) % 0xffff
  {
  }

  /** Only one 16-bit number is alike to a given one. */
  lemma AlikeUnique(x: nat, y: nat, z: nat)
    requires x < TWO16 && y < TWO16 && Alike(x, z) && Alike(y, z)
    ensures x == y
  {
  }

  /** Folding at a power of 2^16 keeps a number alike to itself. */
  lemma AlikeFold(x: nat, y: nat, m: nat)
    requires m % 0xffff == 1 && m > 1
    ensures Alike(x + m * y, x + y)
  {
    var q := m / 0xffff;
    assert m == 0xffff * q + 1;
    assert x + m * y == (x + y) + 0xffff * (q * y) by {
      assert m * y == 0xffff * (q * y) + y;
    }
    ModMultiple(x + y, q * y);
  }

  lemma ModMultiple(a: nat, k: nat)
    ensures (a + 0xffff * k) % 0xffff == a % 0xffff
  {
  }

  lemma {:induction false} OnesSumIsTotal(buf: seq<Byte>, bigEndian: bool)
    ensures Alike(OnesSum(buf, bigEndian), Total(buf, bigEndian))
    decreases |buf|
  {
    if buf != [] {
      OnesSumIsTotal(Rest(buf), bigEndian);
      var w, r := WordAt(buf, bigEndian), OnesSum(Rest(buf), bigEndian);
      AlikeAdd(w, w, r, Total(Rest(buf), bigEndian));
      assert Alike(Add16(w, r), w + r) by {
        if w + r >= TWO16 {
          ModMultiple(Add16(w, r), 1);
        }
      }
    }
  }

  // ----- the lanes -----

  /** Adding two words of `m` values wraps around at most once. */
  function Wrap(x: nat, m: nat): (r: nat)
    requires x < 2 * m
    ensures r < m
  {
    if x < m then x else x - m
  }

  /** `sum += s; if (sum < s) sum++` on words of `m` values. */
  method AddLane(sum: nat, s: nat, m: nat) returns (r: nat)
    requires sum < m && s < m && m % 0xffff == 1 && m > 1
    ensures r < m && Alike(r, sum + s)
  {
    r := Wrap(sum + s, m);
    if r < s {
      r := r + 1;
      AlikeFold(r - 1, 1, m);
    }
  }

  /** A buffer of whole words, or of one byte, is a number alike to the plain sum of
      its 16-bit words. */
  lemma {:induction false} LaneIsTotal(s: seq<Byte>)
    requires |s| == 1 || |s| % 2 == 0
    ensures Alike(LittleEndian(s), Total(s, false))
    decreases |s|
  {
    if |s| == 1 {
      assert s[1..] == [];
    } else if |s| >= 2 {
      assert s[1..][1..] == s[2..];
      var w, r := WordAt(s, false), LittleEndian(s[2..]);
      assert LittleEndian(s) == w + TWO16 * r;
      LaneIsTotal(s[2..]);
      AlikeFold(w, r, TWO16);
      AlikeAdd(w, w, r, Total(s[2..], false));
    }
  }

  lemma {:induction false} TotalConcat(s: seq<Byte>, t: seq<Byte>, bigEndian: bool)
    requires |s| % 2 == 0
    ensures Total(s + t, bigEndian) == Total(s, bigEndian) + Total(t, bigEndian)
    decreases |s|
  {
    if s == [] {
      assert s + t == t;
    } else {
      assert (s + t)[2..] == s[2..] + t;
      TotalConcat(s[2..], t, bigEndian);
    }
  }

  lemma {:induction false} LittleEndianBound(s: seq<Byte>)
    ensures LittleEndian(s) < Pow2(8 * |s|)
  {
    if s != [] {
      LittleEndianBound(s[1..]);
      Pow2Sum(8, 8 * |s[1..]|);
      assert Pow2(8) == 256;
    }
  }

  lemma {:induction false} Pow2Sum(m: nat, n: nat)
    ensures Pow2(m + n) == Pow2(m) * Pow2(n)
  {
    if m > 0 {
      Pow2Sum(m - 1, n);
    }
  }

  lemma {:induction false} Pow2Monotonic(m: nat, n: nat)
    requires m <= n
    ensures Pow2(m) <= Pow2(n)
  {
    if m < n {
      Pow2Monotonic(m, n - 1);
    }
  }

  lemma LaneBound(s: seq<Byte>)
    requires |s| <= 8
    ensures LittleEndian(s) < TWO64
  {
    hide LittleEndian, Pow2;
    LittleEndianBound(s);
    Pow2Monotonic(8 * |s|, 64);
    Pow2Of64();
  }

  lemma Pow2Of64()
    ensures Pow2(64) == TWO64
  {
    assert Pow2(8) == 256;
    hide Pow2;
    Pow2Sum(8, 8);
    Pow2Sum(16, 16);
    Pow2Sum(32, 32);
  }

  /** Adds the lane of `n` bytes at `i` to a running sum of what comes before it. */
  method AddBytes(buf: seq<Byte>, i: nat, n: nat, sum: nat) returns (r: nat)
    requires (n == 8 || n == 4 || n == 2 || n == 1) && i + n <= |buf| && i % 2 == 0
    requires sum < TWO64 && Alike(sum, Total(buf[..i], false))
    ensures r < TWO64 && Alike(r, Total(buf[..i + n], false))
  {
    hide LittleEndian, Total, Alike;
    var s := LittleEndian(buf[i..i + n]);
    LaneBound(buf[i..i + n]);
    r := AddLane(sum, s, TWO64);
    LaneIsTotal(buf[i..i + n]);
    AlikeAdd(sum, Total(buf[..i], false), s, Total(buf[i..i + n], false));
    assert buf[..i + n] == buf[..i] + buf[i..i + n];
    TotalConcat(buf[..i], buf[i..i + n], false);
    AlikeTrans(r, sum + s, Total(buf[..i + n], false));
  }

  lemma AlikeTrans(x: nat, y: nat, z: nat)
    requires Alike(x, y) && Alike(y, z)
    ensures Alike(x, z)
  {
  }

  /** The sum in a 64-bit word: 8 bytes at a time, then the tail. */
  method SumLanes(buf: seq<Byte>) returns (sum: nat)
    ensures sum < TWO64 && Alike(sum, Total(buf, false))
  {
    hide Total, Alike, OnesSum, LittleEndian;
    var i: nat, len: nat := 0, |buf|;
    sum := 0;
    NothingSummed(buf);
    while len >= 8
      invariant i + len == |buf| && i % 2 == 0
      invariant sum < TWO64 && Alike(sum, Total(buf[..i], false))
    {
      sum := AddBytes(buf, i, 8, sum);
      i, len := i + 8, len - 8;
    }
    if len / 4 % 2 == 1 {
      sum := AddBytes(buf, i, 4, sum);
      i := i + 4;
    }
    if len / 2 % 2 == 1 {
      sum := AddBytes(buf, i, 2, sum);
      i := i + 2;
    }
    if len % 2 == 1 {
      sum := AddBytes(buf, i, 1, sum);
      i := i + 1;
    }
    assert buf[..i] == buf;
  }

  /** `cksum16`: the sum, folded to 16 bits and complemented. */
  method Cksum16(buf: seq<Byte>) returns (cksum: nat)
    ensures cksum == 0xffff - OnesSum(buf, false)
  {
    hide Total, Alike, OnesSum, LittleEndian;
    var sum := SumLanes(buf);
    var t1 := Fold(sum, TWO32);
    var t3 := Fold(t1, TWO16);
    AlikeTrans(t3, t1, sum);
    AlikeTrans(t3, sum, Total(buf, false));
    OnesSumIsTotal(buf, false);
    AlikeUnique(t3, OnesSum(buf, false), Total(buf, false));
    cksum := 0xffff - t3;
  }

  lemma NothingSummed(buf: seq<Byte>)
    ensures Alike(0, Total(buf[..0], false))
  {
  }

  /** The upper half added to the lower, with end-around carry. */
  method Fold(x: nat, m: nat) returns (r: nat)
    requires (m == TWO32 && x < TWO64) || (m == TWO16 && x < TWO32)
    ensures r < m && Alike(r, x)
  {
    hide Alike;
    r := AddLane(x % m, x / m, m);
    AlikeFold(x % m, x / m, m);
    AlikeSym(x % m + m * (x / m), x % m + x / m);
    AlikeTrans(r, x % m + x / m, x);
  }

  lemma AlikeSym(x: nat, y: nat)
    requires Alike(x, y)
    ensures Alike(y, x)
  {
  }

  // ----- the other byte order: section 2(B) of RFC 1071 -----

  /** `ntohs` on a little-endian machine. */
  function Swap(w: nat): (r: nat)
    requires w < TWO16
    ensures r < TWO16
  {
    256 * (w % 256) + w / 256
  }

  lemma SwapAlike(w: nat)
    requires w < TWO16
    ensures Alike(Swap(w), 256 * w) && Swap(0xffff - w) == 0xffff - Swap(w)
  {
    hide Alike;
    AlikeFold(256 * (w % 256), w / 256, TWO16);
    AlikeSym(256 * w, Swap(w));
    SwapParts(w % 256, w / 256);
    SwapParts(255 - w % 256, 255 - w / 256);
  }

  lemma SwapParts(low: nat, high: nat)
    requires low < 256 && high < 256
    ensures Swap(256 * high + low) == 256 * low + high
  {
    assert (256 * high + low) % 256 == low && (256 * high + low) / 256 == high;
  }

  lemma AlikeScale(x: nat, y: nat)
    requires Alike(x, y)
    ensures Alike(256 * x, 256 * y)
  {
    var p, q := x / 0xffff, y / 0xffff;
    ModMultiple(256 * (x % 0xffff), 256 * p);
    ModMultiple(256 * (y % 0xffff), 256 * q);
  }

  lemma {:induction false} TotalSwap(buf: seq<Byte>)
    ensures Alike(Total(buf, true), 256 * Total(buf, false))
    decreases |buf|
  {
    hide Alike, WordAt, Swap;
    if buf == [] {
      AlikeScale(0, 0);
    } else {
      var w, r := WordAt(buf, false), Rest(buf);
      TotalSwap(r);
      SwapAlike(w);
      SwapWord(buf);
      AlikeAdd(WordAt(buf, true), 256 * w, Total(r, true), 256 * Total(r, false));
    }
  }

  lemma SwapWord(buf: seq<Byte>)
    requires buf != []
    ensures Swap(WordAt(buf, false)) == WordAt(buf, true)
  {
  }

  /** The sum in the one byte order is the sum in the other with its bytes swapped. */
  lemma OnesSumSwap(buf: seq<Byte>)
    ensures OnesSum(buf, true) == Swap(OnesSum(buf, false))
  {
    hide OnesSum, Total, Swap, Alike;
    var w, t := OnesSum(buf, false), Total(buf, false);
    OnesSumIsTotal(buf, false);
    OnesSumIsTotal(buf, true);
    SwapAlike(w);
    AlikeScale(w, t);
    AlikeTrans(Swap(w), 256 * w, 256 * t);
    TotalSwap(buf);
    AlikeTrans(OnesSum(buf, true), Total(buf, true), 256 * t);
    AlikeUnique(Swap(w), OnesSum(buf, true), 256 * t);
  }

  /** The checksum as a P4 calculation returns it: a number, so in network order. */
  method CalculationCksum16(buf: seq<Byte>) returns (cksum: nat)
    ensures cksum == 0xffff - OnesSum(buf, true)
  {
    hide OnesSum, Swap;
    var t := Cksum16(buf);
    SwapAlike(OnesSum(buf, false));
    OnesSumSwap(buf);
    cksum := Swap(t);
  }

  // ----- a checksum stored in the buffer it is for -----

  /** The buffer with the two bytes at `i` replaced. */
  function WithField(buf: seq<Byte>, i: nat, b0: Byte, b1: Byte): (r: seq<Byte>)
    requires i + 2 <= |buf|
    ensures |r| == |buf|
  {
    buf[i := b0][i + 1 := b1]
  }

  lemma TotalWithField(buf: seq<Byte>, i: nat, b0: Byte, b1: Byte)
    requires i % 2 == 0 && i + 2 <= |buf|
    ensures Total(WithField(buf, i, b0, b1), false) ==
            Total(buf[..i], false) + Total([b0, b1], false) + Total(buf[i + 2..], false)
  {
    hide Total;
    assert WithField(buf, i, b0, b1) == buf[..i] + ([b0, b1] + buf[i + 2..]);
    TotalConcat(buf[..i], [b0, b1] + buf[i + 2..], false);
    TotalConcat([b0, b1], buf[i + 2..], false);
  }

  lemma TotalOfField(b0: Byte, b1: Byte)
    ensures Total([b0, b1], false) == AsWord(b0) + 256 * AsWord(b1)
  {
    assert Rest([b0, b1]) == [];
  }

  /** A buffer sums to 0xffff exactly if its checksum field holds the complement of the
      sum of the rest, or field and rest are 0xffff both.  The reference is section 3.1
      of RFC 791: the checksum of a header with a correct field is zero. */
  lemma SumsToOnesIff(buf: seq<Byte>, i: nat)
    requires i % 2 == 0 && i + 2 <= |buf|
    ensures AsWord(0) == 0
    ensures var field := AsWord(buf[i]) + 256 * AsWord(buf[i + 1]);
            var rest := OnesSum(WithField(buf, i, 0, 0), false);
            OnesSum(buf, false) == 0xffff <==> field == 0xffff - rest || (field == 0xffff && rest == 0xffff)
  {
    hide OnesSum, Total, AsWord, Alike, WithField;
    var field, zeroed := AsWord(buf[i]) + 256 * AsWord(buf[i + 1]), WithField(buf, i, 0, 0);
    SameField(buf, i);
    ZeroWord();
    TotalWithField(buf, i, buf[i], buf[i + 1]);
    TotalWithField(buf, i, 0, 0);
    TotalOfField(buf[i], buf[i + 1]);
    TotalOfField(0, 0);
    OnesSumIsTotal(buf, false);
    OnesSumIsTotal(zeroed, false);
    var sum, rest := OnesSum(buf, false), OnesSum(zeroed, false);
    AlikeAdd(rest, Total(zeroed, false), field, field);
    AlikeSym(rest + field, Total(buf, false));
    AlikeTrans(sum, Total(buf, false), rest + field);
    AlikeToOnes(sum, rest, field);
  }

  lemma SameField(buf: seq<Byte>, i: nat)
    requires i + 2 <= |buf|
    ensures WithField(buf, i, buf[i], buf[i + 1]) == buf
  {
  }

  lemma AlikeToOnes(sum: nat, rest: nat, field: nat)
    requires sum < TWO16 && rest < TWO16 && field < TWO16 && Alike(sum, rest + field)
    ensures sum == 0xffff <==> field == 0xffff - rest || (field == 0xffff && rest == 0xffff)
  {
  }

  lemma ZeroWord()
    ensures AsWord(0) == 0
  {
    assert ByteBits(0) == Zeros(8) + [];
    ValueZeros(8, []);
  }
}
