/** What extraction and deparsing of one field do, bit by bit, on packets and field
    buffers seen as strings of bits.  A field of `n` bits sits at bit `pos` of the
    packet, and right-aligned in a buffer of whole bytes. */
module FieldBits {
  import opened Bits

  function NBytes(n: nat): nat { (n + 7) / 8 }

  /** The bits of padding in front of a field in its buffer. */
  function Pad(n: nat): (r: nat)
    ensures r < 8 && r + n == 8 * NBytes(n)
  {
    8 * NBytes(n) - n
  }

  /** How far `pos` is into its byte. */
  function Within(pos: nat): nat { pos % 8 }

  /** The bytes a field touches in the packet. */
  function Touched(pos: nat, n: nat): nat { NBytes(Within(pos) + n) }

  /** A field of less than a byte that continues into the next byte of the packet. */
  predicate Straddles(pos: nat, n: nat) {
    n < 8 && Within(pos) + n > 8
  }

  /** A field of several bytes that starts inside a byte and is shifted left. */
  predicate Clobbers(pos: nat, n: nat) {
    NBytes(n) > 1 && 0 < Within(pos) < Pad(n)
  }

  /** The buffer after extraction.  The padding of a field that straddles is not
      cleared: it holds the bits before the field. */
  function Extracted(packet: seq<bool>, pos: nat, n: nat): (r: seq<bool>)
    requires n > 0 && pos + n <= |packet|
    ensures |r| == 8 * NBytes(n)
  {
    if Straddles(pos, n) then packet[pos - Pad(n)..pos + n]
    else Zeros(Pad(n)) + packet[pos..pos + n]
  }

  /** Bit `k` of the packet after deparsing the buffer `v`. */
  function DeparsedBit(packet: seq<bool>, pos: nat, n: nat, v: seq<bool>, k: nat): bool
    requires n > 0 && pos + n <= |packet| && |v| == 8 * NBytes(n) && k < |packet|
  {
    var h := Within(pos);
    var start := pos - h;
    if k < start || k >= start + 8 * Touched(pos, n) then packet[k]
    else if k < pos then
      var pad := k - pos + Pad(n);  // the bit of the padding that lands here
      (pad >= 0 && v[pad]) || (packet[k] && !Clobbers(pos, n))
    else if k < pos + n then v[Pad(n) + k - pos]
    else h > Pad(n) && NBytes(n) > 1 && packet[k]
  }

  function Deparsed(packet: seq<bool>, pos: nat, n: nat, v: seq<bool>): (r: seq<bool>)
    requires n > 0 && pos + n <= |packet| && |v| == 8 * NBytes(n)
    ensures |r| == |packet|
    ensures forall k | 0 <= k < |packet| :: r[k] == DeparsedBit(packet, pos, n, v, k)
  {
    seq(|packet|, k requires 0 <= k < |packet| => DeparsedBit(packet, pos, n, v, k))
  }

  /** A buffer whose padding is clear, as every value set by the switch leaves it. */
  predicate Padded(v: seq<bool>, n: nat) {
    |v| == 8 * NBytes(n) && forall i | 0 <= i < Pad(n) :: !v[i]
  }

  // ----- the bytes that the loops compute -----

  lemma ShiftPair(x: Byte, y: Byte, o: nat, j: nat)
    requires 0 < o < 8 && j < 8
    ensures Bit(Shl(x, o) | Shr(y, 8 - o), j) == if j + o < 8 then Bit(x, j + o) else Bit(y, j + o - 8)
  {
    hide Bit;
    OrAt(Shl(x, o), Shr(y, 8 - o), j);
    ShlBit(x, o, j);
    ShrBit(y, 8 - o, j);
  }

  lemma MaskBit(o: nat, j: nat)
    requires j < 8
    ensures Bit(Shr(0xff, o), j) == (j >= o)
  {
    ShrBit(0xff, o, j);
    AllOnes(if j >= o then j - o else 0);
  }

  lemma AllOnes(j: nat)
    requires j < 8
    ensures Bit(0xff, j)
  {
  }

  lemma BytesBitAt(s: seq<Byte>, k: nat)
    requires k < 8 * |s|
    ensures BytesBits(s)[k] == BitAt(s, k)
  {
    BytesBitsAt(s, k);
  }

  /** Bit `k` of a string of bytes. */
  function BitAt(s: seq<Byte>, k: nat): bool
    requires k < 8 * |s|
  {
    Bit(s[k / 8], k % 8)
  }

  /** Two neighbouring bytes shifted left as one. */
  function Pair(x: Byte, y: Byte, o: nat): Byte
    requires o <= 8
  {
    Shl(x, o) | Shr(y, 8 - o)
  }

  /** A byte without its first `o` bits. */
  function Masked(x: Byte, o: nat): Byte {
    x & Shr(0xff, o)
  }

  lemma PairAt(data: seq<Byte>, i: nat, o: nat, j: nat)
    requires 0 < o < 8 && i + 1 < |data| && j < 8
    ensures Bit(Pair(data[i], data[i + 1], o), j) == BitAt(data, 8 * i + j + o)
  {
    hide Bit, Shl, Shr;
    ShiftPair(data[i], data[i + 1], o, j);
    if j + o < 8 {
      assert (8 * i + j + o) / 8 == i && (8 * i + j + o) % 8 == j + o;
    } else {
      assert (8 * i + j + o) / 8 == i + 1 && (8 * i + j + o) % 8 == j + o - 8;
    }
  }

  lemma MaskedAt(x: Byte, o: nat, j: nat)
    requires j < 8
    ensures Bit(Masked(x, o), j) == (j >= o && Bit(x, j))
  {
    hide Bit, Shr;
    AndAt(x, Shr(0xff, o), j);
    MaskBit(o, j);
  }

  /** Bit `k` of the buffer after extraction from bit `h` of `data`. */
  function ExtractedBit(data: seq<Byte>, h: nat, n: nat, k: nat): bool
    requires h < 8 && n > 0 && h + n <= 8 * |data| && k < 8 * NBytes(n)
  {
    if k < Pad(n) && !Straddles(h, n) then false else BitAt(data, k + h - Pad(n))
  }

  lemma ExtractedAt(packet: seq<bool>, pos: nat, n: nat, k: nat)
    requires n > 0 && pos + n <= |packet| && k < 8 * NBytes(n)
    ensures Straddles(pos, n) || k >= Pad(n) ==> 0 <= k + pos - Pad(n) < |packet|
    ensures Extracted(packet, pos, n)[k] ==
            if k < Pad(n) && !Straddles(pos, n) then false else packet[k + pos - Pad(n)]
  {
  }

  lemma ExtractedBits(data: seq<Byte>, h: nat, n: nat, dst: seq<Byte>)
    requires h < 8 && n > 0 && h + n <= 8 * |data| && |dst| == NBytes(n)
    requires forall k | 0 <= k < 8 * |dst| :: BitAt(dst, k) == ExtractedBit(data, h, n, k)
    ensures BytesBits(dst) == Extracted(BytesBits(data), h, n)
  {
    hide Bit, BytesBits, Extracted, BitAt;
    forall k | 0 <= k < 8 * |dst| ensures BytesBits(dst)[k] == Extracted(BytesBits(data), h, n)[k] {
      BytesBitAt(dst, k);
      ExtractedAt(BytesBits(data), h, n, k);
      if k >= Pad(n) || Straddles(h, n) {
        BytesBitAt(data, k + h - Pad(n));
      }
    }
  }

  /** What the left-shifting loop leaves in byte `i`: only the first byte is masked,
      and not when it is also the last. */
  function LeftByte(data: seq<Byte>, pad: nat, o: nat, nbytes: nat, i: nat): Byte
    requires 0 < o < 8 && i + 1 < |data|
  {
    var pair := Pair(data[i], data[i + 1], o);
    if i == 0 && nbytes > 1 then Masked(pair, pad) else pair
  }

  lemma LeftBitAt(data: seq<Byte>, h: nat, n: nat, k: nat)
    requires h < 8 && n > 0 && h + n <= 8 * |data| && Pad(n) < h && k < 8 * NBytes(n)
    ensures Bit(LeftByte(data, Pad(n), h - Pad(n), NBytes(n), k / 8), k % 8) == ExtractedBit(data, h, n, k)
  {
    hide Bit, Pair, Masked, BitAt;
    var i, j, o := k / 8, k % 8, h - Pad(n);
    assert 8 * i + j + o == k + h - Pad(n);
    PairAt(data, i, o, j);
    MaskedAt(Pair(data[i], data[i + 1], o), Pad(n), j);
  }

  /** What the right-shifting loop leaves in byte `i`. */
  function RightByte(data: seq<Byte>, pad: nat, o: nat, i: nat): Byte
    requires 0 < o < 8 && i < |data|
  {
    if i == 0 then Masked(Shr(data[0], o), pad) else Pair(data[i - 1], data[i], 8 - o)
  }

  lemma RightBitAt(data: seq<Byte>, h: nat, n: nat, k: nat)
    requires h < 8 && n > 0 && h + n <= 8 * |data| && h < Pad(n) && k < 8 * NBytes(n)
    ensures Bit(RightByte(data, Pad(n), Pad(n) - h, k / 8), k % 8) == ExtractedBit(data, h, n, k)
  {
    hide Bit, Pair, Masked, Shr;
    var i, j, o := k / 8, k % 8, Pad(n) - h;
    if i == 0 {
      MaskedAt(Shr(data[0], o), Pad(n), j);
      ShrBit(data[0], o, j);
    } else {
      assert 8 * (i - 1) + j + (8 - o) == k - o;
      PairAt(data, i - 1, 8 - o, j);
    }
  }

  /** What copying and masking leaves in byte `i`. */
  function AlignedByte(data: seq<Byte>, pad: nat, i: nat): Byte
    requires i < |data|
  {
    if i == 0 then Masked(data[0], pad) else data[i]
  }

  lemma AlignedBitAt(data: seq<Byte>, h: nat, n: nat, k: nat)
    requires h < 8 && n > 0 && h + n <= 8 * |data| && h == Pad(n) && k < 8 * NBytes(n)
    ensures Bit(AlignedByte(data, h, k / 8), k % 8) == ExtractedBit(data, h, n, k)
  {
    hide Bit, Masked;
    MaskedAt(data[0], h, k % 8);
  }

  /** Byte `i` of the buffer, by the three ways of shifting. */
  function ExtractedByte(data: seq<Byte>, h: nat, n: nat, i: nat): Byte
    requires h < 8 && n > 0 && h + n <= 8 * |data| && i < NBytes(n)
  {
    var pad := Pad(n);
    if h == pad then AlignedByte(data, h, i)
    else if h > pad then LeftByte(data, pad, h - pad, NBytes(n), i)
    else RightByte(data, pad, pad - h, i)
  }

  lemma ExtractedByteBits(data: seq<Byte>, h: nat, n: nat, dst: seq<Byte>)
    requires h < 8 && n > 0 && h + n <= 8 * |data| && |dst| == NBytes(n)
    requires forall i | 0 <= i < |dst| :: dst[i] == ExtractedByte(data, h, n, i)
    ensures BytesBits(dst) == Extracted(BytesBits(data), h, n)
  {
    hide Bit, BytesBits, Extracted, LeftByte, RightByte, AlignedByte, ExtractedBit;
    forall k | 0 <= k < 8 * |dst| ensures BitAt(dst, k) == ExtractedBit(data, h, n, k) {
      assert dst[k / 8] == ExtractedByte(data, h, n, k / 8);
      if h == Pad(n) {
        AlignedBitAt(data, h, n, k);
      } else if h > Pad(n) {
        LeftBitAt(data, h, n, k);
      } else {
        RightBitAt(data, h, n, k);
      }
    }
    ExtractedBits(data, h, n, dst);
  }

  // ----- deparsing, byte by byte -----

  /** The first `o` bits of a byte, the rest cleared. */
  function KeepTop(x: Byte, o: nat): Byte {
    x & !Shr(0xff, o)
  }

  lemma KeepTopAt(x: Byte, o: nat, j: nat)
    requires j < 8
    ensures Bit(KeepTop(x, o), j) == (j < o && Bit(x, j))
  {
    hide Bit, Shr;
    AndAt(x, !Shr(0xff, o), j);
    NotAt(Shr(0xff, o), j);
    MaskBit(o, j);
  }

  function Or(x: Byte, y: Byte): Byte {
    x | y
  }

  lemma OrBitAt(x: Byte, y: Byte, j: nat)
    requires j < 8
    ensures Bit(Or(x, y), j) == (Bit(x, j) || Bit(y, j))
  {
    hide Bit;
    OrAt(x, y, j);
  }

  /** Byte `i` that the field touches, when `d` was there. */
  function DeparsedByte(d: Byte, h: nat, n: nat, u: seq<Byte>, i: nat): Byte
    requires h < 8 && n > 0 && |u| == NBytes(n) && i < Touched(h, n)
  {
    var pad := Pad(n);
    if h == pad then
      if i == 0 then Or(KeepTop(d, h), u[0]) else u[i]
    else if h < pad then
      var o := pad - h;
      if |u| == 1 then Or(KeepTop(d, h), Shl(u[0], o))
      else if i < |u| - 1 then Pair(u[i], u[i + 1], o)
      else Shl(u[i], o)
    else
      var o := h - pad;
      if i == 0 then Or(KeepTop(d, h), Shr(u[0], o))
      else if i < |u| then Pair(u[i - 1], u[i], 8 - o)
      else if |u| == 1 then Shl(u[0], 8 - o)
      else Or(Masked(d, o), Shl(u[i - 1], 8 - o))
  }

  /** Bit `j` of that byte, by what the whole field does to the packet. */
  function DeparsedByteBit(d: Byte, h: nat, n: nat, u: seq<Byte>, i: nat, j: nat): bool
    requires h < 8 && n > 0 && |u| == NBytes(n) && i < Touched(h, n) && j < 8
  {
    var k := 8 * i + j;
    if k < h then
      var pad := k - h + Pad(n);
      (pad >= 0 && BitAt(u, pad)) || (Bit(d, j) && !Clobbers(h, n))
    else if k < h + n then BitAt(u, Pad(n) + k - h)
    else h > Pad(n) && |u| > 1 && Bit(d, j)
  }

  lemma DeparsedSame(d: Byte, h: nat, n: nat, u: seq<Byte>, i: nat, j: nat)
    requires h < 8 && n > 0 && |u| == NBytes(n) && i < Touched(h, n) && j < 8 && h == Pad(n)
    ensures Bit(DeparsedByte(d, h, n, u, i), j) == DeparsedByteBit(d, h, n, u, i, j)
  {
    hide Bit, KeepTop, Or;
    OrBitAt(KeepTop(d, h), u[0], j);
    KeepTopAt(d, h, j);
  }

  lemma ShiftedAt(x: Byte, o: nat, j: nat)
    requires j < 8
    ensures Bit(Shl(x, o), j) == (j + o < 8 && Bit(x, j + o))
    ensures Bit(Shr(x, o), j) == (j >= o && Bit(x, j - o))
  {
    ShlBit(x, o, j);
    ShrBit(x, o, j);
  }

  lemma DeparsedLeft(d: Byte, h: nat, n: nat, u: seq<Byte>, i: nat, j: nat)
    requires h < 8 && n > 0 && |u| == NBytes(n) && i < Touched(h, n) && j < 8 && h < Pad(n)
    ensures Bit(DeparsedByte(d, h, n, u, i), j) == DeparsedByteBit(d, h, n, u, i, j)
  {
    hide Bit, KeepTop, Or, Pair, Shl;
    var o := Pad(n) - h;
    if |u| == 1 {
      OrBitAt(KeepTop(d, h), Shl(u[0], o), j);
      KeepTopAt(d, h, j);
      ShiftedAt(u[0], o, j);
    } else if i < |u| - 1 {
      PairAt(u, i, o, j);
    } else {
      ShiftedAt(u[i], o, j);
    }
  }

  lemma DeparsedRight(d: Byte, h: nat, n: nat, u: seq<Byte>, i: nat, j: nat)
    requires h < 8 && n > 0 && |u| == NBytes(n) && i < Touched(h, n) && j < 8 && h > Pad(n)
    ensures Bit(DeparsedByte(d, h, n, u, i), j) == DeparsedByteBit(d, h, n, u, i, j)
  {
    hide Bit, KeepTop, Or, Pair, Shl, Shr, Masked;
    var o := h - Pad(n);
    if i == 0 {
      OrBitAt(KeepTop(d, h), Shr(u[0], o), j);
      KeepTopAt(d, h, j);
      ShiftedAt(u[0], o, j);
    } else if i < |u| {
      PairAt(u, i - 1, 8 - o, j);
    } else {
      ShiftedAt(u[i - 1], 8 - o, j);
      OrBitAt(Masked(d, o), Shl(u[i - 1], 8 - o), j);
      MaskedAt(d, o, j);
    }
  }

  lemma DeparsedBitIs(data: seq<Byte>, base: nat, h: nat, n: nat, u: seq<Byte>, k: nat)
    requires h < 8 && n > 0 && 8 * base + h + n <= 8 * |data| && |u| == NBytes(n) && k < 8 * |data|
    ensures var i := k / 8 - base;
            DeparsedBit(BytesBits(data), 8 * base + h, n, BytesBits(u), k) ==
            if i < 0 || i >= Touched(h, n) then BitAt(data, k)
            else DeparsedByteBit(data[k / 8], h, n, u, i, k % 8)
  {
    hide Bit, BytesBits, BitAt, NBytes, Clobbers;
    BytesBitAt(data, k);
    BitAtIs(data, k);
    var pos := 8 * base + h;
    WithinByte(base, h, n);
    if 8 * base <= k < 8 * base + 8 * Touched(h, n) {
      var p := k - pos + Pad(n);
      if 0 <= p < 8 * |u| {
        BytesBitAt(u, p);
      }
    }
  }

  lemma WithinByte(base: nat, h: nat, n: nat)
    requires h < 8
    ensures Within(8 * base + h) == h && Touched(8 * base + h, n) == Touched(h, n)
    ensures Clobbers(8 * base + h, n) == Clobbers(h, n)
  {
    hide NBytes;
  }

  lemma BitAtIs(data: seq<Byte>, k: nat)
    requires k < 8 * |data|
    ensures BitAt(data, k) == Bit(data[k / 8], k % 8)
  {
  }

  lemma DeparsedAny(d: Byte, h: nat, n: nat, u: seq<Byte>, i: nat, j: nat)
    requires h < 8 && n > 0 && |u| == NBytes(n) && i < Touched(h, n) && j < 8
    ensures Bit(DeparsedByte(d, h, n, u, i), j) == DeparsedByteBit(d, h, n, u, i, j)
  {
    hide *;
    if h == Pad(n) {
      DeparsedSame(d, h, n, u, i, j);
    } else if h < Pad(n) {
      DeparsedLeft(d, h, n, u, i, j);
    } else {
      DeparsedRight(d, h, n, u, i, j);
    }
  }

  lemma DeparsedByteBits(data: seq<Byte>, base: nat, h: nat, n: nat, u: seq<Byte>, data': seq<Byte>)
    requires h < 8 && n > 0 && 8 * base + h + n <= 8 * |data| && |u| == NBytes(n) && |data'| == |data|
    requires forall i | 0 <= i < base || base + Touched(h, n) <= i < |data| :: data'[i] == data[i]
    requires forall i | base <= i < base + Touched(h, n) :: data'[i] == DeparsedByte(data[i], h, n, u, i - base)
    ensures BytesBits(data') == Deparsed(BytesBits(data), 8 * base + h, n, BytesBits(u))
  {
    hide BytesBits, DeparsedByte, DeparsedBit, Touched;
    forall k | 0 <= k < 8 * |data|
      ensures BytesBits(data')[k] == DeparsedBit(BytesBits(data), 8 * base + h, n, BytesBits(u), k)
    {
      DeparsedByteBitsAt(data, base, h, n, u, data', k);
    }
  }

  lemma DeparsedByteBitsAt(data: seq<Byte>, base: nat, h: nat, n: nat, u: seq<Byte>, data': seq<Byte>, k: nat)
    requires h < 8 && n > 0 && 8 * base + h + n <= 8 * |data| && |u| == NBytes(n) && |data'| == |data| && k < 8 * |data|
    requires var i := k / 8 - base;
             data'[k / 8] == if i < 0 || i >= Touched(h, n) then data[k / 8] else DeparsedByte(data[k / 8], h, n, u, i)
    ensures BytesBits(data')[k] == DeparsedBit(BytesBits(data), 8 * base + h, n, BytesBits(u), k)
  {
    hide Bit, BytesBits, DeparsedByte, DeparsedByteBit, DeparsedBit, Touched;
    BytesBitAt(data', k);
    DeparsedBitIs(data, base, h, n, u, k);
    var i := k / 8 - base;
    if 0 <= i < Touched(h, n) {
      DeparsedAny(data[k / 8], h, n, u, i, k % 8);
    }
  }
}
