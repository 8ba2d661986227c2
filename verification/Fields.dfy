/** Field extraction and deparsing as the switch does them, byte by byte with shifts
    and masks. */
module Fields {
  import opened Bits
  import opened FieldBits

  /** `generic_extract`. */
  method GenericExtract(data: seq<Byte>, bitOffset: nat, bitwidth: nat, dst: array<Byte>)
    requires bitOffset < 8 && bitwidth > 0 && bitOffset + bitwidth <= 8 * |data|
    requires dst.Length == NBytes(bitwidth)
    modifies dst
    ensures BytesBits(dst[..]) == Extracted(BytesBits(data), bitOffset, bitwidth)
  {
    hide BytesBits, Extracted, Shl, Shr;
    var nbytes := (bitwidth + 7) / 8;
    if bitOffset == 0 && bitwidth % 8 == 0 {
      CopyBytes(data, dst);
      NoMask(data);
    } else {
      var dstOffset := 8 * nbytes - bitwidth;
      if bitOffset == dstOffset {
        CopyBytes(data, dst);
        dst[0] := dst[0] & Shr(0xff, dstOffset);
      } else if bitOffset > dstOffset {
        ExtractLeft(data, bitOffset, bitwidth, dst);
      } else {
        ExtractRight(data, bitOffset, bitwidth, dst);
      }
    }
    ExtractedByteBits(data, bitOffset, bitwidth, dst[..]);
  }

  lemma NoMask(data: seq<Byte>)
    ensures data != [] ==> data[0] & Shr(0xff, 0) == data[0]
  {
  }

  /** Shift left: the field starts later in its first byte than in the buffer. */
  method ExtractLeft(data: seq<Byte>, bitOffset: nat, bitwidth: nat, dst: array<Byte>)
    requires bitOffset < 8 && bitwidth > 0 && bitOffset + bitwidth <= 8 * |data|
    requires dst.Length == NBytes(bitwidth) && Pad(bitwidth) < bitOffset
    modifies dst
    ensures forall i | 0 <= i < dst.Length :: dst[i] == ExtractedByte(data, bitOffset, bitwidth, i)
  {
    hide Shl, Shr, Pair, Masked;
    var nbytes := dst.Length;
    var dstOffset := 8 * nbytes - bitwidth;
    var offset := bitOffset - dstOffset;
    var i := 0;
    while i < nbytes - 1
      invariant 0 <= i <= nbytes - 1
      invariant forall k | 0 <= k < i :: dst[k] == Pair(data[k], data[k + 1], offset)
    {
      dst[i] := Pair(data[i], data[i + 1], offset);
      i := i + 1;
    }
    dst[0] := Masked(dst[0], dstOffset);
    assert nbytes > 1 ==> dst[0] == LeftByte(data, dstOffset, offset, nbytes, 0);
    dst[i] := Shl(data[i], offset);
    if bitOffset + bitwidth > 8 * nbytes {
      dst[i] := dst[i] | Shr(data[i + 1], 8 - offset);
    }
    PairIs(data[i], data[i + 1], offset);
  }

  lemma PairIs(x: Byte, y: Byte, o: nat)
    requires o <= 8
    ensures Pair(x, y, o) == Shl(x, o) | Shr(y, 8 - o)
  {
  }

  /** Shift right: the field starts earlier in its first byte than in the buffer. */
  method ExtractRight(data: seq<Byte>, bitOffset: nat, bitwidth: nat, dst: array<Byte>)
    requires bitOffset < 8 && bitwidth > 0 && bitOffset + bitwidth <= 8 * |data|
    requires dst.Length == NBytes(bitwidth) && bitOffset < Pad(bitwidth)
    modifies dst
    ensures forall i | 0 <= i < dst.Length :: dst[i] == ExtractedByte(data, bitOffset, bitwidth, i)
  {
    hide Shl, Shr;
    var nbytes := dst.Length;
    var dstOffset := 8 * nbytes - bitwidth;
    var offset := dstOffset - bitOffset;
    dst[0] := Shr(data[0], offset);
    dst[0] := dst[0] & Shr(0xff, dstOffset);
    for i := 1 to nbytes
      invariant dst[0] == Masked(Shr(data[0], offset), dstOffset)
      invariant forall k | 1 <= k < i :: dst[k] == Pair(data[k - 1], data[k], 8 - offset)
    {
      dst[i] := Shl(data[i - 1], 8 - offset) | Shr(data[i], offset);
    }
  }

  method CopyBytes(data: seq<Byte>, dst: array<Byte>)
    requires dst.Length <= |data|
    modifies dst
    ensures dst[..] == data[..dst.Length]
  {
    for i := 0 to dst.Length
      invariant dst[..i] == data[..i]
    {
      dst[i] := data[i];
    }
  }

  /** `Field::deparse`: writes the buffer `u` of an `n`-bit field at bit `h` of the
      byte `data[base]`. */
  method DeparseInto(u: seq<Byte>, n: nat, data: array<Byte>, base: nat, h: nat)
    requires h < 8 && n > 0 && |u| == NBytes(n) && 8 * base + h + n <= 8 * data.Length
    modifies data
    ensures BytesBits(data[..]) == Deparsed(old(BytesBits(data[..])), 8 * base + h, n, BytesBits(u))
  {
    hide Shl, Shr, BytesBits, Deparsed, KeepTop, DeparsedByte;
    ghost var was := data[..];
    if h == 0 && n % 8 == 0 {
      DeparseWhole(u, n, data, base, was);
    } else {
      var fieldOffset := 8 * |u| - n;
      ClearFirst(data, base, h);
      if fieldOffset == h {
        DeparseSame(u, n, data, base, h, was);
      } else if fieldOffset > h {
        DeparseLeft(u, n, data, base, h, was);
      } else {
        DeparseRight(u, n, data, base, h, was);
      }
    }
    DeparsedByteBits(was, base, h, n, u, data[..]);
  }

  /** Clears the bits that will be written in the first byte. */
  method ClearFirst(data: array<Byte>, base: nat, h: nat)
    requires base < data.Length
    modifies data
    ensures data[..] == old(data[..])[base := KeepTop(old(data[base]), h)]
  {
    data[base] := data[base] & !Shr(0xff, h);
  }

  method DeparseWhole(u: seq<Byte>, n: nat, data: array<Byte>, base: nat, ghost was: seq<Byte>)
    requires n > 0 && n % 8 == 0 && |u| == NBytes(n) && base + |u| <= data.Length
    requires data[..] == was
    modifies data
    ensures forall i | 0 <= i < base || base + Touched(0, n) <= i < data.Length :: data[i] == was[i]
    ensures forall i | base <= i < base + Touched(0, n) :: data[i] == DeparsedByte(was[i], 0, n, u, i - base)
  {
    hide KeepTop, Or;
    for i := 0 to |u|
      invariant forall k | 0 <= k < data.Length :: data[k] == if base <= k < base + i then u[k - base] else was[k]
    {
      data[base + i] := u[i];
    }
    OrNothing(was[base], u[0]);
  }

  lemma OrNothing(d: Byte, u: Byte)
    ensures Or(KeepTop(d, 0), u) == u
  {
  }

  method DeparseSame(u: seq<Byte>, n: nat, data: array<Byte>, base: nat, h: nat, ghost was: seq<Byte>)
    requires h < 8 && n > 0 && |u| == NBytes(n) && 8 * base + h + n <= 8 * data.Length && h == Pad(n)
    requires |was| == data.Length && data[..] == was[base := KeepTop(was[base], h)]
    modifies data
    ensures forall i | 0 <= i < base || base + Touched(h, n) <= i < data.Length :: data[i] == was[i]
    ensures forall i | base <= i < base + Touched(h, n) :: data[i] == DeparsedByte(was[i], h, n, u, i - base)
  {
    hide KeepTop, Shl, Shr, Pair, Masked, DeparsedByte, NBytes, Touched, Pad;
    SameIs(n, h);
    for i := 1 to |u|
      invariant data[base] == KeepTop(was[base], h)
      invariant forall k | 0 <= k < data.Length && k != base ::
          data[k] == if base < k < base + i then u[k - base] else was[k]
    {
      data[base + i] := u[i];
    }
    data[base] := data[base] | u[0];
    forall i | base <= i < base + |u| ensures data[i] == DeparsedByte(was[i], h, n, u, i - base) {
      SameByte(was[i], h, n, u, i - base);
    }
  }

  lemma SameIs(n: nat, h: nat)
    requires h < 8 && n > 0 && h == Pad(n)
    ensures Touched(h, n) == NBytes(n) && h + n == 8 * NBytes(n)
  {
  }

  lemma SameByte(d: Byte, h: nat, n: nat, u: seq<Byte>, i: nat)
    requires h < 8 && n > 0 && |u| == NBytes(n) && i < |u| && h == Pad(n)
    ensures i < Touched(h, n)
    ensures DeparsedByte(d, h, n, u, i) == if i == 0 then KeepTop(d, h) | u[0] else u[i]
  {
    hide KeepTop, Shl, Shr, Pair, Masked;
  }

  method DeparseLeft(u: seq<Byte>, n: nat, data: array<Byte>, base: nat, h: nat, ghost was: seq<Byte>)
    requires h < 8 && n > 0 && |u| == NBytes(n) && 8 * base + h + n <= 8 * data.Length && h < Pad(n)
    requires |was| == data.Length && data[..] == was[base := KeepTop(was[base], h)]
    modifies data
    ensures forall i | 0 <= i < base || base + Touched(h, n) <= i < data.Length :: data[i] == was[i]
    ensures forall i | base <= i < base + Touched(h, n) :: data[i] == DeparsedByte(was[i], h, n, u, i - base)
  {
    hide Shl, Shr, KeepTop;
    var offset := 8 * |u| - n - h;
    var hdrBytes := (h + n + 7) / 8;
    var i := 0;
    while i < hdrBytes - 1
      invariant 0 <= i <= hdrBytes - 1
      invariant forall k | base <= k < base + i :: data[k] == Pair(u[k - base], u[k - base + 1], offset)
      invariant forall k | 0 <= k < base || base + i <= k < data.Length ::
                  data[k] == was[base := KeepTop(was[base], h)][k]
    {
      data[base + i] := Shl(u[i], offset) | Shr(u[i + 1], 8 - offset);
      i := i + 1;
    }
    if i > 0 {
      data[base + i] := 0;
    }
    data[base + i] := data[base + i] | Shl(u[i], offset);
    OrZero(Shl(u[i], offset));
  }

  lemma OrZero(x: Byte)
    ensures 0 | x == x
  {
  }

  method DeparseRight(u: seq<Byte>, n: nat, data: array<Byte>, base: nat, h: nat, ghost was: seq<Byte>)
    requires h < 8 && n > 0 && |u| == NBytes(n) && 8 * base + h + n <= 8 * data.Length && h > Pad(n)
    requires |was| == data.Length && data[..] == was[base := KeepTop(was[base], h)]
    modifies data
    ensures forall i | 0 <= i < base || base + Touched(h, n) <= i < data.Length :: data[i] == was[i]
    ensures forall i | base <= i < base + Touched(h, n) :: data[i] == DeparsedByte(was[i], h, n, u, i - base)
  {
    hide Shl, Shr, KeepTop, Masked, Pair, Or, DeparsedByte;
    var offset := h - (8 * |u| - n);
    var hdrBytes := (h + n + 7) / 8;
    OrInto(data, base, Shr(u[0], offset));
    if |u| == 1 {
      data[base + 1] := Shl(u[0], 8 - offset);
    } else {
      ShiftMiddle(u, data, base, offset);
      var tailOffset := 8 * hdrBytes - (h + n);
      DeparseTail(data, base + |u|, tailOffset, Shl(u[|u| - 1], 8 - offset));
    }
    forall i | base <= i < base + Touched(h, n) ensures data[i] == DeparsedByte(was[i], h, n, u, i - base) {
      RightIs(was[i], h, n, u, i - base);
    }
  }

  method OrInto(data: array<Byte>, i: nat, bits: Byte)
    requires i < data.Length
    modifies data
    ensures data[..] == old(data[..])[i := Or(old(data[i]), bits)]
  {
    data[i] := data[i] | bits;
  }

  lemma RightIs(d: Byte, h: nat, n: nat, u: seq<Byte>, i: nat)
    requires h < 8 && n > 0 && |u| == NBytes(n) && i < Touched(h, n) && h > Pad(n)
    ensures var o := h - Pad(n);
            DeparsedByte(d, h, n, u, i) ==
            if i == 0 then Or(KeepTop(d, h), Shr(u[0], o))
            else if i < |u| then Pair(u[i - 1], u[i], 8 - o)
            else if |u| == 1 then Shl(u[0], 8 - o)
            else Or(Masked(d, o), Shl(u[|u| - 1], 8 - o))
  {
  }

  /** The bytes between the first and the last that the field touches. */
  method ShiftMiddle(u: seq<Byte>, data: array<Byte>, base: nat, offset: nat)
    requires 0 < offset < 8 && u != [] && base + |u| <= data.Length
    modifies data
    ensures forall k | 0 <= k < data.Length ::
        data[k] == if base < k < base + |u| then Pair(u[k - base - 1], u[k - base], 8 - offset) else old(data[k])
  {
    hide Shl, Shr;
    for i := 1 to |u|
      invariant forall k | 0 <= k < data.Length ::
          data[k] == if base < k < base + i then Pair(u[k - base - 1], u[k - base], 8 - offset) else old(data[k])
    {
      data[base + i] := Shl(u[i - 1], 8 - offset) | Shr(u[i], offset);
    }
  }

  /** The last byte keeps the bits after the field. */
  method DeparseTail(data: array<Byte>, last: nat, tailOffset: nat, bits: Byte)
    requires last < data.Length && tailOffset <= 8
    modifies data
    ensures data[..] == old(data[..])[last := Or(Masked(old(data[last]), 8 - tailOffset), bits)]
  {
    data[last] := data[last] & Shr(0xff, 8 - tailOffset);  // (1 << tailOffset) - 1
    data[last] := data[last] | bits;
  }
}
