/** The checksum of an IPv4 header: computed on the deparsed header, stored in one of
    its fields. */
module Ipv4Checksum {
  import opened Bits
  import opened Checksums
  import opened FieldBits
  import opened HeaderBits
  import opened HeaderTheorems
  import opened Headers
  import opened Wrappers

  const CKSUM_OFFSET: nat := 10
  const MAX_LEN: nat := 60

  // ----- headers as bytes -----

  /** The header as the bytes that it is in a packet. */
  function Image(ws: seq<nat>, vs: seq<seq<bool>>): (r: seq<Byte>)
    requires Sized(ws, vs) && Pos(ws, |ws|) % 8 == 0
    ensures 8 * |r| == Pos(ws, |ws|) && BytesBits(r) == Payload(ws, vs, |ws|)
  {
    ToBytes(Payload(ws, vs, |ws|))
  }

  /** An IPv4 header with its checksum in field `f`.  The buffer that the header is
      deparsed into has 60 bytes. */
  predicate Ipv4Layout(ws: seq<nat>, f: nat) {
    && Layout(ws) && f < |ws| && Pos(ws, f) == 8 * CKSUM_OFFSET && ws[f] == 16
    && Pos(ws, |ws|) % 8 == 0 && Pos(ws, |ws|) <= 8 * MAX_LEN
  }

  /** The header fits, deparsing it does not lose bits, and its fields hold values. */
  ghost predicate Ipv4Header(ws: seq<nat>, vs: seq<seq<bool>>, f: nat) {
    Ipv4Layout(ws, f) && NoneClobbers(ws) && AllPadded(ws, vs)
  }

  lemma FieldInside(ws: seq<nat>, f: nat)
    requires Ipv4Layout(ws, f)
    ensures 8 * (CKSUM_OFFSET + 2) <= Pos(ws, |ws|) && NBytes(ws[f]) == 2
  {
    PosStep(ws, f);
  }

  lemma PayloadStep(ws: seq<nat>, vs: seq<seq<bool>>, i: nat, k: nat)
    requires Sized(ws, vs) && i < |ws| && k < Pos(ws, i + 1)
    ensures Payload(ws, vs, i + 1)[k] ==
            if k < Pos(ws, i) then Payload(ws, vs, i)[k] else vs[i][Pad(ws[i]) + k - Pos(ws, i)]
  {
  }

  lemma {:induction false} PayloadUpdate(ws: seq<nat>, vs: seq<seq<bool>>, f: nat, v: seq<bool>, m: nat, k: nat)
    requires Sized(ws, vs) && f < |ws| && |v| == 8 * NBytes(ws[f]) && m <= |ws| && k < Pos(ws, m)
    ensures Payload(ws, vs[f := v], m)[k] ==
            if Pos(ws, f) <= k < Pos(ws, f) + ws[f] then v[Pad(ws[f]) + k - Pos(ws, f)] else Payload(ws, vs, m)[k]
    decreases m
  {
    hide NBytes, Payload, Pos;
    PosZero(ws);
    PosStep(ws, m - 1);
    PayloadStep(ws, vs, m - 1, k);
    PayloadStep(ws, vs[f := v], m - 1, k);
    if k < Pos(ws, m - 1) {
      PayloadUpdate(ws, vs, f, v, m - 1, k);
    } else if f < m - 1 {
      PosStep(ws, f);
      PosMonotonic(ws, f + 1, m - 1);
    } else if f >= m {
      PosMonotonic(ws, m, f);
    }
  }

  /** Storing two bytes in the checksum field changes just those two bytes of the header. */
  lemma ImageUpdate(ws: seq<nat>, vs: seq<seq<bool>>, f: nat, b: seq<Byte>)
    requires Sized(ws, vs) && Ipv4Layout(ws, f) && |b| == 2
    ensures Sized(ws, vs[f := BytesBits(b)]) && CKSUM_OFFSET + 2 <= |Image(ws, vs)|
    ensures Image(ws, vs[f := BytesBits(b)]) == WithField(Image(ws, vs), CKSUM_OFFSET, b[0], b[1])
  {
    hide BytesBits, Payload, WithField, Pos;
    FieldInside(ws, f);
    var vs', s := vs[f := BytesBits(b)], Image(ws, vs);
    var s' := WithField(s, CKSUM_OFFSET, b[0], b[1]);
    forall k | 0 <= k < 8 * |s| ensures BytesBits(s')[k] == BytesBits(Image(ws, vs'))[k] {
      PayloadUpdate(ws, vs, f, BytesBits(b), |ws|, k);
      WithFieldBit(s, CKSUM_OFFSET, b, k);
    }
    BytesBitsInjective(s', Image(ws, vs'));
  }

  lemma WithFieldBit(s: seq<Byte>, i: nat, b: seq<Byte>, k: nat)
    requires i + 2 <= |s| && |b| == 2 && k < 8 * |s|
    ensures BytesBits(WithField(s, i, b[0], b[1]))[k] ==
            if 8 * i <= k < 8 * i + 16 then BytesBits(b)[k - 8 * i] else BytesBits(s)[k]
  {
    hide BytesBits, ByteBits, WithField, Bit;
    BytesBitsAt(WithField(s, i, b[0], b[1]), k);
    WithFieldAt(s, i, b, k / 8);
    InField(k, i);
    if 8 * i <= k < 8 * i + 16 {
      BytesBitsAt(b, k - 8 * i);
      DropBytes(k, i);
    } else {
      BytesBitsAt(s, k);
    }
  }

  lemma InField(k: nat, i: nat)
    ensures 8 * i <= k < 8 * i + 16 <==> i <= k / 8 < i + 2
  {
  }

  lemma DropBytes(k: nat, i: nat)
    requires 8 * i <= k
    ensures (k - 8 * i) / 8 == k / 8 - i && (k - 8 * i) % 8 == k % 8
  {
  }

  lemma WithFieldAt(s: seq<Byte>, i: nat, b: seq<Byte>, m: nat)
    requires i + 2 <= |s| && |b| == 2 && m < |s|
    ensures WithField(s, i, b[0], b[1])[m] == if i <= m < i + 2 then b[m - i] else s[m]
  {
  }

  lemma HeaderParts(ws: seq<nat>, vs: seq<seq<bool>>, f: nat)
    requires Ipv4Header(ws, vs, f)
    ensures Sized(ws, vs) && Ipv4Layout(ws, f) && f < |ws| && NBytes(ws[f]) == 2
  {
    hide NoneClobbers, Pos;
    FieldInside(ws, f);
  }

  // ----- the operations -----

  /** The bytes of a 16-bit number in the memory of a little-endian machine. */
  function InMemory(w: nat): (r: seq<Byte>)
    requires w < TWO16
    ensures |r| == 2 && AsWord(r[0]) + 256 * AsWord(r[1]) == w
  {
    [ByteOfWord(w % 256), ByteOfWord(w / 256)]
  }

  /** The header's bytes with a checksum field of zero. */
  function Zeroed(ws: seq<nat>, vs: seq<seq<bool>>, f: nat): seq<Byte>
    requires Sized(ws, vs) && Ipv4Layout(ws, f)
  {
    FieldInside(ws, f);
    WithField(Image(ws, vs), CKSUM_OFFSET, 0, 0)
  }

  /** The bytes of the checksum that the rest of the header calls for. */
  function Expected(ws: seq<nat>, vs: seq<seq<bool>>, f: nat): (r: seq<Byte>)
    requires Sized(ws, vs) && Ipv4Layout(ws, f)
    ensures |r| == 2
  {
    InMemory(0xffff - OnesSum(Zeroed(ws, vs, f), false))
  }

  /** The fields after `update_`. */
  function Updated(ws: seq<nat>, vs: seq<seq<bool>>, f: nat): seq<seq<bool>>
    requires Sized(ws, vs) && Ipv4Layout(ws, f)
  {
    vs[f := BytesBits(Expected(ws, vs, f))]
  }

  /** What `verify_` compares. */
  predicate Verifies(ws: seq<nat>, vs: seq<seq<bool>>, f: nat)
    requires Sized(ws, vs) && Ipv4Layout(ws, f)
  {
    vs[f] == BytesBits(Expected(ws, vs, f))
  }

  /** The size of a header in bytes, as its constructor counts it. */
  method NBytesPacket(hdr: Header) returns (n: nat)
    ensures n == Pos(hdr.Widths(), |hdr.fields|) / 8
  {
    var nbits := 0;
    for i := 0 to |hdr.fields|
      invariant nbits == Pos(hdr.Widths(), i)
    {
      nbits := nbits + hdr.fields[i].nbits;
    }
    n := nbits / 8;
  }

  /** Deparses into a fresh buffer, clears the checksum and sums up the header. */
  method HeaderCksum(hdr: Header, f: nat) returns (cksum: nat)
    requires hdr.Valid() && Ipv4Header(hdr.Widths(), hdr.Values(), f)
    ensures cksum == 0xffff - OnesSum(Zeroed(hdr.Widths(), hdr.Values(), f), false)
  {
    hide OnesSum, BytesBits, Image, DeparseTo, Pos, NoneClobbers, AllPadded, Sized, Payload;
    ghost var ws, vs := hdr.Widths(), hdr.Values();
    HeaderParts(ws, vs, f);
    FieldInside(ws, f);
    var buffer := new Byte[60];
    ghost var noise := BytesBits(buffer[..]);
    hdr.Deparse(buffer);
    var n := NBytesPacket(hdr);
    IsImage(ws, vs, f, noise, buffer[..], n);
    buffer[10], buffer[11] := 0, 0;
    assert buffer[..n] == Zeroed(ws, vs, f);
    cksum := Cksum16(buffer[..n]);
  }

  /** The start of the buffer is the header, whatever was in the buffer before. */
  lemma IsImage(ws: seq<nat>, vs: seq<seq<bool>>, f: nat, noise: seq<bool>, buffer: seq<Byte>, n: nat)
    requires Ipv4Header(ws, vs, f) && |buffer| == MAX_LEN && |noise| == 8 * MAX_LEN
    requires BytesBits(buffer) == DeparseTo(noise, ws, vs, |ws|) && n == Pos(ws, |ws|) / 8
    ensures n <= MAX_LEN && buffer[..n] == Image(ws, vs)
  {
    hide BytesBits, DeparseTo;
    BytesBitsTake(buffer, n);
    DeparseIsPayload(ws, vs, noise, |ws|);
    BytesBitsInjective(buffer[..n], Image(ws, vs));
  }

  /** `Field::set_bytes` on field `f` of a header. */
  method SetField(hdr: Header, f: nat, b: seq<Byte>)
    requires hdr.Valid() && f < |hdr.fields| && |b| == hdr.fields[f].bytes.Length
    modifies hdr.fields[f].bytes
    ensures hdr.Values() == old(hdr.Values())[f := BytesBits(b)]
  {
    hide BytesBits;
    hdr.fields[f].SetBytes(b);
    forall i | 0 <= i < |hdr.fields| && i != f ensures hdr.Values()[i] == old(hdr.Values()[i]) {
      assert hdr.fields[i].bytes != hdr.fields[f].bytes;
    }
  }

  /** `IPv4Checksum::update_`. */
  method Update(hdr: Header, f: nat)
    requires hdr.Valid() && f < |hdr.fields| && (hdr.valid ==> Ipv4Header(hdr.Widths(), hdr.Values(), f))
    modifies hdr.fields[f].bytes
    ensures hdr.Values() == if hdr.valid then old(Updated(hdr.Widths(), hdr.Values(), f)) else old(hdr.Values())
  {
    hide OnesSum, BytesBits, Zeroed, InMemory, Ipv4Header, Ipv4Layout, Sized;
    ghost var vs := hdr.Values();
    if hdr.valid {
      HeaderParts(hdr.Widths(), vs, f);
      assert hdr.fields[f].bytes.Length == NBytes(hdr.Widths()[f]);
      var cksum := HeaderCksum(hdr, f);
      assert hdr.Values() == vs;
      assert Updated(hdr.Widths(), vs, f) == vs[f := BytesBits(InMemory(cksum))];
      SetField(hdr, f, InMemory(cksum));
    } else {
      assert hdr.Values() == vs;
    }
  }

  /** `IPv4Checksum::verify_`. */
  method Verify(hdr: Header, f: nat) returns (ok: bool)
    requires hdr.Valid() && (hdr.valid ==> Ipv4Header(hdr.Widths(), hdr.Values(), f))
    ensures ok <==> !hdr.valid || Verifies(hdr.Widths(), hdr.Values(), f)
  {
    hide OnesSum, BytesBits, Zeroed, NoneClobbers, AllPadded, InMemory;
    if !hdr.valid {
      return true;
    }
    FieldInside(hdr.Widths(), f);
    var cksum := HeaderCksum(hdr, f);
    var bytes := hdr.fields[f].bytes[..];
    ok := bytes == InMemory(cksum);
    if hdr.Values()[f] == BytesBits(InMemory(cksum)) {
      BytesBitsInjective(bytes, InMemory(cksum));
    }
  }

  // ----- what the operations mean for the header in the packet -----

  /** The stored checksum as bytes of the header. */
  lemma StoredField(ws: seq<nat>, vs: seq<seq<bool>>, f: nat) returns (b: seq<Byte>)
    requires Sized(ws, vs) && Ipv4Layout(ws, f)
    ensures |b| == 2 && vs[f] == BytesBits(b) && CKSUM_OFFSET + 2 <= |Image(ws, vs)|
    ensures Image(ws, vs) == WithField(Image(ws, vs), CKSUM_OFFSET, b[0], b[1])
  {
    hide BytesBits;
    FieldInside(ws, f);
    b := ToBytes(vs[f]);
    ImageUpdate(ws, vs, f, b);
    assert vs[f := vs[f]] == vs;
  }

  lemma InMemoryIff(b: seq<Byte>, w: nat)
    requires |b| == 2 && w < TWO16
    ensures b == InMemory(w) <==> AsWord(b[0]) + 256 * AsWord(b[1]) == w
  {
    hide InMemory, AsWord;
    var m := InMemory(w);
    if AsWord(b[0]) + 256 * AsWord(b[1]) == w {
      AsWordInjective(b[0], m[0]);
      AsWordInjective(b[1], m[1]);
    }
  }

  lemma OnesBothWays(s: seq<Byte>)
    ensures OnesSum(s, true) == 0xffff <==> OnesSum(s, false) == 0xffff
  {
    hide OnesSum;
    OnesSumSwap(s);
  }

  /** `verify_` accepts the headers whose words add up to 0xffff, as section 3.1 of
      RFC 791 has it, except for those where field and rest are 0xffff both. */
  lemma VerifiesIff(ws: seq<nat>, vs: seq<seq<bool>>, f: nat)
    requires Sized(ws, vs) && Ipv4Layout(ws, f)
    ensures Verifies(ws, vs, f) <==>
            OnesSum(Image(ws, vs), true) == 0xffff
            && !(vs[f] == BytesBits(InMemory(0xffff)) && OnesSum(Zeroed(ws, vs, f), true) == 0xffff)
  {
    hide BytesBits, OnesSum, AsWord, Image, InMemory;
    var s, zeroed := Image(ws, vs), Zeroed(ws, vs, f);
    var rest := OnesSum(zeroed, false);
    var b := StoredField(ws, vs, f);
    SumsToOnesIff(s, CKSUM_OFFSET);
    OnesBothWays(s);
    OnesBothWays(zeroed);
    InMemoryIff(b, 0xffff);
    InMemoryIff(b, 0xffff - rest);
    SameBytes(b, InMemory(0xffff));
    SameBytes(b, InMemory(0xffff - rest));
  }

  lemma SameBytes(s: seq<Byte>, t: seq<Byte>)
    ensures BytesBits(s) == BytesBits(t) <==> s == t
  {
    hide BytesBits;
    if BytesBits(s) == BytesBits(t) {
      BytesBitsInjective(s, t);
    }
  }

  lemma UpdatedHeader(ws: seq<nat>, vs: seq<seq<bool>>, f: nat)
    requires Ipv4Header(ws, vs, f)
    ensures Ipv4Header(ws, Updated(ws, vs, f), f)
  {
    hide BytesBits, Expected, Pos;
    FieldInside(ws, f);
  }

  lemma UpdatedZeroed(ws: seq<nat>, vs: seq<seq<bool>>, f: nat)
    requires Sized(ws, vs) && Ipv4Layout(ws, f) && Sized(ws, Updated(ws, vs, f))
    ensures Zeroed(ws, Updated(ws, vs, f), f) == Zeroed(ws, vs, f)
  {
    hide BytesBits, Expected, Pos, Image;
    FieldInside(ws, f);
    ImageUpdate(ws, vs, f, Expected(ws, vs, f));
  }

  /** Updating a header makes it verify and sum to 0xffff, and changes its checksum only. */
  lemma UpdatedVerifies(ws: seq<nat>, vs: seq<seq<bool>>, f: nat)
    requires Ipv4Header(ws, vs, f)
    ensures var vs' := Updated(ws, vs, f);
            && Ipv4Header(ws, vs', f) && Verifies(ws, vs', f)
            && OnesSum(Image(ws, vs'), true) == 0xffff
            && Zeroed(ws, vs', f) == Zeroed(ws, vs, f)
  {
    hide BytesBits, OnesSum, Image, Zeroed, InMemory, NoneClobbers, Pos, Layout, Sized;
    HeaderParts(ws, vs, f);
    var vs' := Updated(ws, vs, f);
    UpdatedHeader(ws, vs, f);
    HeaderParts(ws, vs', f);
    UpdatedZeroed(ws, vs, f);
    VerifiesIff(ws, vs', f);
  }
}
