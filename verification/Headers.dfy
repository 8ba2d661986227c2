/** Headers: fields packed one after the other at arbitrary bit offsets. */
module Headers {
  import opened Bits
  import opened FieldBits
  import opened Fields
  import opened HeaderBits

  class Field {
    const nbits: nat
    const bytes: array<Byte>

    ghost predicate Valid() {
      nbits > 0 && bytes.Length == NBytes(nbits)
    }

    constructor (nbits: nat)
      requires nbits > 0
      ensures Valid() && this.nbits == nbits && fresh(bytes)
    {
      this.nbits := nbits;
      bytes := new Byte[NBytes(nbits)](_ => 0);
    }

    method Extract(data: seq<Byte>, hdrOffset: nat) returns (n: nat)
      requires Valid() && hdrOffset < 8 && hdrOffset + nbits <= 8 * |data|
      modifies bytes
      ensures n == nbits && BytesBits(bytes[..]) == Extracted(BytesBits(data), hdrOffset, nbits)
    {
      GenericExtract(data, hdrOffset, nbits, bytes);
      n := nbits;
    }

    method Deparse(data: array<Byte>, base: nat, hdrOffset: nat) returns (n: nat)
      requires Valid() && data != bytes && hdrOffset < 8 && 8 * base + hdrOffset + nbits <= 8 * data.Length
      modifies data
      ensures n == nbits
      ensures BytesBits(data[..]) ==
              Deparsed(old(BytesBits(data[..])), 8 * base + hdrOffset, nbits, BytesBits(bytes[..]))
    {
      DeparseInto(bytes[..], nbits, data, base, hdrOffset);
      n := nbits;
    }

    method SetBytes(src: seq<Byte>)
      requires |src| == bytes.Length
      modifies bytes
      ensures bytes[..] == src
    {
      for i := 0 to bytes.Length
        invariant bytes[..i] == src[..i]
      {
        bytes[i] := src[i];
      }
    }
  }

  class Header {
    const fields: seq<Field>
    var valid: bool

    ghost predicate Valid() {
      && (forall i | 0 <= i < |fields| :: fields[i].Valid())
      && (forall i, j | 0 <= i < j < |fields| :: fields[i].bytes != fields[j].bytes)
    }

    ghost function Widths(): (ws: seq<nat>)
      ensures |ws| == |fields|
    {
      seq(|fields|, i requires 0 <= i < |fields| => fields[i].nbits)
    }

    ghost function Buffers(): set<object> {
      set i | 0 <= i < |fields| :: fields[i].bytes as object
    }

    /** The buffers of the fields, as bits. */
    ghost function Values(): (vs: seq<seq<bool>>)
      reads Buffers()
      ensures |vs| == |fields|
    {
      seq(|fields|, i requires 0 <= i < |fields| reads Buffers() => BytesBits(fields[i].bytes[..]))
    }

    /** Field `k` holds what extraction takes from the packet. */
    ghost predicate Holds(k: nat, packet: seq<bool>)
      requires Valid() && k < |fields| && Pos(Widths(), |fields|) <= |packet|
      reads fields[k].bytes
    {
      BytesBits(fields[k].bytes[..]) == ExtractAt(packet, Widths(), k)
    }

    method Extract(data: seq<Byte>)
      requires Valid() && Pos(Widths(), |fields|) <= 8 * |data|
      modifies this`valid, Buffers()
      ensures valid && Values() == ExtractAll(BytesBits(data), Widths())
    {
      hide BytesBits, ExtractAt, Pos;
      PosZero(Widths());
      var hdrOffset, base := 0, 0;
      for i := 0 to |fields|
        invariant hdrOffset < 8 && 8 * base + hdrOffset == Pos(Widths(), i)
        invariant forall k | 0 <= k < i :: Holds(k, BytesBits(data))
      {
        PosStep(Widths(), i);
        var n := ExtractField(i, data, base, hdrOffset);
        hdrOffset := hdrOffset + n;
        base := base + hdrOffset / 8;
        hdrOffset := hdrOffset % 8;
      }
      valid := true;
      forall k | 0 <= k < |fields| ensures Values()[k] == ExtractAll(BytesBits(data), Widths())[k] {
        assert Holds(k, BytesBits(data));
      }
    }

    method ExtractField(i: nat, data: seq<Byte>, base: nat, hdrOffset: nat) returns (n: nat)
      requires Valid() && i < |fields| && Pos(Widths(), |fields|) <= 8 * |data|
      requires hdrOffset < 8 && 8 * base + hdrOffset == Pos(Widths(), i)
      modifies fields[i].bytes
      ensures n == fields[i].nbits
      ensures Holds(i, BytesBits(data))
    {
      hide BytesBits, Extracted;
      PosStep(Widths(), i);
      n := fields[i].Extract(data[base..], hdrOffset);
      ExtractedFrom(data, base, hdrOffset, n);
    }

    method Deparse(data: array<Byte>)
      requires Valid() && Pos(Widths(), |fields|) <= 8 * data.Length && data !in Buffers()
      modifies data
      ensures BytesBits(data[..]) == DeparseTo(old(BytesBits(data[..])), Widths(), Values(), |fields|)
    {
      var hdrOffset, base := 0, 0;
      for i := 0 to |fields|
        invariant hdrOffset < 8 && 8 * base + hdrOffset == Pos(Widths(), i)
        invariant Values() == old(Values())
        invariant BytesBits(data[..]) == DeparseTo(old(BytesBits(data[..])), Widths(), Values(), i)
      {
        PosStep(Widths(), i);
        var n := fields[i].Deparse(data, base, hdrOffset);
        hdrOffset := hdrOffset + n;
        base := base + hdrOffset / 8;
        hdrOffset := hdrOffset % 8;
      }
    }
  }
}
