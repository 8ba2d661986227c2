/** The layout of a header, and what extracting and deparsing all its fields does to
    strings of bits. */
module HeaderBits {
  import opened Bits
  import opened FieldBits

  /** Where field `i` starts. */
  function Pos(ws: seq<nat>, i: nat): nat
    requires i <= |ws|
  {
    if i == 0 then 0 else Pos(ws, i - 1) + ws[i - 1]
  }

  lemma {:induction false} PosMonotonic(ws: seq<nat>, i: nat, j: nat)
    requires i <= j <= |ws|
    ensures Pos(ws, i) <= Pos(ws, j)
  {
    if i < j {
      PosMonotonic(ws, i, j - 1);
    }
  }

  lemma PosZero(ws: seq<nat>)
    ensures Pos(ws, 0) == 0
  {
  }

  lemma PosStep(ws: seq<nat>, i: nat)
    requires i < |ws|
    ensures Pos(ws, i + 1) == Pos(ws, i) + ws[i] <= Pos(ws, |ws|)
  {
    PosMonotonic(ws, i + 1, |ws|);
  }

  predicate Layout(ws: seq<nat>) {
    forall i | 0 <= i < |ws| :: ws[i] > 0
  }

  function ExtractAt(packet: seq<bool>, ws: seq<nat>, i: nat): seq<bool>
    requires Layout(ws) && i < |ws| && Pos(ws, |ws|) <= |packet|
  {
    PosStep(ws, i);
    Extracted(packet, Pos(ws, i), ws[i])
  }

  /** The buffers of all fields after extraction. */
  function ExtractAll(packet: seq<bool>, ws: seq<nat>): (vs: seq<seq<bool>>)
    requires Layout(ws) && Pos(ws, |ws|) <= |packet|
    ensures Sized(ws, vs) && forall i | 0 <= i < |ws| :: vs[i] == ExtractAt(packet, ws, i)
  {
    seq(|ws|, i requires 0 <= i < |ws| => ExtractAt(packet, ws, i))
  }

  /** One buffer of the right size for each field. */
  predicate Sized(ws: seq<nat>, vs: seq<seq<bool>>) {
    |vs| == |ws| && forall i | 0 <= i < |ws| :: |vs[i]| == 8 * NBytes(ws[i])
  }

  /** The packet after deparsing the first `i` fields. */
  function DeparseTo(packet: seq<bool>, ws: seq<nat>, vs: seq<seq<bool>>, i: nat): (r: seq<bool>)
    requires Layout(ws) && Sized(ws, vs) && i <= |ws| && Pos(ws, |ws|) <= |packet|
    ensures |r| == |packet|
  {
    if i == 0 then packet
    else
      PosStep(ws, i - 1);
      Deparsed(DeparseTo(packet, ws, vs, i - 1), Pos(ws, i - 1), ws[i - 1], vs[i - 1])
  }

  /** Extracting from a later byte is extracting further on in the packet. */
  lemma ExtractedFrom(data: seq<Byte>, base: nat, h: nat, n: nat)
    requires base <= |data| && h < 8 && n > 0 && 8 * base + h + n <= 8 * |data|
    ensures Extracted(BytesBits(data[base..]), h, n) == Extracted(BytesBits(data), 8 * base + h, n)
  {
    hide BytesBits, Extracted;
    BytesBitsTake(data, base);
    ExtractedShift(BytesBits(data), base, h, n);
  }

  lemma ExtractedShift(packet: seq<bool>, base: nat, h: nat, n: nat)
    requires h < 8 && n > 0 && 8 * base + h + n <= |packet|
    ensures Extracted(packet[8 * base..], h, n) == Extracted(packet, 8 * base + h, n)
  {
    hide Within;
    SameWithin(base, h);
    var o := if Straddles(h, n) then h - Pad(n) else h;
    SliceOfDrop(packet, 8 * base, o, h + n);
  }

  lemma SameWithin(base: nat, h: nat)
    requires h < 8
    ensures Within(8 * base + h) == h && Within(h) == h
  {
  }

  lemma SliceOfDrop<T>(s: seq<T>, a: nat, b: nat, c: nat)
    requires b <= c && a + c <= |s|
    ensures s[a..][b..c] == s[a + b..a + c]
  {
  }
}
