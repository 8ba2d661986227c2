/** Round trips of headers, and exactly which layouts have them. */
module HeaderTheorems {
  import opened Bits
  import opened FieldBits
  import opened HeaderBits

  /** No field clears bits of a field before it. */
  ghost predicate NoneClobbers(ws: seq<nat>) {
    forall i | 0 <= i < |ws| :: !Clobbers(Pos(ws, i), ws[i])
  }

  /** No field of less than a byte lies across two bytes. */
  ghost predicate NoneStraddles(ws: seq<nat>) {
    forall i | 0 <= i < |ws| :: !Straddles(Pos(ws, i), ws[i])
  }

  ghost predicate AllPadded(ws: seq<nat>, vs: seq<seq<bool>>) {
    |vs| == |ws| && forall i | 0 <= i < |ws| :: Padded(vs[i], ws[i])
  }

  // ----- one field -----

  /** The padding of `v` only sets bits that are set already. */
  predicate Harmless(packet: seq<bool>, pos: nat, n: nat, v: seq<bool>)
    requires n > 0 && pos + n <= |packet| && |v| == 8 * NBytes(n)
  {
    forall i | 0 <= i < Pad(n) && pos - Within(pos) <= pos - Pad(n) + i :: v[i] ==> packet[pos - Pad(n) + i]
  }

  /** Deparsing appends the payload of the field to the bits before it. */
  lemma DeparsedPrefix(packet: seq<bool>, pos: nat, n: nat, v: seq<bool>)
    requires n > 0 && pos + n <= |packet| && |v| == 8 * NBytes(n)
    requires !Clobbers(pos, n) && Harmless(packet, pos, n, v)
    ensures Deparsed(packet, pos, n, v)[..pos + n] == packet[..pos] + v[Pad(n)..]
  {
    var r := Deparsed(packet, pos, n, v);
    forall k | 0 <= k < pos + n ensures r[k] == (packet[..pos] + v[Pad(n)..])[k] {
      assert r[k] == DeparsedBit(packet, pos, n, v, k);
    }
  }

  /** What extraction leaves in the padding is harmless when the same bits are in place. */
  lemma ExtractedHarmless(packet: seq<bool>, from: seq<bool>, pos: nat, n: nat)
    requires n > 0 && pos + n <= |packet| && pos + n <= |from| && packet[..pos] == from[..pos]
    ensures Harmless(packet, pos, n, Extracted(from, pos, n))
    ensures Extracted(from, pos, n)[Pad(n)..] == from[pos..pos + n]
  {
    var v := Extracted(from, pos, n);
    forall i | 0 <= i < Pad(n) && pos - Within(pos) <= pos - Pad(n) + i ensures v[i] ==> packet[pos - Pad(n) + i] {
      if Straddles(pos, n) {
        assert packet[..pos][pos - Pad(n) + i] == from[..pos][pos - Pad(n) + i];
      }
    }
  }

  /** Extraction yields the field's bits behind clear padding, unless the field
      straddles and one of the bits before it, in the same byte, is set. */
  lemma ExtractionIsExactIff(packet: seq<bool>, pos: nat, n: nat)
    requires n > 0 && pos + n <= |packet|
    ensures Extracted(packet, pos, n) == Zeros(Pad(n)) + packet[pos..pos + n]
            <==> !Straddles(pos, n) || forall k | pos - Pad(n) <= k < pos :: !packet[k]
  {
    if Straddles(pos, n) {
      var e, z := Extracted(packet, pos, n), Zeros(Pad(n)) + packet[pos..pos + n];
      assert forall i | 0 <= i < Pad(n) :: e[i] == packet[pos - Pad(n) + i] && !z[i];
      if e == z {
        forall k | pos - Pad(n) <= k < pos ensures !packet[k] {
          assert e[k - pos + Pad(n)] == packet[k];
        }
      }
    }
  }

  /** Deparsing a value keeps the bits before the field, unless the field clobbers and
      one of those in the same byte is set. */
  lemma DeparsingIsExactIff(packet: seq<bool>, pos: nat, n: nat, v: seq<bool>)
    requires n > 0 && pos + n <= |packet| && Padded(v, n)
    ensures Deparsed(packet, pos, n, v)[..pos + n] == packet[..pos] + v[Pad(n)..]
            <==> !Clobbers(pos, n) || forall k | pos - Within(pos) <= k < pos :: !packet[k]
  {
    var r, e := Deparsed(packet, pos, n, v), packet[..pos] + v[Pad(n)..];
    if !Clobbers(pos, n) {
      DeparsedPrefix(packet, pos, n, v);
    } else {
      forall k | 0 <= k < pos + n
        ensures r[k] == if pos - Within(pos) <= k < pos then false else e[k]
      {
        assert r[k] == DeparsedBit(packet, pos, n, v, k);
      }
      if r[..pos + n] == e {
        forall k | pos - Within(pos) <= k < pos ensures !packet[k] {
          assert r[..pos + n][k] == e[k];
        }
      }
    }
  }

  // ----- packet bytes, to fields, to packet bytes -----

  lemma SurviveStep(packet: seq<bool>, from: seq<bool>, pos: nat, n: nat)
    requires n > 0 && pos + n <= |packet| && pos + n <= |from| && packet[..pos] == from[..pos] && !Clobbers(pos, n)
    ensures Deparsed(packet, pos, n, Extracted(from, pos, n))[..pos + n] == from[..pos + n]
  {
    hide Deparsed, Extracted, Harmless, Clobbers;
    ExtractedHarmless(packet, from, pos, n);
    DeparsedPrefix(packet, pos, n, Extracted(from, pos, n));
    assert from[..pos] + from[pos..pos + n] == from[..pos + n];
  }

  lemma RoundStep(ws: seq<nat>, from: seq<bool>, buffer: seq<bool>, i: nat)
    requires Layout(ws) && NoneClobbers(ws) && 0 < i <= |ws|
    requires Pos(ws, |ws|) <= |from| && Pos(ws, |ws|) <= |buffer|
    ensures ws[i - 1] > 0 && !Clobbers(Pos(ws, i - 1), ws[i - 1])
    ensures Pos(ws, i - 1) + ws[i - 1] <= Pos(ws, |ws|)
    ensures DeparseTo(buffer, ws, ExtractAll(from, ws), i) ==
            Deparsed(DeparseTo(buffer, ws, ExtractAll(from, ws), i - 1), Pos(ws, i - 1), ws[i - 1],
                     Extracted(from, Pos(ws, i - 1), ws[i - 1]))
  {
    hide Deparsed, Extracted;
    PosStep(ws, i - 1);
  }

  lemma {:induction false} BytesSurviveTo(ws: seq<nat>, from: seq<bool>, buffer: seq<bool>, i: nat)
    requires Layout(ws) && NoneClobbers(ws) && i <= |ws|
    requires Pos(ws, |ws|) <= |from| && Pos(ws, |ws|) <= |buffer|
    ensures Pos(ws, i) <= Pos(ws, |ws|)
    ensures DeparseTo(buffer, ws, ExtractAll(from, ws), i)[..Pos(ws, i)] == from[..Pos(ws, i)]
  {
    hide *;
    PosMonotonic(ws, i, |ws|);
    PosZero(ws);
    if i > 0 {
      BytesSurviveTo(ws, from, buffer, i - 1);
      PosStep(ws, i - 1);
      RoundStep(ws, from, buffer, i);
      SurviveStep(DeparseTo(buffer, ws, ExtractAll(from, ws), i - 1), from, Pos(ws, i - 1), ws[i - 1]);
    }
  }

  /** Extracting a packet and deparsing the fields gives back the packet. */
  ghost predicate BytesSurvive(ws: seq<nat>, from: seq<bool>, buffer: seq<bool>)
    requires Layout(ws) && Pos(ws, |ws|) <= |from| && Pos(ws, |ws|) <= |buffer|
  {
    DeparseTo(buffer, ws, ExtractAll(from, ws), |ws|)[..Pos(ws, |ws|)] == from[..Pos(ws, |ws|)]
  }

  // ----- fields, to packet bytes, to fields -----

  /** The payloads of the first `i` fields, one after the other. */
  function Payload(ws: seq<nat>, vs: seq<seq<bool>>, i: nat): (r: seq<bool>)
    requires Sized(ws, vs) && i <= |ws|
    ensures |r| == Pos(ws, i)
  {
    if i == 0 then [] else Payload(ws, vs, i - 1) + vs[i - 1][Pad(ws[i - 1])..]
  }

  lemma {:induction false} DeparseIsPayload(ws: seq<nat>, vs: seq<seq<bool>>, buffer: seq<bool>, i: nat)
    requires Layout(ws) && NoneClobbers(ws) && AllPadded(ws, vs) && i <= |ws| && Pos(ws, |ws|) <= |buffer|
    ensures Pos(ws, i) <= Pos(ws, |ws|)
    ensures DeparseTo(buffer, ws, vs, i)[..Pos(ws, i)] == Payload(ws, vs, i)
  {
    hide Pos, Payload, DeparseTo, Deparsed, Clobbers, Harmless, Straddles, Pad, NBytes;
    PosMonotonic(ws, i, |ws|);
    if i == 0 {
      PosZero(ws);
    } else {
      DeparseIsPayload(ws, vs, buffer, i - 1);
      DeparseNext(ws, vs, buffer, i);
      var r, pos, n, v := DeparseTo(buffer, ws, vs, i - 1), Pos(ws, i - 1), ws[i - 1], vs[i - 1];
      PaddedIsHarmless(r, pos, n, v);
      DeparsedPrefix(r, pos, n, v);
    }
  }

  lemma DeparseNext(ws: seq<nat>, vs: seq<seq<bool>>, buffer: seq<bool>, i: nat)
    requires Layout(ws) && NoneClobbers(ws) && AllPadded(ws, vs) && 0 < i <= |ws| && Pos(ws, |ws|) <= |buffer|
    ensures var pos, n, v := Pos(ws, i - 1), ws[i - 1], vs[i - 1];
            && n > 0 && pos + n == Pos(ws, i) <= Pos(ws, |ws|) && !Clobbers(pos, n) && Padded(v, n)
            && DeparseTo(buffer, ws, vs, i) == Deparsed(DeparseTo(buffer, ws, vs, i - 1), pos, n, v)
            && Payload(ws, vs, i) == Payload(ws, vs, i - 1) + v[Pad(n)..]
  {
    hide Deparsed, Clobbers;
    PosStep(ws, i - 1);
  }

  lemma PaddedIsHarmless(packet: seq<bool>, pos: nat, n: nat, v: seq<bool>)
    requires n > 0 && pos + n <= |packet| && Padded(v, n)
    ensures Harmless(packet, pos, n, v)
  {
  }

  lemma {:induction false} PayloadAt(ws: seq<nat>, vs: seq<seq<bool>>, i: nat, m: nat, k: nat)
    requires Sized(ws, vs) && i < m <= |ws| && k < ws[i]
    ensures Pos(ws, i) + k < Pos(ws, m)
    ensures Payload(ws, vs, m)[Pos(ws, i) + k] == vs[i][Pad(ws[i]) + k]
    decreases m
  {
    PosMonotonic(ws, i + 1, m);
    if i + 1 < m {
      PayloadAt(ws, vs, i, m - 1, k);
    }
  }

  /** Deparsing fields and extracting the packet gives back the fields. */
  ghost predicate ValuesSurvive(ws: seq<nat>, vs: seq<seq<bool>>, buffer: seq<bool>)
    requires Layout(ws) && Sized(ws, vs) && Pos(ws, |ws|) <= |buffer|
  {
    ExtractAll(DeparseTo(buffer, ws, vs, |ws|), ws) == vs
  }

  lemma ValueSurvives(ws: seq<nat>, vs: seq<seq<bool>>, buffer: seq<bool>, i: nat)
    requires Layout(ws) && NoneClobbers(ws) && NoneStraddles(ws) && AllPadded(ws, vs)
    requires Pos(ws, |ws|) <= |buffer| && i < |ws|
    ensures ExtractAt(DeparseTo(buffer, ws, vs, |ws|), ws, i) == vs[i]
  {
    hide DeparseTo, Payload, Extracted, Pos;
    var r, n := DeparseTo(buffer, ws, vs, |ws|), ws[i];
    DeparseIsPayload(ws, vs, buffer, |ws|);
    PosStep(ws, i);
    forall k | 0 <= k < 8 * NBytes(n) ensures Extracted(r, Pos(ws, i), n)[k] == vs[i][k] {
      ExtractedAt(r, Pos(ws, i), n, k);
      if k >= Pad(n) {
        PayloadAt(ws, vs, i, |ws|, k - Pad(n));
        assert r[Pos(ws, i) + k - Pad(n)] == r[..Pos(ws, |ws|)][Pos(ws, i) + k - Pad(n)];
      }
    }
  }

  // ----- the layouts that break a round trip -----

  function Ones(n: nat): (r: seq<bool>)
    ensures |r| == n && forall i | 0 <= i < n :: r[i]
  {
    seq(n, _ => true)
  }

  /** A field with all bits set, and clear padding. */
  function FullValue(n: nat): (v: seq<bool>)
    ensures Padded(v, n)
  {
    Zeros(Pad(n)) + Ones(n)
  }

  function FullValues(ws: seq<nat>): (vs: seq<seq<bool>>)
    ensures AllPadded(ws, vs) && forall i | 0 <= i < |ws| :: vs[i] == FullValue(ws[i])
  {
    seq(|ws|, i requires 0 <= i < |ws| => FullValue(ws[i]))
  }

  /** A clobbering field clears the bit before it. */
  lemma ClobberedBit(packet: seq<bool>, pos: nat, n: nat, v: seq<bool>)
    requires n > 0 && pos + n <= |packet| && Clobbers(pos, n) && Padded(v, n)
    ensures pos > 0 && !Deparsed(packet, pos, n, v)[pos - 1]
  {
    assert Deparsed(packet, pos, n, v)[pos - 1] == DeparsedBit(packet, pos, n, v, pos - 1);
  }

  /** Later fields do not touch that byte again. */
  lemma {:induction false} StaysCleared(ws: seq<nat>, vs: seq<seq<bool>>, buffer: seq<bool>, i: nat, m: nat)
    requires Layout(ws) && Sized(ws, vs) && Pos(ws, |ws|) <= |buffer| && i < m <= |ws|
    requires Clobbers(Pos(ws, i), ws[i]) && Padded(vs[i], ws[i])
    ensures 0 < Pos(ws, i) <= Pos(ws, |ws|) && !DeparseTo(buffer, ws, vs, m)[Pos(ws, i) - 1]
    decreases m
  {
    hide Deparsed;
    PosMonotonic(ws, i, |ws|);
    PosStep(ws, m - 1);
    var r := DeparseTo(buffer, ws, vs, m - 1);
    if i + 1 == m {
      ClobberedBit(r, Pos(ws, i), ws[i], vs[i]);
    } else {
      StaysCleared(ws, vs, buffer, i, m - 1);
      PosStep(ws, i);
      PosMonotonic(ws, i + 1, m - 1);
      UntouchedBit(r, Pos(ws, m - 1), ws[m - 1], vs[m - 1], Pos(ws, i) - 1);
    }
  }

  lemma UntouchedBit(packet: seq<bool>, pos: nat, n: nat, v: seq<bool>, k: nat)
    requires n > 0 && pos + n <= |packet| && |v| == 8 * NBytes(n) && k + 8 < pos
    ensures Deparsed(packet, pos, n, v)[k] == packet[k]
  {
    assert Deparsed(packet, pos, n, v)[k] == DeparsedBit(packet, pos, n, v, k);
  }

  /** For which layouts packets survive: exactly those without a clobbering field.
      Fields that straddle do no harm here, although their buffers are wrong. */
  lemma BytesSurviveIff(ws: seq<nat>, size: nat)
    requires Layout(ws) && Pos(ws, |ws|) <= size
    ensures NoneClobbers(ws) <==>
            forall from, buffer | |from| == size && |buffer| == size :: BytesSurvive(ws, from, buffer)
  {
    if NoneClobbers(ws) {
      forall from, buffer | |from| == size && |buffer| == size ensures BytesSurvive(ws, from, buffer) {
        BytesSurviveTo(ws, from, buffer, |ws|);
      }
    } else {
      BytesLost(ws, Ones(size));
    }
  }

  /** A packet of ones does not survive a clobbering field. */
  lemma BytesLost(ws: seq<nat>, from: seq<bool>)
    requires Layout(ws) && Pos(ws, |ws|) <= |from| && !NoneClobbers(ws) && from == Ones(|from|)
    ensures !BytesSurvive(ws, from, from)
  {
    hide Extracted, DeparseTo, Clobbers;
    var i :| 0 <= i < |ws| && Clobbers(Pos(ws, i), ws[i]);
    var vs := ExtractAll(from, ws);
    PosStep(ws, i);
    ClobberIsPadded(from, Pos(ws, i), ws[i]);
    StaysCleared(ws, vs, from, i, |ws|);
    var r := DeparseTo(from, ws, vs, |ws|);
    assert r[..Pos(ws, |ws|)][Pos(ws, i) - 1] != from[..Pos(ws, |ws|)][Pos(ws, i) - 1];
  }

  lemma ClobberIsPadded(from: seq<bool>, pos: nat, n: nat)
    requires n > 0 && pos + n <= |from| && Clobbers(pos, n)
    ensures Padded(Extracted(from, pos, n), n)
  {
  }

  /** For which layouts values survive: exactly those in which, besides, no field
      straddles. */
  lemma ValuesSurviveIff(ws: seq<nat>, size: nat)
    requires Layout(ws) && Pos(ws, |ws|) <= size
    ensures NoneClobbers(ws) && NoneStraddles(ws) <==>
            forall vs, buffer | AllPadded(ws, vs) && |buffer| == size :: ValuesSurvive(ws, vs, buffer)
  {
    if NoneClobbers(ws) && NoneStraddles(ws) {
      forall vs, buffer | AllPadded(ws, vs) && |buffer| == size ensures ValuesSurvive(ws, vs, buffer) {
        forall i | 0 <= i < |ws| ensures ExtractAt(DeparseTo(buffer, ws, vs, |ws|), ws, i) == vs[i] {
          ValueSurvives(ws, vs, buffer, i);
        }
      }
    } else {
      ValuesBroken(ws, Ones(size));
    }
  }

  lemma ValuesBroken(ws: seq<nat>, buffer: seq<bool>)
    requires Layout(ws) && Pos(ws, |ws|) <= |buffer| && !(NoneClobbers(ws) && NoneStraddles(ws))
    ensures !ValuesSurvive(ws, FullValues(ws), buffer)
  {
    var vs := FullValues(ws);
    if !NoneClobbers(ws) {
      var i :| 0 <= i < |ws| && Clobbers(Pos(ws, i), ws[i]);
      ClobberShows(ws, buffer, i);
    } else {
      var i :| 0 <= i < |ws| && Straddles(Pos(ws, i), ws[i]);
      StraddleShows(ws, buffer, i);
    }
  }

  /** The last bit of the field before a clobbering one is lost. */
  lemma ClobberShows(ws: seq<nat>, buffer: seq<bool>, i: nat)
    requires Layout(ws) && Pos(ws, |ws|) <= |buffer| && i < |ws| && Clobbers(Pos(ws, i), ws[i])
    ensures i > 0 && ExtractAt(DeparseTo(buffer, ws, FullValues(ws), |ws|), ws, i - 1) != FullValues(ws)[i - 1]
  {
    hide Extracted, DeparseTo, Pos, Payload, FullValue, Clobbers;
    var vs := FullValues(ws);
    var r := DeparseTo(buffer, ws, vs, |ws|);
    StaysCleared(ws, vs, buffer, i, |ws|);
    PosZero(ws);
    PosStep(ws, i - 1);
    var n := ws[i - 1];
    LastBit(r, Pos(ws, i - 1), n);
  }

  /** The last bit of a field is the one before its end; a full value has it set. */
  lemma LastBit(packet: seq<bool>, pos: nat, n: nat)
    requires n > 0 && pos + n <= |packet|
    ensures var k := 8 * NBytes(n) - 1; Extracted(packet, pos, n)[k] == packet[pos + n - 1] && FullValue(n)[k]
  {
    ExtractedAt(packet, pos, n, 8 * NBytes(n) - 1);
  }

  /** The padding of a straddling field is not clear. */
  lemma StraddleShows(ws: seq<nat>, buffer: seq<bool>, i: nat)
    requires Layout(ws) && Pos(ws, |ws|) <= |buffer| && i < |ws| && Straddles(Pos(ws, i), ws[i]) && NoneClobbers(ws)
    ensures ExtractAt(DeparseTo(buffer, ws, FullValues(ws), |ws|), ws, i) != FullValues(ws)[i]
  {
    hide Extracted, DeparseTo, Payload, Pos, NoneClobbers, FullValue;
    var vs := FullValues(ws);
    var r := DeparseTo(buffer, ws, vs, |ws|);
    PosStep(ws, i);
    DeparseIsPayload(ws, vs, buffer, |ws|);
    LeaksOne(r, Pos(ws, i), ws[i], Payload(ws, vs, |ws|));
    AllOnesBefore(ws, Pos(ws, i) - Pad(ws[i]), |ws|);
  }

  lemma LeaksOne(r: seq<bool>, pos: nat, n: nat, start: seq<bool>)
    requires n > 0 && pos + n <= |start| <= |r| && r[..|start|] == start && Straddles(pos, n)
    ensures pos >= Pad(n)
    ensures start[pos - Pad(n)] ==> Extracted(r, pos, n) != FullValue(n)
  {
    ExtractedAt(r, pos, n, 0);
    assert r[pos - Pad(n)] == r[..|start|][pos - Pad(n)];
  }

  lemma {:induction false} AllOnesBefore(ws: seq<nat>, k: nat, m: nat)
    requires Layout(ws) && m <= |ws| && k < Pos(ws, m)
    ensures Payload(ws, FullValues(ws), m)[k]
  {
    if k < Pos(ws, m - 1) {
      AllOnesBefore(ws, k, m - 1);
    }
  }
}
