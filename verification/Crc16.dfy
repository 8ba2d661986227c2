/** The table-driven CRC-16. */
module Crc16 {
  import opened Bits

  type Word16 = bv16

  // ----- the reference: division by the polynomial, bit by bit -----

  /** One step of the division: the register is shifted, and the polynomial subtracted if
      a bit falls out. */
  function Step(r: Word16): Word16 {
    if r & 0x8000 != 0 then (r << 1) ^ 0x8005 else r << 1
  }

  /** A bit of the message is added at the top first. */
  function Feed(r: Word16, bit: bool): Word16 {
    Step(if bit then r ^ 0x8000 else r)
  }

  /** The remainder after the bits of a message. */
  function Divided(r: Word16, bits: seq<bool>): Word16 {
    if bits == [] then r else Feed(Divided(r, bits[..|bits| - 1]), bits[|bits| - 1])
  }

  // ----- the table -----

  function Pick(i: Byte, e0: Word16, e1: Word16, e2: Word16, e3: Word16,
                e4: Word16, e5: Word16, e6: Word16, e7: Word16): Word16
  {
    if i & 4 == 0 then (if i & 2 == 0 then (if i & 1 == 0 then e0 else e1) else (if i & 1 == 0 then e2 else e3))
    else (if i & 2 == 0 then (if i & 1 == 0 then e4 else e5) else (if i & 1 == 0 then e6 else e7))
  }

  /** `table_crc16`, row by row. */
  function Table(i: Byte): Word16 {
    if i < 0x80 then (if i < 0x40 then Rows0(i) else Rows1(i)) else (if i < 0xc0 then Rows2(i) else Rows3(i))
  }

  function Rows0(i: Byte): Word16 {
    if i < 0x08 then Pick(i, 0x0000, 0x8005, 0x800f, 0x000a, 0x801b, 0x001e, 0x0014, 0x8011)
    else if i < 0x10 then Pick(i, 0x8033, 0x0036, 0x003c, 0x8039, 0x0028, 0x802d, 0x8027, 0x0022)
    else if i < 0x18 then Pick(i, 0x8063, 0x0066, 0x006c, 0x8069, 0x0078, 0x807d, 0x8077, 0x0072)
    else if i < 0x20 then Pick(i, 0x0050, 0x8055, 0x805f, 0x005a, 0x804b, 0x004e, 0x0044, 0x8041)
    else if i < 0x28 then Pick(i, 0x80c3, 0x00c6, 0x00cc, 0x80c9, 0x00d8, 0x80dd, 0x80d7, 0x00d2)
    else if i < 0x30 then Pick(i, 0x00f0, 0x80f5, 0x80ff, 0x00fa, 0x80eb, 0x00ee, 0x00e4, 0x80e1)
    else if i < 0x38 then Pick(i, 0x00a0, 0x80a5, 0x80af, 0x00aa, 0x80bb, 0x00be, 0x00b4, 0x80b1)
    else Pick(i, 0x8093, 0x0096, 0x009c, 0x8099, 0x0088, 0x808d, 0x8087, 0x0082)
  }

  function Rows1(i: Byte): Word16 {
    if i < 0x48 then Pick(i, 0x8183, 0x0186, 0x018c, 0x8189, 0x0198, 0x819d, 0x8197, 0x0192)
    else if i < 0x50 then Pick(i, 0x01b0, 0x81b5, 0x81bf, 0x01ba, 0x81ab, 0x01ae, 0x01a4, 0x81a1)
    else if i < 0x58 then Pick(i, 0x01e0, 0x81e5, 0x81ef, 0x01ea, 0x81fb, 0x01fe, 0x01f4, 0x81f1)
    else if i < 0x60 then Pick(i, 0x81d3, 0x01d6, 0x01dc, 0x81d9, 0x01c8, 0x81cd, 0x81c7, 0x01c2)
    else if i < 0x68 then Pick(i, 0x0140, 0x8145, 0x814f, 0x014a, 0x815b, 0x015e, 0x0154, 0x8151)
    else if i < 0x70 then Pick(i, 0x8173, 0x0176, 0x017c, 0x8179, 0x0168, 0x816d, 0x8167, 0x0162)
    else if i < 0x78 then Pick(i, 0x8123, 0x0126, 0x012c, 0x8129, 0x0138, 0x813d, 0x8137, 0x0132)
    else Pick(i, 0x0110, 0x8115, 0x811f, 0x011a, 0x810b, 0x010e, 0x0104, 0x8101)
  }

  function Rows2(i: Byte): Word16 {
    if i < 0x88 then Pick(i, 0x8303, 0x0306, 0x030c, 0x8309, 0x0318, 0x831d, 0x8317, 0x0312)
    else if i < 0x90 then Pick(i, 0x0330, 0x8335, 0x833f, 0x033a, 0x832b, 0x032e, 0x0324, 0x8321)
    else if i < 0x98 then Pick(i, 0x0360, 0x8365, 0x836f, 0x036a, 0x837b, 0x037e, 0x0374, 0x8371)
    else if i < 0xa0 then Pick(i, 0x8353, 0x0356, 0x035c, 0x8359, 0x0348, 0x834d, 0x8347, 0x0342)
    else if i < 0xa8 then Pick(i, 0x03c0, 0x83c5, 0x83cf, 0x03ca, 0x83db, 0x03de, 0x03d4, 0x83d1)
    else if i < 0xb0 then Pick(i, 0x83f3, 0x03f6, 0x03fc, 0x83f9, 0x03e8, 0x83ed, 0x83e7, 0x03e2)
    else if i < 0xb8 then Pick(i, 0x83a3, 0x03a6, 0x03ac, 0x83a9, 0x03b8, 0x83bd, 0x83b7, 0x03b2)
    else Pick(i, 0x0390, 0x8395, 0x839f, 0x039a, 0x838b, 0x038e, 0x0384, 0x8381)
  }

  function Rows3(i: Byte): Word16 {
    if i < 0xc8 then Pick(i, 0x0280, 0x8285, 0x828f, 0x028a, 0x829b, 0x029e, 0x0294, 0x8291)
    else if i < 0xd0 then Pick(i, 0x82b3, 0x02b6, 0x02bc, 0x82b9, 0x02a8, 0x82ad, 0x82a7, 0x02a2)
    else if i < 0xd8 then Pick(i, 0x82e3, 0x02e6, 0x02ec, 0x82e9, 0x02f8, 0x82fd, 0x82f7, 0x02f2)
    else if i < 0xe0 then Pick(i, 0x02d0, 0x82d5, 0x82df, 0x02da, 0x82cb, 0x02ce, 0x02c4, 0x82c1)
    else if i < 0xe8 then Pick(i, 0x8243, 0x0246, 0x024c, 0x8249, 0x0258, 0x825d, 0x8257, 0x0252)
    else if i < 0xf0 then Pick(i, 0x0270, 0x8275, 0x827f, 0x027a, 0x826b, 0x026e, 0x0264, 0x8261)
    else if i < 0xf8 then Pick(i, 0x0220, 0x8225, 0x822f, 0x022a, 0x823b, 0x023e, 0x0234, 0x8231)
    else Pick(i, 0x8213, 0x0216, 0x021c, 0x8219, 0x0208, 0x820d, 0x8207, 0x0202)
  }

  function Steps8(r: Word16): Word16 {
    Step(Step(Step(Step(Step(Step(Step(Step(r))))))))
  }

  /** An entry of the table is eight steps for a byte at the top of the register. */
  lemma TableIsDivision(i: Byte)
    ensures Table(i) == Steps8((i as Word16) << 8)
  {
    hide Rows0, Rows1, Rows2, Rows3, Steps8;
    if i < 0x40 {
      Rows0Divide(i);
    } else if i < 0x80 {
      Rows1Divide(i);
    } else if i < 0xc0 {
      Rows2Divide(i);
    } else {
      Rows3Divide(i);
    }
  }

  lemma Rows0Divide(i: Byte)
    requires i < 0x40
    ensures Rows0(i) == Steps8((i as Word16) << 8)
  {
  }

  lemma Rows1Divide(i: Byte)
    requires 0x40 <= i < 0x80
    ensures Rows1(i) == Steps8((i as Word16) << 8)
  {
  }

  lemma Rows2Divide(i: Byte)
    requires 0x80 <= i < 0xc0
    ensures Rows2(i) == Steps8((i as Word16) << 8)
  {
  }

  lemma Rows3Divide(i: Byte)
    requires 0xc0 <= i
    ensures Rows3(i) == Steps8((i as Word16) << 8)
  {
  }

  function Xor(x: Word16, y: Word16): Word16 { x ^ y }

  function Shl1(x: Word16): Word16 { x << 1 }

  predicate Top(x: Word16) { x & 0x8000 != 0 }

  lemma StepIs(r: Word16)
    ensures Step(r) == if Top(r) then Xor(Shl1(r), 0x8005) else Shl1(r)
  {
  }

  lemma XorTop(x: Word16, y: Word16)
    ensures Top(Xor(x, y)) == (Top(x) != Top(y))
  {
  }

  lemma XorShl(x: Word16, y: Word16)
    ensures Shl1(Xor(x, y)) == Xor(Shl1(x), Shl1(y))
  {
  }

  lemma XorRules(a: Word16, b: Word16, p: Word16)
    ensures Xor(Xor(a, p), b) == Xor(Xor(a, b), p)
    ensures Xor(a, Xor(b, p)) == Xor(Xor(a, b), p)
    ensures Xor(Xor(a, p), Xor(b, p)) == Xor(a, b)
  {
    hide *;
    XorSwaps(a, b, p);
    XorJoins(a, b, p);
    XorCancels(a, b, p);
  }

  lemma XorSwaps(a: Word16, b: Word16, p: Word16)
    ensures Xor(Xor(a, p), b) == Xor(Xor(a, b), p)
  {
  }

  lemma XorJoins(a: Word16, b: Word16, p: Word16)
    ensures Xor(a, Xor(b, p)) == Xor(Xor(a, b), p)
  {
  }

  lemma XorCancels(a: Word16, b: Word16, p: Word16)
    ensures Xor(Xor(a, p), Xor(b, p)) == Xor(a, b)
  {
    hide *;
    XorJoins(Xor(a, p), b, p);
    XorSwaps(a, b, p);
    XorTwice(Xor(a, b), p);
  }

  lemma XorTwice(a: Word16, p: Word16)
    ensures Xor(Xor(a, p), p) == a
  {
  }

  /** Dividing is linear. */
  lemma StepLinear(x: Word16, y: Word16)
    ensures Step(Xor(x, y)) == Xor(Step(x), Step(y))
  {
    hide *;
    StepIs(x);
    StepIs(y);
    StepIs(Xor(x, y));
    XorTop(x, y);
    XorShl(x, y);
    XorRules(Shl1(x), Shl1(y), 0x8005);
  }

  /** What is below the top byte is only shifted. */
  lemma StepsBelow(lo: Word16)
    requires lo & 0xff00 == 0
    ensures Steps8(lo) == lo << 8
  {
  }

  lemma StepsLinear(x: Word16, y: Word16)
    ensures Steps8(Xor(x, y)) == Xor(Steps8(x), Steps8(y))
  {
    hide Step, Xor;
    var x1, y1 := Step(x), Step(y);
    var x2, y2 := Step(x1), Step(y1);
    var x3, y3 := Step(x2), Step(y2);
    var x4, y4 := Step(x3), Step(y3);
    var x5, y5 := Step(x4), Step(y4);
    var x6, y6 := Step(x5), Step(y5);
    var x7, y7 := Step(x6), Step(y6);
    StepLinear(x, y);
    StepLinear(x1, y1);
    StepLinear(x2, y2);
    StepLinear(x3, y3);
    StepLinear(x4, y4);
    StepLinear(x5, y5);
    StepLinear(x6, y6);
    StepLinear(x7, y7);
  }

  function TopByte(r: Word16): Byte { (r >> 8) as Byte }

  function LowByte(r: Word16): Word16 { r & 0x00ff }

  /** A byte at the top of the register. */
  function AtTop(b: Byte): Word16 { (b as Word16) << 8 }

  function XorByte(b: Byte, c: Byte): Byte { b ^ c }

  function Shl8(r: Word16): Word16 { r << 8 }

  lemma Halves(r: Word16, b: Byte)
    ensures Xor(r, AtTop(b)) == Xor(AtTop(XorByte(b, TopByte(r))), LowByte(r))
  {
    hide *;
    AtTopXor(b, TopByte(r));
    TopAndLow(r);
    XorTurn(AtTop(b), AtTop(TopByte(r)), LowByte(r));
  }

  lemma AtTopXor(b: Byte, c: Byte)
    ensures AtTop(XorByte(b, c)) == Xor(AtTop(b), AtTop(c))
  {
  }

  lemma TopAndLow(r: Word16)
    ensures r == Xor(AtTop(TopByte(r)), LowByte(r))
  {
  }

  lemma XorTurn(a: Word16, b: Word16, c: Word16)
    ensures Xor(Xor(b, c), a) == Xor(Xor(a, b), c)
  {
    hide Xor;
    XorRules(b, a, c);
    XorCommutes(a, b);
  }

  lemma XorCommutes(a: Word16, b: Word16)
    ensures Xor(a, b) == Xor(b, a)
  {
  }

  lemma LowSteps(r: Word16)
    ensures Steps8(LowByte(r)) == Shl8(r)
  {
    hide Steps8;
    LowIsLow(r);
    StepsBelow(LowByte(r));
  }

  lemma LowIsLow(r: Word16)
    ensures LowByte(r) & 0xff00 == 0 && LowByte(r) << 8 == Shl8(r)
  {
  }

  lemma TableIs(i: Byte)
    ensures Table(i) == Steps8(AtTop(i))
  {
    TableIsDivision(i);
  }

  /** A step of the table loop is eight steps of the division. */
  lemma TableStep(r: Word16, b: Byte)
    ensures Xor(Table(XorByte(b, TopByte(r))), Shl8(r)) == Steps8(Xor(r, AtTop(b)))
  {
    hide *;
    Halves(r, b);
    TableIs(XorByte(b, TopByte(r)));
    StepsLinear(AtTop(XorByte(b, TopByte(r))), LowByte(r));
    LowSteps(r);
  }

  // ----- bytes, bit by bit -----

  /** The bits of a byte at the top, fed one by one, the most significant first. */
  function FedByte(r: Word16, b: Byte): Word16 {
    var high := Feed(Feed(Feed(Feed(r, Bit(b, 0)), Bit(b, 1)), Bit(b, 2)), Bit(b, 3));
    Feed(Feed(Feed(Feed(high, Bit(b, 4)), Bit(b, 5)), Bit(b, 6)), Bit(b, 7))
  }

  lemma FeedLinear(x: Word16, y: Word16, bit: bool)
    ensures Feed(Xor(x, y), bit) == Xor(Step(x), Feed(y, bit))
  {
    hide *;
    FeedIs(Xor(x, y), bit);
    FeedIs(y, bit);
    if bit {
      XorRules(x, y, 0x8000);
      StepLinear(x, Xor(y, 0x8000));
    } else {
      StepLinear(x, y);
    }
  }

  lemma FeedIs(x: Word16, bit: bool)
    ensures Feed(x, bit) == Step(if bit then Xor(x, 0x8000) else x)
  {
    hide Step;
  }

  lemma FedByteIsSteps(r: Word16, b: Byte)
    ensures FedByte(r, b) == Steps8(Xor(r, AtTop(b)))
  {
    hide Step, Feed, Xor, Bit, AtTop;
    var b0, b1, b2, b3 := Bit(b, 0), Bit(b, 1), Bit(b, 2), Bit(b, 3);
    var b4, b5, b6, b7 := Bit(b, 4), Bit(b, 5), Bit(b, 6), Bit(b, 7);
    var r1, z1 := Step(r), Feed(0, b0);
    var r2, z2 := Step(r1), Feed(z1, b1);
    var r3, z3 := Step(r2), Feed(z2, b2);
    var r4, z4 := Step(r3), Feed(z3, b3);
    var r5, z5 := Step(r4), Feed(z4, b4);
    var r6, z6 := Step(r5), Feed(z5, b5);
    var r7, z7 := Step(r6), Feed(z6, b6);
    XorZero(r);
    FeedLinear(r, 0, b0);
    FeedLinear(r1, z1, b1);
    FeedLinear(r2, z2, b2);
    FeedLinear(r3, z3, b3);
    FeedLinear(r4, z4, b4);
    FeedLinear(r5, z5, b5);
    FeedLinear(r6, z6, b6);
    FeedLinear(r7, z7, b7);
    FedAlone(b);
    StepsLinear(r, AtTop(b));
  }

  lemma XorZero(r: Word16)
    ensures Xor(r, 0) == r
  {
  }

  lemma FedAlone(b: Byte)
    ensures FedByte(0, b) == Steps8(AtTop(b))
  {
    hide Step, Feed, Bit, AtTop, Steps8;
    TopBits(b);
    FedTop(AtTop(b));
  }

  lemma TopBits(b: Byte)
    ensures var w := AtTop(b);
            && w & 0x00ff == 0
            && Bit(b, 0) == (w & 0x8000 != 0) && Bit(b, 1) == (w & 0x4000 != 0) && Bit(b, 2) == (w & 0x2000 != 0)
            && Bit(b, 3) == (w & 0x1000 != 0) && Bit(b, 4) == (w & 0x0800 != 0) && Bit(b, 5) == (w & 0x0400 != 0)
            && Bit(b, 6) == (w & 0x0200 != 0) && Bit(b, 7) == (w & 0x0100 != 0)
  {
  }

  lemma FedTop(w: Word16)
    requires w & 0x00ff == 0
    ensures var high := Feed4(0, w & 0x8000 != 0, w & 0x4000 != 0, w & 0x2000 != 0, w & 0x1000 != 0);
            Feed4(high, w & 0x0800 != 0, w & 0x0400 != 0, w & 0x0200 != 0, w & 0x0100 != 0) == Steps8(w)
  {
    hide Step, Feed, Xor, Steps4;
    FedHigh(w);
    FedLow(w);
    var high, low := HighNibble(w), LowNibble(w);
    Feed4Linear(Steps4(high), w & 0x0800 != 0, w & 0x0400 != 0, w & 0x0200 != 0, w & 0x0100 != 0);
    Nibbles(w);
    Steps4Linear(high, low);
    Steps4Linear(Steps4(high), Steps4(low));
    Steps4Twice(w);
  }

  function Feed4(r: Word16, b0: bool, b1: bool, b2: bool, b3: bool): Word16 {
    Feed(Feed(Feed(Feed(r, b0), b1), b2), b3)
  }

  function Steps4(r: Word16): Word16 {
    Step(Step(Step(Step(r))))
  }

  function HighNibble(w: Word16): Word16 { w & 0xf000 }

  function LowNibble(w: Word16): Word16 { w & 0x0f00 }

  lemma Nibbles(w: Word16)
    requires w & 0x00ff == 0
    ensures w == Xor(HighNibble(w), LowNibble(w))
  {
  }

  lemma Steps4Twice(w: Word16)
    ensures Steps8(w) == Steps4(Steps4(w))
  {
    hide Step;
  }

  lemma FedHigh(w: Word16)
    ensures Feed4(0, w & 0x8000 != 0, w & 0x4000 != 0, w & 0x2000 != 0, w & 0x1000 != 0) == Steps4(HighNibble(w))
  {
  }

  lemma FedLow(w: Word16)
    ensures Feed4(0, w & 0x0800 != 0, w & 0x0400 != 0, w & 0x0200 != 0, w & 0x0100 != 0) == Steps4(Steps4(LowNibble(w)))
  {
  }

  lemma Feed4Linear(r: Word16, b0: bool, b1: bool, b2: bool, b3: bool)
    ensures Feed4(r, b0, b1, b2, b3) == Xor(Steps4(r), Feed4(0, b0, b1, b2, b3))
  {
    hide Step, Feed, Xor;
    var r1, z1 := Step(r), Feed(0, b0);
    var r2, z2 := Step(r1), Feed(z1, b1);
    var r3, z3 := Step(r2), Feed(z2, b2);
    XorZero(r);
    FeedLinear(r, 0, b0);
    FeedLinear(r1, z1, b1);
    FeedLinear(r2, z2, b2);
    FeedLinear(r3, z3, b3);
  }

  lemma Steps4Linear(x: Word16, y: Word16)
    ensures Steps4(Xor(x, y)) == Xor(Steps4(x), Steps4(y))
  {
    hide Step, Xor;
    StepLinear(x, y);
    StepLinear(Step(x), Step(y));
    StepLinear(Step(Step(x)), Step(Step(y)));
    StepLinear(Step(Step(Step(x))), Step(Step(Step(y))));
  }

  // ----- reflection -----

  function Or16(x: Word16, y: Word16): Word16 { x | y }

  function Shr1(x: Word16): Word16 { x >> 1 }

  predicate Odd(x: Word16) { x & 0x0001 != 0 }

  /** `reflect`, for the low bits of a number. */
  method Reflect(data: Word16, nBits: nat) returns (reflection: Word16)
    requires nBits == 8 || nBits == 16
    ensures reflection == Reflected(0, data, if nBits == 8 then 0x0080 else 0x8000, nBits)
  {
    hide Or16, Shr1, Odd;
    var rest, mask := data, if nBits == 8 then 0x0080 else 0x8000;
    reflection := 0;
    for bit := 0 to nBits
      invariant Reflected(0, data, if nBits == 8 then 0x0080 else 0x8000, nBits) ==
                Reflected(reflection, rest, mask, nBits - bit)
    {
      if Odd(rest) {
        reflection := Or16(reflection, mask);
      }
      rest, mask := Shr1(rest), Shr1(mask);
    }
  }

  function Reflected(acc: Word16, data: Word16, mask: Word16, n: nat): Word16
    decreases n
  {
    if n == 0 then acc
    else Reflected(if Odd(data) then Or16(acc, mask) else acc, Shr1(data), Shr1(mask), n - 1)
  }

  /** The eight bits of a byte, the other way round. */
  function Reverse8(d: Word16): Word16 {
    (if d & 0x01 != 0 then 0x80 else 0) | (if d & 0x02 != 0 then 0x40 else 0)
    | (if d & 0x04 != 0 then 0x20 else 0) | (if d & 0x08 != 0 then 0x10 else 0)
    | (if d & 0x10 != 0 then 0x08 else 0) | (if d & 0x20 != 0 then 0x04 else 0)
    | (if d & 0x40 != 0 then 0x02 else 0) | (if d & 0x80 != 0 then 0x01 else 0)
  }

  /** The sixteen bits of a word: its bytes change places, and each is turned around. */
  function Reverse16(d: Word16): Word16 {
    Or16(Shl8(Reverse8(d)), Reverse8(Shifted8(d)))
  }

  lemma ReflectedOne(acc: Word16, d: Word16, mask: Word16, n: nat)
    ensures Reflected(acc, d, mask, n + 1) == Reflected(Turned(acc, d, mask), Shr1(d), Shr1(mask), n)
  {
    hide Odd, Or16, Shr1;
  }

  /** Four turns of the loop. */
  lemma ReflectedFour(acc: Word16, d: Word16, mask: Word16, n: nat)
    ensures Reflected(acc, d, mask, n + 4) == Reflected(Turned4(acc, d, mask), Shifted4(d), Shifted4(mask), n)
  {
    hide Odd, Or16, Shr1, Turned, Reflected;
    var d1, m1, a1 := Shr1(d), Shr1(mask), Turned(acc, d, mask);
    var d2, m2, a2 := Shr1(d1), Shr1(m1), Turned(a1, d1, m1);
    var d3, m3, a3 := Shr1(d2), Shr1(m2), Turned(a2, d2, m2);
    ReflectedOne(acc, d, mask, n + 3);
    ReflectedOne(a1, d1, m1, n + 2);
    ReflectedOne(a2, d2, m2, n + 1);
    ReflectedOne(a3, d3, m3, n);
  }

  lemma ReflectedEight(acc: Word16, d: Word16, mask: Word16, n: nat)
    ensures Reflected(acc, d, mask, n + 8) == Reflected(Turned8(acc, d, mask), Shifted8(d), Shifted8(mask), n)
  {
    hide Turned4, Shifted4, Reflected;
    ReflectedFour(acc, d, mask, n + 4);
    ReflectedFour(Turned4(acc, d, mask), Shifted4(d), Shifted4(mask), n);
  }

  function Turned(acc: Word16, d: Word16, mask: Word16): Word16 {
    if Odd(d) then Or16(acc, mask) else acc
  }

  function Shifted4(x: Word16): Word16 {
    Shr1(Shr1(Shr1(Shr1(x))))
  }

  function Shifted8(x: Word16): Word16 {
    Shifted4(Shifted4(x))
  }

  function Turned4(acc: Word16, d: Word16, mask: Word16): Word16 {
    var d1, m1, a1 := Shr1(d), Shr1(mask), Turned(acc, d, mask);
    var d2, m2, a2 := Shr1(d1), Shr1(m1), Turned(a1, d1, m1);
    var d3, m3, a3 := Shr1(d2), Shr1(m2), Turned(a2, d2, m2);
    Turned(a3, d3, m3)
  }

  function Turned8(acc: Word16, d: Word16, mask: Word16): Word16 {
    Turned4(Turned4(acc, d, mask), Shifted4(d), Shifted4(mask))
  }

  lemma ReflectIsReverse(d: Word16)
    ensures Reflected(0, d, 0x0080, 8) == Reverse8(d)
    ensures Reflected(0, d, 0x8000, 16) == Reverse16(d)
  {
    hide Turned8, Shifted8, Reverse8, Odd, Or16, Shr1, Shl8, Reflected;
    ReflectedEight(0, d, 0x0080, 0);
    ReflectedEight(0, d, 0x8000, 8);
    ReflectedEight(Turned8(0, d, 0x8000), Shifted8(d), Shifted8(0x8000), 0);
    ReflectedDone(Turned8(0, d, 0x0080), Shifted8(d), Shifted8(0x0080));
    ReflectedDone(Turned8(Turned8(0, d, 0x8000), Shifted8(d), Shifted8(0x8000)), Shifted8(Shifted8(d)),
                  Shifted8(Shifted8(0x8000)));
    ReverseBits(d);
    ReverseBits(Shifted8(d));
    MaskMoves();
    TurnedOr8(Turned8(0, d, 0x8000), Shifted8(d), 0x0080);
  }

  lemma ReflectedDone(acc: Word16, d: Word16, mask: Word16)
    ensures Reflected(acc, d, mask, 0) == acc
  {
  }

  lemma MaskMoves()
    ensures Shifted8(0x8000) == 0x0080
  {
  }

  lemma ReverseBits(d: Word16)
    ensures Turned8(0, d, 0x0080) == Reverse8(d) && Turned8(0, d, 0x8000) == Shl8(Reverse8(d))
  {
    hide *;
    ReverseLow(d);
    ReverseHigh(d);
  }

  lemma ReverseLow(d: Word16)
    ensures Turned8(0, d, 0x0080) == Reverse8(d)
  {
  }

  lemma ReverseHigh(d: Word16)
    ensures Turned8(0, d, 0x8000) == Shl8(Reverse8(d))
  {
  }

  lemma OrRules(a: Word16, b: Word16, c: Word16)
    ensures Or16(Or16(a, b), c) == Or16(a, Or16(b, c)) && Or16(a, 0) == a
  {
  }

  lemma TurnedOr(a: Word16, b: Word16, d: Word16, mask: Word16)
    ensures Turned(Or16(a, b), d, mask) == Or16(a, Turned(b, d, mask))
  {
    hide Or16, Odd;
    OrRules(a, b, mask);
  }

  lemma TurnedOr4(a: Word16, b: Word16, d: Word16, mask: Word16)
    ensures Turned4(Or16(a, b), d, mask) == Or16(a, Turned4(b, d, mask))
  {
    hide Odd, Or16, Shr1, Turned;
    var d1, m1, b1 := Shr1(d), Shr1(mask), Turned(b, d, mask);
    var d2, m2, b2 := Shr1(d1), Shr1(m1), Turned(b1, d1, m1);
    var d3, m3, b3 := Shr1(d2), Shr1(m2), Turned(b2, d2, m2);
    TurnedOr(a, b, d, mask);
    TurnedOr(a, b1, d1, m1);
    TurnedOr(a, b2, d2, m2);
    TurnedOr(a, b3, d3, m3);
  }

  /** What was found before stays. */
  lemma TurnedOr8(a: Word16, d: Word16, mask: Word16)
    ensures Turned8(a, d, mask) == Or16(a, Turned8(0, d, mask))
  {
    hide Or16, Turned4, Shifted4;
    OrRules(a, 0, 0);
    TurnedOr4(a, 0, d, mask);
    TurnedOr4(a, Turned4(0, d, mask), Shifted4(d), Shifted4(mask));
  }

  // ----- messages -----

  lemma {:induction false} DividedConcat(r: Word16, s: seq<bool>, t: seq<bool>)
    ensures Divided(r, s + t) == Divided(Divided(r, s), t)
  {
    hide Feed;
    if t == [] {
      assert s + t == s;
    } else {
      assert (s + t)[..|s + t| - 1] == s + t[..|t| - 1];
      DividedConcat(r, s, t[..|t| - 1]);
    }
  }

  /** The bits of a byte, the least significant first. */
  function LsbFirst(b: Byte): (s: seq<bool>)
    ensures |s| == 8
  {
    [Bit(b, 7), Bit(b, 6), Bit(b, 5), Bit(b, 4), Bit(b, 3), Bit(b, 2), Bit(b, 1), Bit(b, 0)]
  }

  function MessageBits(buf: seq<Byte>): seq<bool> {
    if buf == [] then [] else MessageBits(buf[..|buf| - 1]) + LsbFirst(buf[|buf| - 1])
  }

  lemma DividedFour(r: Word16, s: seq<bool>)
    requires |s| == 4
    ensures Divided(r, s) == Feed(Feed(Feed(Feed(r, s[0]), s[1]), s[2]), s[3])
  {
    hide Feed;
    assert s[..3][..2] == s[..2] && s[..2][..1] == s[..1] && s[..1][..0] == [];
    assert Divided(r, s[..1]) == Feed(r, s[0]);
    assert Divided(r, s[..2]) == Feed(Divided(r, s[..1]), s[1]);
    assert Divided(r, s[..3]) == Feed(Divided(r, s[..2]), s[2]);
  }

  /** Dividing by the bits of a byte from the other end is feeding the byte turned around. */
  lemma DividedByte(r: Word16, b: Byte)
    ensures Divided(r, LsbFirst(b)) == FedByte(r, Turn(b))
  {
    hide Feed, Divided, Bit, Turn;
    var s := LsbFirst(b);
    assert s == s[..4] + s[4..];
    DividedConcat(r, s[..4], s[4..]);
    DividedFour(r, s[..4]);
    DividedFour(Divided(r, s[..4]), s[4..]);
    TurnBits(b);
  }

  function Turn(b: Byte): Byte {
    Reverse8(b as Word16) as Byte
  }

  function LowOf(w: Word16): Byte {
    (w & 0x00ff) as Byte
  }

  lemma TurnIsLow(b: Byte)
    ensures LowOf(Reverse8(b as Word16)) == Turn(b)
  {
  }

  lemma TurnBits(b: Byte)
    ensures Bit(Turn(b), 0) == Bit(b, 7) && Bit(Turn(b), 1) == Bit(b, 6) && Bit(Turn(b), 2) == Bit(b, 5)
    ensures Bit(Turn(b), 3) == Bit(b, 4) && Bit(Turn(b), 4) == Bit(b, 3) && Bit(Turn(b), 5) == Bit(b, 2)
    ensures Bit(Turn(b), 6) == Bit(b, 1) && Bit(Turn(b), 7) == Bit(b, 0)
  {
  }

  /** `ntohs` on a little-endian machine. */
  function SwapBytes(w: Word16): Word16 {
    (w << 8) | (w >> 8)
  }

  /** The two bytes change places. */
  lemma BytesAreSwapped(w: Word16)
    ensures SwapBytes(w) >> 8 == w & 0x00ff && SwapBytes(w) & 0x00ff == w >> 8
    ensures SwapBytes(SwapBytes(w)) == w
  {
  }

  /** `crc16`: the table loop is the division of the message, its bytes read from the
      least significant bit; the remainder is turned around and its bytes change places. */
  method Crc16(buf: seq<Byte>) returns (crc: Word16)
    ensures crc == SwapBytes(Reverse16(Divided(0x0000, MessageBits(buf))))
  {
    hide Divided, MessageBits, Table, Reverse8, Reverse16, Reflected, SwapBytes, Xor, XorByte, TopByte, Shl8, LowOf,
         Turn;
    var remainder: Word16 := 0x0000;
    Nothing(buf);
    for byte := 0 to |buf|
      invariant remainder == Divided(0x0000, MessageBits(buf[..byte]))
    {
      var reflected := Reflect(buf[byte] as Word16, 8);
      ReflectIsReverse(buf[byte] as Word16);
      TurnIsLow(buf[byte]);
      var data := XorByte(LowOf(reflected), TopByte(remainder));
      NextByte(remainder, buf, byte);
      remainder := Xor(Table(data), Shl8(remainder));
    }
    assert buf[..|buf|] == buf;
    ReflectIsReverse(remainder);
    var result := Reflect(remainder, 16);
    crc := SwapBytes(result);
  }

  lemma Nothing(buf: seq<Byte>)
    ensures MessageBits(buf[..0]) == [] && Divided(0x0000, []) == 0x0000
  {
  }

  lemma NextByte(r: Word16, buf: seq<Byte>, k: nat)
    requires k < |buf| && r == Divided(0x0000, MessageBits(buf[..k]))
    ensures Xor(Table(XorByte(Turn(buf[k]), TopByte(r))), Shl8(r)) == Divided(0x0000, MessageBits(buf[..k + 1]))
  {
    hide Divided, Table, Turn, Xor, XorByte, TopByte, Shl8, LsbFirst, FedByte, Steps8;
    TableStep(r, Turn(buf[k]));
    FedByteIsSteps(r, Turn(buf[k]));
    DividedByte(r, buf[k]);
    assert buf[..k + 1][..k] == buf[..k];
    DividedConcat(0x0000, MessageBits(buf[..k]), LsbFirst(buf[k]));
  }
}
