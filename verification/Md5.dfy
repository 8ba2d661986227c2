/** MD5 over a stream of updates. */
module Md5 {
  import opened Bits
  import opened Buffers
  import opened Wrappers

  type Word32 = bv32

  datatype Digest = Digest(a: Word32, b: Word32, c: Word32, d: Word32)

  const INIT := Digest(0x67452301, 0xefcdab89, 0x98badcfe, 0x10325476)

  // ----- the functions of the rounds -----

  function F(x: Word32, y: Word32, z: Word32): Word32 { z ^ (x & (y ^ z)) }

  function G(x: Word32, y: Word32, z: Word32): Word32 { y ^ (z & (x ^ y)) }

  function H(x: Word32, y: Word32, z: Word32): Word32 { (x ^ y) ^ z }

  function H2(x: Word32, y: Word32, z: Word32): Word32 { x ^ (y ^ z) }

  function I(x: Word32, y: Word32, z: Word32): Word32 { y ^ (x | !z) }

  /** They are the functions of section 3.4 of RFC 1321. */
  lemma FIsSelect(x: Word32, y: Word32, z: Word32)
    ensures F(x, y, z) == (x & y) | (!x & z)
  {
  }

  lemma GIsSelect(x: Word32, y: Word32, z: Word32)
    ensures G(x, y, z) == (x & z) | (y & !z)
  {
  }

  lemma H2IsH(x: Word32, y: Word32, z: Word32)
    ensures H2(x, y, z) == H(x, y, z)
  {
  }

  // ----- the reference: section 3.4 of RFC 1321 -----

  function RoundFunction(i: nat, x: Word32, y: Word32, z: Word32): Word32
    requires i < 64
  {
    match i / 16
    case 0 => (x & y) | (!x & z)
    case 1 => (x & z) | (y & !z)
    case 2 => x ^ y ^ z
    case _ => y ^ (x | !z)
  }

  /** The word of the block that step `i` takes. */
  function WordIndex(i: nat): (k: nat)
    requires i < 64
    ensures k < 16
  {
    if i < 16 then i
    else if i < 32 then (1 + 5 * i) % 16
    else if i < 48 then (5 + 3 * i) % 16
    else 7 * i % 16
  }

  function Shift(i: nat): (s: Word32)
    requires i < 64
    ensures 0 < s < 32
  {
    if i < 16 then OneOf(i, 7, 12, 17, 22)
    else if i < 32 then OneOf(i, 5, 9, 14, 20)
    else if i < 48 then OneOf(i, 4, 11, 16, 23)
    else OneOf(i, 6, 10, 15, 21)
  }

  function OneOf(i: nat, w0: Word32, w1: Word32, w2: Word32, w3: Word32): Word32 {
    if i % 4 == 0 then w0 else if i % 4 == 1 then w1 else if i % 4 == 2 then w2 else w3
  }

  /** The 4294967296 * abs(sin(i + 1)) of the RFC, as integers. */
  function Sine(i: nat): Word32
    requires i < 64
  {
    if i < 32 then (if i < 16 then Sines1(i) else Sines2(i)) else (if i < 48 then Sines3(i) else Sines4(i))
  }

  function Sines1(i: nat): Word32 {
    if i < 4 then OneOf(i, 0xd76aa478, 0xe8c7b756, 0x242070db, 0xc1bdceee)
    else if i < 8 then OneOf(i, 0xf57c0faf, 0x4787c62a, 0xa8304613, 0xfd469501)
    else if i < 12 then OneOf(i, 0x698098d8, 0x8b44f7af, 0xffff5bb1, 0x895cd7be)
    else OneOf(i, 0x6b901122, 0xfd987193, 0xa679438e, 0x49b40821)
  }

  function Sines2(i: nat): Word32 {
    if i < 20 then OneOf(i, 0xf61e2562, 0xc040b340, 0x265e5a51, 0xe9b6c7aa)
    else if i < 24 then OneOf(i, 0xd62f105d, 0x02441453, 0xd8a1e681, 0xe7d3fbc8)
    else if i < 28 then OneOf(i, 0x21e1cde6, 0xc33707d6, 0xf4d50d87, 0x455a14ed)
    else OneOf(i, 0xa9e3e905, 0xfcefa3f8, 0x676f02d9, 0x8d2a4c8a)
  }

  function Sines3(i: nat): Word32 {
    if i < 36 then OneOf(i, 0xfffa3942, 0x8771f681, 0x6d9d6122, 0xfde5380c)
    else if i < 40 then OneOf(i, 0xa4beea44, 0x4bdecfa9, 0xf6bb4b60, 0xbebfbc70)
    else if i < 44 then OneOf(i, 0x289b7ec6, 0xeaa127fa, 0xd4ef3085, 0x04881d05)
    else OneOf(i, 0xd9d4d039, 0xe6db99e5, 0x1fa27cf8, 0xc4ac5665)
  }

  function Sines4(i: nat): Word32 {
    if i < 52 then OneOf(i, 0xf4292244, 0x432aff97, 0xab9423a7, 0xfc93a039)
    else if i < 56 then OneOf(i, 0x655b59c3, 0x8f0ccc92, 0xffeff47d, 0x85845dd1)
    else if i < 60 then OneOf(i, 0x6fa87e4f, 0xfe2ce6e0, 0xa3014314, 0x4e0811a1)
    else OneOf(i, 0xf7537e82, 0xbd3af235, 0x2ad7d2bb, 0xeb86d391)
  }

  /** Four bytes, the least significant first. */
  function WordOf(block: seq<Byte>, k: nat): Word32
    requires 4 * k + 4 <= |block|
  {
    (block[4 * k] as Word32) | ((block[4 * k + 1] as Word32) << 8)
    | ((block[4 * k + 2] as Word32) << 16) | ((block[4 * k + 3] as Word32) << 24)
  }

  /** Addition modulo 2^32. */
  function Add(x: Word32, y: Word32): Word32 { x + y }

  function RotateLeft(a: Word32, s: Word32): Word32
    requires 0 < s < 32
  {
    (a << s) | (a >> (32 - s))
  }

  lemma AddIs(x: Word32, y: Word32)
    ensures Add(x, y) == x + y
  {
  }

  /** The shifts of each round rotate. */
  lemma RotatesRound1(x: Word32)
    ensures RotateLeft(x, 7) == x.RotateLeft(7) && RotateLeft(x, 12) == x.RotateLeft(12)
    ensures RotateLeft(x, 17) == x.RotateLeft(17) && RotateLeft(x, 22) == x.RotateLeft(22)
  {
  }

  lemma RotatesRound2(x: Word32)
    ensures RotateLeft(x, 5) == x.RotateLeft(5) && RotateLeft(x, 9) == x.RotateLeft(9)
    ensures RotateLeft(x, 14) == x.RotateLeft(14) && RotateLeft(x, 20) == x.RotateLeft(20)
  {
  }

  lemma RotatesRound3(x: Word32)
    ensures RotateLeft(x, 4) == x.RotateLeft(4) && RotateLeft(x, 11) == x.RotateLeft(11)
    ensures RotateLeft(x, 16) == x.RotateLeft(16) && RotateLeft(x, 23) == x.RotateLeft(23)
  {
  }

  lemma RotatesRound4(x: Word32)
    ensures RotateLeft(x, 6) == x.RotateLeft(6) && RotateLeft(x, 10) == x.RotateLeft(10)
    ensures RotateLeft(x, 15) == x.RotateLeft(15) && RotateLeft(x, 21) == x.RotateLeft(21)
  {
  }

  /** One operation of the RFC, after which the registers change their places. */
  function OneStep(r: Digest, block: seq<Byte>, i: nat): Digest
    requires i < 64 && |block| == 64
  {
    var f := RoundFunction(i, r.b, r.c, r.d);
    Digest(r.d, Add(r.b, RotateLeft(Add(r.a, Add(Add(f, WordOf(block, WordIndex(i))), Sine(i))), Shift(i))), r.b, r.c)
  }

  function Steps(r: Digest, block: seq<Byte>, n: nat): Digest
    requires n <= 64 && |block| == 64
  {
    if n == 0 then r else OneStep(Steps(r, block, n - 1), block, n - 1)
  }

  function Plus(r: Digest, s: Digest): Digest {
    Digest(Add(r.a, s.a), Add(r.b, s.b), Add(r.c, s.c), Add(r.d, s.d))
  }

  /** The digest after a string of blocks. */
  function Blocks(r: Digest, data: seq<Byte>): Digest
    requires |data| % 64 == 0
    decreases |data|
  {
    if data == [] then r else Blocks(Plus(Steps(r, data[..64], 64), r), data[64..])
  }

  lemma BlocksNone(r: Digest)
    ensures Blocks(r, []) == r
  {
  }

  lemma {:induction false} BlocksConcat(r: Digest, s: seq<Byte>, t: seq<Byte>)
    requires |s| % 64 == 0 && |t| % 64 == 0
    ensures Blocks(r, s + t) == Blocks(Blocks(r, s), t)
    decreases |s|
  {
    hide Steps, Plus;
    if s == [] {
      assert s + t == t;
    } else {
      assert (s + t)[..64] == s[..64] && (s + t)[64..] == s[64..] + t;
      BlocksConcat(Plus(Steps(r, s[..64], 64), r), s[64..], t);
    }
  }

  // ----- sections 3.1 and 3.2 of RFC 1321: padding and length -----

  /** The `n` bytes of a number, the least significant first. */
  function LowBytes(v: nat, n: nat): (r: seq<Byte>)
    ensures |r| == n
  {
    if n == 0 then [] else [ByteOfWord(v % 256)] + LowBytes(v / 256, n - 1)
  }

  /** The zero bytes that bring a message and the byte after it to 56 modulo 64. */
  function ZeroBytes(n: nat): (z: nat)
    ensures z < 64 && (n + 1 + z) % 64 == 56
  {
    (119 - n % 64) % 64
  }

  function ZerosOf(n: nat): (r: seq<Byte>)
    ensures |r| == n && forall i | 0 <= i < n :: r[i] == 0
  {
    seq(n, _ => 0)
  }

  /** What is appended to a message of `n` bytes: the padding, and the length in bits
      modulo 2^64. */
  function Trailer(n: nat): (r: seq<Byte>)
    ensures |r| == 9 + ZeroBytes(n)
  {
    [0x80] + ZerosOf(ZeroBytes(n)) + LengthOf(n)
  }

  function Padded(message: seq<Byte>): (r: seq<Byte>)
    ensures |r| % 64 == 0
  {
    PaddedLength(|message|);
    message + Trailer(|message|)
  }

  lemma PaddedLength(n: nat)
    ensures (n + 9 + ZeroBytes(n)) % 64 == 0
  {
    assert n + 9 + ZeroBytes(n) == (n + 1 + ZeroBytes(n)) + 8;
  }

  /** The digest of a message, all at once. */
  function Md5Of(message: seq<Byte>): seq<Byte> {
    Encoded(Blocks(INIT, Padded(message)))
  }

  /** The registers as bytes, the least significant first. */
  function Encoded(r: Digest): seq<Byte> {
    EncodedWord(r.a) + EncodedWord(r.b) + EncodedWord(r.c) + EncodedWord(r.d)
  }

  function EncodedWord(w: Word32): (r: seq<Byte>)
    ensures |r| == 4
  {
    [(w & 0xff) as Byte, ((w >> 8) & 0xff) as Byte, ((w >> 16) & 0xff) as Byte, ((w >> 24) & 0xff) as Byte]
  }

  /** Words and bytes stand for each other. */
  lemma WordBytes(block: seq<Byte>, k: nat, w: Word32)
    requires 4 * k + 4 <= |block|
    ensures EncodedWord(WordOf(block, k)) == block[4 * k..4 * k + 4]
    ensures WordOf(EncodedWord(w), 0) == w
  {
    BytesOfWord(block[4 * k], block[4 * k + 1], block[4 * k + 2], block[4 * k + 3]);
    assert block[4 * k..4 * k + 4] == [block[4 * k], block[4 * k + 1], block[4 * k + 2], block[4 * k + 3]];
  }

  lemma BytesOfWord(b0: Byte, b1: Byte, b2: Byte, b3: Byte)
    ensures EncodedWord((b0 as Word32) | ((b1 as Word32) << 8) | ((b2 as Word32) << 16) | ((b3 as Word32) << 24)) ==
            [b0, b1, b2, b3]
  {
  }

  /** The registers start as section 3.3 of RFC 1321 lists them, byte by byte. */
  lemma InitBytes()
    ensures Encoded(INIT) == [0x01, 0x23, 0x45, 0x67, 0x89, 0xab, 0xcd, 0xef,
                              0xfe, 0xdc, 0xba, 0x98, 0x76, 0x54, 0x32, 0x10]
  {
  }

  /** The number that bytes stand for, the least significant first. */
  function LittleEndian(s: seq<Byte>): nat {
    if s == [] then 0 else AsWord(s[0]) + 256 * LittleEndian(s[1..])
  }

  lemma {:induction false} LowBytesValue(v: nat, n: nat)
    requires v < Pow2(8 * n)
    ensures LittleEndian(LowBytes(v, n)) == v
    decreases n
  {
    hide *;
    if n == 0 {
      Pow2None();
      LowBytesNone(v);
      LittleEndianIs([]);
    } else {
      Pow2Byte(n - 1);
      LowBytesStep(v, n);
      LittleEndianIs(LowBytes(v, n));
      LowBytesValue(v / 256, n - 1);
      assert LowBytes(v, n)[1..] == LowBytes(v / 256, n - 1);
    }
  }

  lemma LittleEndianIs(s: seq<Byte>)
    ensures LittleEndian(s) == if s == [] then 0 else AsWord(s[0]) + 256 * LittleEndian(s[1..])
  {
    hide AsWord;
  }

  /** A padded message is the message, a one bit and zeros, and its length in bits. */
  lemma PaddedParts(message: seq<Byte>)
    requires 8 * |message| < TWO64
    ensures var p, n := Padded(message), |message|;
            && n + 9 <= |p| < n + 73 && |p| % 64 == 0 && p[..n] == message && p[n] == 0x80
            && (forall k | n < k < |p| - 8 :: p[k] == 0)
            && LittleEndian(p[|p| - 8..]) == 8 * n
  {
    hide LowBytes, LittleEndian, Pow2;
    var p := Padded(message);
    Pow2Of64();
    LowBytesValue(8 * |message|, 8);
    assert p[|p| - 8..] == LengthOf(|message|);
  }

  lemma Pow2Of64()
    ensures Pow2(64) == TWO64
  {
    hide Pow2;
    Pow2Of32();
    Pow2Byte(4);
    Pow2Byte(5);
    Pow2Byte(6);
    Pow2Byte(7);
  }

  const TWO29: nat := 0x2000_0000
  const TWO61: nat := 0x2000_0000_0000_0000

  // ----- the steps of the source -----

  function Step(f: Word32, a: Word32, b: Word32, x: Word32, t: Word32, s: Word32): Word32
    requires 0 < s < 32
  {
    Add(RotateLeft(Add(a, Add(Add(f, x), t)), s), b)
  }

  /** A step of the source is an operation of the RFC. */
  lemma StepIsOneStep(r: Digest, block: seq<Byte>, i: nat, f: Word32)
    requires i < 64 && |block| == 64 && f == RoundFunction(i, r.b, r.c, r.d)
    ensures OneStep(r, block, i) ==
            Digest(r.d, Step(f, r.a, r.b, WordOf(block, WordIndex(i)), Sine(i), Shift(i)), r.b, r.c)
  {
    hide Add, WordOf, RoundFunction, Sine, RotateLeft, WordIndex, Shift;
    var x := WordOf(block, WordIndex(i));
    AddSwap(r.b, RotateLeft(Add(r.a, Add(Add(f, x), Sine(i))), Shift(i)));
  }

  lemma AddSwap(b: Word32, x: Word32)
    ensures Add(b, x) == Add(x, b)
  {
  }

  lemma RoundIs(i: nat, x: Word32, y: Word32, z: Word32)
    requires i < 64
    ensures i / 16 == 0 ==> RoundFunction(i, x, y, z) == F(x, y, z)
    ensures i / 16 == 1 ==> RoundFunction(i, x, y, z) == G(x, y, z)
    ensures i / 16 == 2 ==> RoundFunction(i, x, y, z) == H(x, y, z) == H2(x, y, z)
    ensures i / 16 == 3 ==> RoundFunction(i, x, y, z) == I(x, y, z)
  {
    hide F, G;
    FIsSelect(x, y, z);
    GIsSelect(x, y, z);
    H2IsH(x, y, z);
  }

  lemma StepsOne(r: Digest, block: seq<Byte>, i: nat)
    requires i < 64 && |block| == 64
    ensures Steps(r, block, 0) == r && Steps(r, block, i + 1) == OneStep(Steps(r, block, i), block, i)
  {
    hide OneStep;
  }

  lemma BlocksStep(r: Digest, data: seq<Byte>, i: nat)
    requires |data| % 64 == 0 && i % 64 == 0 && i + 64 <= |data|
    ensures Blocks(r, data[..i + 64]) == Plus(Steps(Blocks(r, data[..i]), data[i..i + 64], 64), Blocks(r, data[..i]))
  {
    hide Steps, Plus;
    var block := data[i..i + 64];
    assert data[..i + 64] == data[..i] + block;
    BlocksConcat(r, data[..i], block);
    assert block[..64] == block && block[64..] == [];
  }

  /** One STEP of the source: it changes the first of its registers.  Its function, word,
      constant and shift must be those of operation `i`. */
  method STEP(ghost r: Digest, block: seq<Byte>, ghost i: nat, f: Word32, a: Word32, b: Word32, ghost c: Word32,
              ghost d: Word32, k: nat, t: Word32, s: Word32)
    returns (x: Word32)
    requires i < 64 && |block| == 64 && Digest(a, b, c, d) == Steps(r, block, i)
    requires k == WordIndex(i) && t == Sine(i) && s == Shift(i)
    requires if i < 16 then f == F(b, c, d)
             else if i < 32 then f == G(b, c, d)
             else if i < 48 then f == H(b, c, d) || f == H2(b, c, d)
             else f == I(b, c, d)
    ensures Digest(d, x, b, c) == Steps(r, block, i + 1)
  {
    hide Steps, OneStep, WordOf, F, G, H, H2, I, RotateLeft, Add, Sine, Shift, RoundFunction, WordIndex;
    RoundIs(i, b, c, d);
    StepIsOneStep(Digest(a, b, c, d), block, i, f);
    StepsOne(r, block, i);
    x := Step(f, a, b, WordOf(block, k), t, s);
  }

  /** The first half of the first round. */
  method Round1A(ghost r: Digest, block: seq<Byte>, was: Digest) returns (now: Digest)
    requires |block| == 64 && was == Steps(r, block, 0)
    ensures now == Steps(r, block, 8)
  {
    hide Steps, WordOf, F, G, H, H2, I;
    var a, b, c, d := was.a, was.b, was.c, was.d;
    a := STEP(r, block, 0, F(b, c, d), a, b, c, d, 0, 0xd76aa478, 7);
    d := STEP(r, block, 1, F(a, b, c), d, a, b, c, 1, 0xe8c7b756, 12);
    c := STEP(r, block, 2, F(d, a, b), c, d, a, b, 2, 0x242070db, 17);
    b := STEP(r, block, 3, F(c, d, a), b, c, d, a, 3, 0xc1bdceee, 22);
    a := STEP(r, block, 4, F(b, c, d), a, b, c, d, 4, 0xf57c0faf, 7);
    d := STEP(r, block, 5, F(a, b, c), d, a, b, c, 5, 0x4787c62a, 12);
    c := STEP(r, block, 6, F(d, a, b), c, d, a, b, 6, 0xa8304613, 17);
    b := STEP(r, block, 7, F(c, d, a), b, c, d, a, 7, 0xfd469501, 22);
    now := Digest(a, b, c, d);
  }

  /** The second half of the first round. */
  method Round1B(ghost r: Digest, block: seq<Byte>, was: Digest) returns (now: Digest)
    requires |block| == 64 && was == Steps(r, block, 8)
    ensures now == Steps(r, block, 16)
  {
    hide Steps, WordOf, F, G, H, H2, I;
    var a, b, c, d := was.a, was.b, was.c, was.d;
    a := STEP(r, block, 8, F(b, c, d), a, b, c, d, 8, 0x698098d8, 7);
    d := STEP(r, block, 9, F(a, b, c), d, a, b, c, 9, 0x8b44f7af, 12);
    c := STEP(r, block, 10, F(d, a, b), c, d, a, b, 10, 0xffff5bb1, 17);
    b := STEP(r, block, 11, F(c, d, a), b, c, d, a, 11, 0x895cd7be, 22);
    a := STEP(r, block, 12, F(b, c, d), a, b, c, d, 12, 0x6b901122, 7);
    d := STEP(r, block, 13, F(a, b, c), d, a, b, c, 13, 0xfd987193, 12);
    c := STEP(r, block, 14, F(d, a, b), c, d, a, b, 14, 0xa679438e, 17);
    b := STEP(r, block, 15, F(c, d, a), b, c, d, a, 15, 0x49b40821, 22);
    now := Digest(a, b, c, d);
  }

  /** The first half of the second round. */
  method Round2A(ghost r: Digest, block: seq<Byte>, was: Digest) returns (now: Digest)
    requires |block| == 64 && was == Steps(r, block, 16)
    ensures now == Steps(r, block, 24)
  {
    hide Steps, WordOf, F, G, H, H2, I;
    var a, b, c, d := was.a, was.b, was.c, was.d;
    a := STEP(r, block, 16, G(b, c, d), a, b, c, d, 1, 0xf61e2562, 5);
    d := STEP(r, block, 17, G(a, b, c), d, a, b, c, 6, 0xc040b340, 9);
    c := STEP(r, block, 18, G(d, a, b), c, d, a, b, 11, 0x265e5a51, 14);
    b := STEP(r, block, 19, G(c, d, a), b, c, d, a, 0, 0xe9b6c7aa, 20);
    a := STEP(r, block, 20, G(b, c, d), a, b, c, d, 5, 0xd62f105d, 5);
    d := STEP(r, block, 21, G(a, b, c), d, a, b, c, 10, 0x02441453, 9);
    c := STEP(r, block, 22, G(d, a, b), c, d, a, b, 15, 0xd8a1e681, 14);
    b := STEP(r, block, 23, G(c, d, a), b, c, d, a, 4, 0xe7d3fbc8, 20);
    now := Digest(a, b, c, d);
  }

  /** The second half of the second round. */
  method Round2B(ghost r: Digest, block: seq<Byte>, was: Digest) returns (now: Digest)
    requires |block| == 64 && was == Steps(r, block, 24)
    ensures now == Steps(r, block, 32)
  {
    hide Steps, WordOf, F, G, H, H2, I;
    var a, b, c, d := was.a, was.b, was.c, was.d;
    a := STEP(r, block, 24, G(b, c, d), a, b, c, d, 9, 0x21e1cde6, 5);
    d := STEP(r, block, 25, G(a, b, c), d, a, b, c, 14, 0xc33707d6, 9);
    c := STEP(r, block, 26, G(d, a, b), c, d, a, b, 3, 0xf4d50d87, 14);
    b := STEP(r, block, 27, G(c, d, a), b, c, d, a, 8, 0x455a14ed, 20);
    a := STEP(r, block, 28, G(b, c, d), a, b, c, d, 13, 0xa9e3e905, 5);
    d := STEP(r, block, 29, G(a, b, c), d, a, b, c, 2, 0xfcefa3f8, 9);
    c := STEP(r, block, 30, G(d, a, b), c, d, a, b, 7, 0x676f02d9, 14);
    b := STEP(r, block, 31, G(c, d, a), b, c, d, a, 12, 0x8d2a4c8a, 20);
    now := Digest(a, b, c, d);
  }

  /** The first half of the third round. */
  method Round3A(ghost r: Digest, block: seq<Byte>, was: Digest) returns (now: Digest)
    requires |block| == 64 && was == Steps(r, block, 32)
    ensures now == Steps(r, block, 40)
  {
    hide Steps, WordOf, F, G, H, H2, I;
    var a, b, c, d := was.a, was.b, was.c, was.d;
    a := STEP(r, block, 32, H(b, c, d), a, b, c, d, 5, 0xfffa3942, 4);
    d := STEP(r, block, 33, H2(a, b, c), d, a, b, c, 8, 0x8771f681, 11);
    c := STEP(r, block, 34, H(d, a, b), c, d, a, b, 11, 0x6d9d6122, 16);
    b := STEP(r, block, 35, H2(c, d, a), b, c, d, a, 14, 0xfde5380c, 23);
    a := STEP(r, block, 36, H(b, c, d), a, b, c, d, 1, 0xa4beea44, 4);
    d := STEP(r, block, 37, H2(a, b, c), d, a, b, c, 4, 0x4bdecfa9, 11);
    c := STEP(r, block, 38, H(d, a, b), c, d, a, b, 7, 0xf6bb4b60, 16);
    b := STEP(r, block, 39, H2(c, d, a), b, c, d, a, 10, 0xbebfbc70, 23);
    now := Digest(a, b, c, d);
  }

  /** The second half of the third round. */
  method Round3B(ghost r: Digest, block: seq<Byte>, was: Digest) returns (now: Digest)
    requires |block| == 64 && was == Steps(r, block, 40)
    ensures now == Steps(r, block, 48)
  {
    hide Steps, WordOf, F, G, H, H2, I;
    var a, b, c, d := was.a, was.b, was.c, was.d;
    a := STEP(r, block, 40, H(b, c, d), a, b, c, d, 13, 0x289b7ec6, 4);
    d := STEP(r, block, 41, H2(a, b, c), d, a, b, c, 0, 0xeaa127fa, 11);
    c := STEP(r, block, 42, H(d, a, b), c, d, a, b, 3, 0xd4ef3085, 16);
    b := STEP(r, block, 43, H2(c, d, a), b, c, d, a, 6, 0x04881d05, 23);
    a := STEP(r, block, 44, H(b, c, d), a, b, c, d, 9, 0xd9d4d039, 4);
    d := STEP(r, block, 45, H2(a, b, c), d, a, b, c, 12, 0xe6db99e5, 11);
    c := STEP(r, block, 46, H(d, a, b), c, d, a, b, 15, 0x1fa27cf8, 16);
    b := STEP(r, block, 47, H2(c, d, a), b, c, d, a, 2, 0xc4ac5665, 23);
    now := Digest(a, b, c, d);
  }

  /** The first half of the fourth round. */
  method Round4A(ghost r: Digest, block: seq<Byte>, was: Digest) returns (now: Digest)
    requires |block| == 64 && was == Steps(r, block, 48)
    ensures now == Steps(r, block, 56)
  {
    hide Steps, WordOf, F, G, H, H2, I;
    var a, b, c, d := was.a, was.b, was.c, was.d;
    a := STEP(r, block, 48, I(b, c, d), a, b, c, d, 0, 0xf4292244, 6);
    d := STEP(r, block, 49, I(a, b, c), d, a, b, c, 7, 0x432aff97, 10);
    c := STEP(r, block, 50, I(d, a, b), c, d, a, b, 14, 0xab9423a7, 15);
    b := STEP(r, block, 51, I(c, d, a), b, c, d, a, 5, 0xfc93a039, 21);
    a := STEP(r, block, 52, I(b, c, d), a, b, c, d, 12, 0x655b59c3, 6);
    d := STEP(r, block, 53, I(a, b, c), d, a, b, c, 3, 0x8f0ccc92, 10);
    c := STEP(r, block, 54, I(d, a, b), c, d, a, b, 10, 0xffeff47d, 15);
    b := STEP(r, block, 55, I(c, d, a), b, c, d, a, 1, 0x85845dd1, 21);
    now := Digest(a, b, c, d);
  }

  /** The second half of the fourth round. */
  method Round4B(ghost r: Digest, block: seq<Byte>, was: Digest) returns (now: Digest)
    requires |block| == 64 && was == Steps(r, block, 56)
    ensures now == Steps(r, block, 64)
  {
    hide Steps, WordOf, F, G, H, H2, I;
    var a, b, c, d := was.a, was.b, was.c, was.d;
    a := STEP(r, block, 56, I(b, c, d), a, b, c, d, 8, 0x6fa87e4f, 6);
    d := STEP(r, block, 57, I(a, b, c), d, a, b, c, 15, 0xfe2ce6e0, 10);
    c := STEP(r, block, 58, I(d, a, b), c, d, a, b, 6, 0xa3014314, 15);
    b := STEP(r, block, 59, I(c, d, a), b, c, d, a, 13, 0x4e0811a1, 21);
    a := STEP(r, block, 60, I(b, c, d), a, b, c, d, 4, 0xf7537e82, 6);
    d := STEP(r, block, 61, I(a, b, c), d, a, b, c, 11, 0xbd3af235, 10);
    c := STEP(r, block, 62, I(d, a, b), c, d, a, b, 2, 0x2ad7d2bb, 15);
    b := STEP(r, block, 63, I(c, d, a), b, c, d, a, 9, 0xeb86d391, 21);
    now := Digest(a, b, c, d);
  }

  /** The 64 steps of `body` for one block. */
  method Transform(r: Digest, block: seq<Byte>) returns (r': Digest)
    requires |block| == 64
    ensures r' == Plus(Steps(r, block, 64), r)
  {
    hide OneStep, Add;
    var s := Round1A(r, block, r);
    s := Round1B(r, block, s);
    s := Round2A(r, block, s);
    s := Round2B(r, block, s);
    s := Round3A(r, block, s);
    s := Round3B(r, block, s);
    s := Round4A(r, block, s);
    s := Round4B(r, block, s);
    r' := Digest(Add(s.a, r.a), Add(s.b, r.b), Add(s.c, r.c), Add(s.d, r.d));
  }

  // ----- the stream -----

  class Md5Ctx {
    var lo: nat
    var hi: nat
    var a: Word32
    var b: Word32
    var c: Word32
    var d: Word32
    const buffer: array<Byte>
    /** Everything that was passed to `Update`. */
    ghost var message: seq<Byte>

    /** The counters hold the length modulo 2^61, the registers are those after the whole
        blocks, and the buffer starts with the rest. */
    ghost predicate Valid()
      reads this, buffer
    {
      && buffer.Length == 64 && Counts(lo, hi, |message|)
      && Follows(Registers(), buffer[..], message)
    }

    function Registers(): Digest
      reads this
    {
      Digest(a, b, c, d)
    }

    constructor ()
      ensures Valid() && message == [] && fresh(buffer)
    {
      a, b, c, d := INIT.a, INIT.b, INIT.c, INIT.d;
      lo, hi := 0, 0;
      buffer := new Byte[64];
      message := [];
      new;
      assert message[..0] == [];
    }

    /** `body`, for one or more blocks. */
    method Body(data: seq<Byte>)
      requires |data| % 64 == 0
      modifies this`a, this`b, this`c, this`d
      ensures Registers() == Blocks(old(Registers()), data)
    {
      hide Steps, Plus;
      var i := 0;
      assert data[..0] == [];
      while i < |data|
        invariant i <= |data| && i % 64 == 0
        invariant Registers() == Blocks(old(Registers()), data[..i])
      {
        BlocksStep(old(Registers()), data, i);
        var r := Transform(Registers(), data[i..i + 64]);
        a, b, c, d := r.a, r.b, r.c, r.d;
        i := i + 64;
      }
      assert data[..i] == data;
    }

    /** Adds a size to the counters. */
    method Count(size: nat)
      requires Counts(lo, hi, |message|)
      modifies this`lo, this`hi
      ensures Counts(lo, hi, |message| + size)
    {
      var savedLo := lo;
      CountsAdd(lo, hi, |message|, size);
      lo := (savedLo + size) % TWO29;
      if lo < savedLo {
        hi := (hi + 1) % TWO32;
      }
      hi := (hi + size / TWO29) % TWO32;
    }

    /** Data that does not fill up a block goes to the buffer. */
    method Append(data: seq<Byte>, used: nat)
      requires Follows(Registers(), buffer[..], message) && used == |message| % 64 && used + |data| < 64
      modifies this`message, buffer
      ensures Follows(Registers(), buffer[..], message) && message == old(message) + data
    {
      hide Follows;
      FollowsSize(Registers(), buffer[..], message);
      CopyAt(data, buffer, used);
      FollowsShort(Registers(), old(buffer[..]), message, data, buffer[..]);
      message := message + data;
    }

    /** Data that just fills up a block. */
    method Fill(data: seq<Byte>, used: nat)
      requires Follows(Registers(), buffer[..], message) && used == |message| % 64 && used + |data| == 64
      modifies this`message, this`a, this`b, this`c, this`d, buffer
      ensures message == old(message) + data && |message| % 64 == 0 && Registers() == Blocks(INIT, message)
    {
      hide Follows, Blocks;
      FollowsSize(Registers(), buffer[..], message);
      ghost var was := Registers();
      CopyAt(data, buffer, used);
      FollowsFull(was, old(buffer[..]), message, data, buffer[..]);
      Body(buffer[..]);
      message := message + data;
    }

    /** Data after whole blocks: its whole blocks, then its rest. */
    method Absorb(data: seq<Byte>)
      requires |message| % 64 == 0 && Registers() == Blocks(INIT, message) && buffer.Length == 64
      modifies this`message, this`a, this`b, this`c, this`d, buffer
      ensures Follows(Registers(), buffer[..], message) && message == old(message) + data
    {
      hide Follows, Blocks;
      var whole := |data| - |data| % 64;
      ghost var was := Registers();
      if |data| >= 64 {
        Body(data[..whole]);
      }
      CopyAt(data[whole..], buffer, 0);
      FollowsWhole(was, message, data[..whole], data[whole..], buffer[..]);
      assert data[..whole] + data[whole..] == data;
      message := message + data;
    }

    /** `MD5_Update`. */
    method Update(data: seq<Byte>)
      requires Valid() && |data| < TWO64
      modifies this, buffer
      ensures Valid() && message == old(message) + data
    {
      hide Blocks, Counts, Follows;
      FollowsSize(Registers(), buffer[..], message);
      CountsMod(lo, hi, |message|);
      var used := lo % 64;
      Count(|data|);
      var rest := data;
      if used != 0 {
        var available := 64 - used;
        if |data| < available {
          Append(data, used);
          return;
        }
        Fill(data[..available], used);
        rest := data[available..];
        assert message + rest == old(message) + data;
      }
      Absorb(rest);
    }

    /** `MD5_Final`: whatever the updates were, the digest is that of all their data. */
    method Final() returns (result: seq<Byte>)
      requires Valid()
      modifies this, buffer
      ensures result == Md5Of(old(message))
    {
      hide Blocks, Counts, Follows, LowBytes, LengthOf, Padded, Encoded;
      FollowsSize(Registers(), buffer[..], message);
      CountsMod(lo, hi, |message|);
      LengthBytes(lo, hi, |message|);
      ghost var r, length := Registers(), LengthOf(|message|);
      var used := lo % 64;
      ghost var start, rest := message[..|message| - used], buffer[..used];
      FollowsParts(r, buffer[..], message);
      buffer[used] := 0x80;
      used := used + 1;
      var available := 64 - used;
      if available < 8 {
        Clear(buffer, used, available);
        assert buffer[..] == BlockBeforeLast(rest);
        Body(buffer[..]);
        used := 0;
        available := 64;
        EndsInTwoBlocks(r, start, rest);
      } else {
        EndsInOneBlock(r, start, rest);
      }
      lo := lo * 8 % TWO32;
      EndBlock(buffer, used, lo, hi);
      assert buffer[..] == if used == 0 then LengthBlock(length) else LastBlock(rest, length);
      Body(buffer[..]);
      result := Encoded(Registers());
      lo, hi, a, b, c, d := 0, 0, 0, 0, 0, 0;
      Clear(buffer, 0, 64);
    }
  }

  method Clear(buffer: array<Byte>, from: nat, n: nat)
    requires from + n <= buffer.Length
    modifies buffer
    ensures forall k | 0 <= k < buffer.Length :: buffer[k] == if from <= k < from + n then 0 else old(buffer[k])
  {
    for i := 0 to n
      invariant forall k | 0 <= k < buffer.Length :: buffer[k] == if from <= k < from + i then 0 else old(buffer[k])
    {
      buffer[from + i] := 0;
    }
  }

  /** The end of the last block: zeros, and the length. */
  method EndBlock(buffer: array<Byte>, used: nat, lo: nat, hi: nat)
    requires buffer.Length == 64 && used <= 56
    modifies buffer
    ensures buffer[..] == old(buffer[..used]) + ZerosOf(56 - used) + (LowBytes(lo, 4) + LowBytes(hi, 4))
  {
    hide LowBytes;
    Clear(buffer, used, 56 - used);
    CopyAt(LowBytes(lo, 4) + LowBytes(hi, 4), buffer, 56);
  }

  /** The last block, when the padding and the length fit into it. */
  function LastBlock(rest: seq<Byte>, length: seq<Byte>): (r: seq<Byte>)
    requires |rest| < 56 && |length| == 8
    ensures |r| == 64
  {
    rest + [0x80] + ZerosOf(55 - |rest|) + length
  }

  /** The last two, when they do not. */
  function BlockBeforeLast(rest: seq<Byte>): (r: seq<Byte>)
    requires |rest| < 64
    ensures |r| == 64
  {
    rest + [0x80] + ZerosOf(63 - |rest|)
  }

  function LengthBlock(length: seq<Byte>): (r: seq<Byte>)
    requires |length| == 8
    ensures |r| == 64
  {
    ZerosOf(56) + length
  }

  lemma EndsInOneBlock(r: Digest, start: seq<Byte>, rest: seq<Byte>)
    requires |start| % 64 == 0 && |rest| < 56 && r == Blocks(INIT, start)
    ensures Blocks(r, LastBlock(rest, LengthOf(|start + rest|))) == Blocks(INIT, Padded(start + rest))
  {
    hide Blocks, LengthOf, Padded, ZerosOf;
    var length, pad := LengthOf(|start + rest|), [0x80] + ZerosOf(55 - |rest|);
    PaddedIs(start, rest);
    Regroup(start, rest, pad, length);
    assert rest + pad + length == LastBlock(rest, length);
    BlocksConcat(INIT, start, LastBlock(rest, length));
  }

  lemma EndsInTwoBlocks(r: Digest, start: seq<Byte>, rest: seq<Byte>)
    requires |start| % 64 == 0 && 56 <= |rest| < 64 && r == Blocks(INIT, start)
    ensures Blocks(Blocks(r, BlockBeforeLast(rest)), LengthBlock(LengthOf(|start + rest|))) ==
            Blocks(INIT, Padded(start + rest))
  {
    hide Blocks, LengthOf, Padded, ZerosOf;
    var length, pad := LengthOf(|start + rest|), [0x80] + ZerosOf(119 - |rest|);
    var first, last := BlockBeforeLast(rest), LengthBlock(length);
    PaddedIs(start, rest);
    Regroup(start, rest, pad, length);
    ZerosSplit(63 - |rest|, 56);
    assert rest + pad + length == first + last;
    BlocksConcat(INIT, start, first + last);
    BlocksConcat(r, first, last);
  }

  /** The length of a message in bits, modulo 2^64. */
  function LengthOf(n: nat): (r: seq<Byte>)
    ensures |r| == 8
  {
    LowBytes(8 * n % TWO64, 8)
  }

  lemma ZerosSplit(m: nat, n: nat)
    ensures ZerosOf(m + n) == ZerosOf(m) + ZerosOf(n)
  {
  }

  lemma Regroup(start: seq<Byte>, rest: seq<Byte>, pad: seq<Byte>, length: seq<Byte>)
    ensures (start + rest) + (pad + length) == start + (rest + pad + length)
  {
  }

  lemma PaddedIs(start: seq<Byte>, rest: seq<Byte>)
    requires |start| % 64 == 0 && |rest| < 64
    ensures Padded(start + rest) ==
            (start + rest) +
            ([0x80] + ZerosOf(if |rest| < 56 then 55 - |rest| else 119 - |rest|) + LengthOf(|start + rest|))
  {
    hide LowBytes, ZerosOf;
    ZerosNeeded(|start|, |rest|);
  }

  lemma ZerosNeeded(s: nat, n: nat)
    requires s % 64 == 0 && n < 64
    ensures ZeroBytes(s + n) == if n < 56 then 55 - n else 119 - n
  {
    RestOfSum(s, n);
  }

  /** The counters, the lower one shifted, are the length in bits. */
  lemma LengthBytes(lo: nat, hi: nat, n: nat)
    requires Counts(lo, hi, n)
    ensures LowBytes(lo * 8 % TWO32, 4) + LowBytes(hi, 4) == LengthOf(n)
  {
    hide LowBytes, Pow2;
    var q := n / TWO61;
    assert 8 * n == q * TWO64 + (8 * lo + TWO32 * hi) by {
      assert n == q * TWO61 + lo + TWO29 * hi;
    }
    RemainderIs(8 * n, q, 8 * lo + TWO32 * hi);
    Pow2Of32();
    LowBytesSplit(8 * lo, hi, 4, 4);
  }

  lemma RemainderIs(n: nat, q: nat, r: nat)
    requires n == q * TWO64 + r && r < TWO64
    ensures n % TWO64 == r
  {
  }

  lemma Pow2Of32()
    ensures Pow2(8 * 4) == TWO32
  {
    assert Pow2(8) == 0x100;
    assert Pow2(16) == 0x100 * 0x100;
    assert Pow2(24) == 0x1_0000 * 0x100;
    assert Pow2(32) == 0x100_0000 * 0x100;
  }

  lemma {:induction false} LowBytesSplit(x: nat, y: nat, m: nat, n: nat)
    requires x < Pow2(8 * m)
    ensures LowBytes(x + Pow2(8 * m) * y, m + n) == LowBytes(x, m) + LowBytes(y, n)
    decreases m
  {
    hide *;
    if m == 0 {
      Pow2None();
      LowBytesNone(x);
      assert x == 0 && Pow2(8 * m) * y == y;
    } else {
      var k := Pow2(8 * (m - 1)) * y;
      TimesByte(m - 1, y);
      DivideByte(x, k, Pow2(8 * (m - 1)));
      Pow2Byte(m - 1);
      LowBytesSplit(x / 256, y, m - 1, n);
      LowBytesStep(x + 256 * k, m + n);
      LowBytesStep(x, m);
    }
  }

  lemma LowBytesNone(v: nat)
    ensures LowBytes(v, 0) == []
  {
  }

  lemma LowBytesStep(v: nat, n: nat)
    requires n > 0
    ensures LowBytes(v, n) == [ByteOfWord(v % 256)] + LowBytes(v / 256, n - 1)
  {
    hide ByteOfWord;
  }

  lemma TimesByte(m: nat, y: nat)
    ensures Pow2(8 * (m + 1)) * y == 256 * (Pow2(8 * m) * y)
  {
    hide Pow2;
    Pow2Byte(m);
  }

  lemma Pow2None()
    ensures Pow2(0) == 1
  {
  }

  lemma Pow2Byte(m: nat)
    ensures Pow2(8 * (m + 1)) == 256 * Pow2(8 * m)
  {
    var k := 8 * m;
    assert Pow2(k + 2) == 4 * Pow2(k);
    assert Pow2(k + 4) == 4 * Pow2(k + 2);
    assert Pow2(k + 6) == 4 * Pow2(k + 4);
    assert Pow2(k + 8) == 4 * Pow2(k + 6);
  }

  lemma DivideByte(x: nat, k: nat, p: nat)
    ensures (x + 256 * k) % 256 == x % 256 && (x + 256 * k) / 256 == x / 256 + k
    ensures x < 256 * p ==> x / 256 < p
  {
  }

  /** A pair of counters for `n` bytes. */
  predicate Counts(lo: nat, hi: nat, n: nat) {
    lo < TWO29 && hi < TWO32 && lo + TWO29 * hi == n % TWO61
  }

  lemma SameMod64(n: nat, lo: nat, k: nat)
    requires n == lo + 64 * k
    ensures n % 64 == lo % 64
  {
  }

  lemma CountsMod(lo: nat, hi: nat, n: nat)
    requires Counts(lo, hi, n)
    ensures lo % 64 == n % 64
  {
    var q := n / TWO61;
    assert n == q * TWO61 + lo + TWO29 * hi;
    SameMod64(n, lo, 0x80_0000 * hi + 0x80_0000_0000_0000 * q);
  }

  /** Counting with a carry that is found by comparing. */
  lemma CountsAdd(lo: nat, hi: nat, n: nat, size: nat)
    requires Counts(lo, hi, n)
    ensures var lo' := (lo + size) % TWO29;
            var hi1 := if lo' < lo then (hi + 1) % TWO32 else hi;
            Counts(lo', (hi1 + size / TWO29) % TWO32, n + size)
  {
    var lo' := (lo + size) % TWO29;
    var carry := if lo' < lo then 1 else 0;
    var s, q := size % TWO29, size / TWO29;
    assert size == s + TWO29 * q;
    assert lo + s == lo' + TWO29 * carry;
    var h := hi + carry + q;
    assert lo + TWO29 * hi + size == lo' + TWO29 * h;
    WrapSum(n, size, lo', h);
  }

  lemma WrapSum(n: nat, size: nat, lo: nat, h: nat)
    requires lo < TWO29 && n % TWO61 + size == lo + TWO29 * h
    ensures lo + TWO29 * (h % TWO32) == (n + size) % TWO61
  {
    var k := h / TWO32;
    assert h == k * TWO32 + h % TWO32;
    assert n + size == (n / TWO61 + k) * TWO61 + (lo + TWO29 * (h % TWO32));
  }

  /** The registers are those after the whole blocks of a message, and the buffer starts
      with the rest. */
  ghost predicate Follows(r: Digest, buffer: seq<Byte>, message: seq<Byte>) {
    var used := |message| % 64;
    && |buffer| == 64
    && r == Blocks(INIT, message[..|message| - used])
    && buffer[..used] == message[|message| - used..]
  }

  lemma FollowsSize(r: Digest, buffer: seq<Byte>, message: seq<Byte>)
    requires Follows(r, buffer, message)
    ensures |buffer| == 64 && (|message| % 64 == 0 ==> r == Blocks(INIT, message))
  {
    hide Blocks;
    if |message| % 64 == 0 {
      assert message[..|message| - |message| % 64] == message;
    }
  }

  lemma FollowsParts(r: Digest, buffer: seq<Byte>, message: seq<Byte>)
    requires Follows(r, buffer, message)
    ensures var used := |message| % 64;
            var start := message[..|message| - used];
            |buffer| == 64 && |start| % 64 == 0 && r == Blocks(INIT, start) && message == start + buffer[..used]
  {
    hide Blocks;
  }

  lemma FollowsShort(r: Digest, buffer: seq<Byte>, message: seq<Byte>, data: seq<Byte>, buffer': seq<Byte>)
    requires Follows(r, buffer, message) && |message| % 64 + |data| < 64 && |buffer'| == 64
    requires buffer'[..|message| % 64 + |data|] == buffer[..|message| % 64] + data
    ensures Follows(r, buffer', message + data)
  {
    hide Blocks;
    var used := |message| % 64;
    assert (|message| + |data|) % 64 == used + |data|;
    assert (message + data)[..|message| - used] == message[..|message| - used];
    assert (message + data)[|message| - used..] == message[|message| - used..] + data;
  }

  lemma FollowsFull(r: Digest, buffer: seq<Byte>, message: seq<Byte>, data: seq<Byte>, block: seq<Byte>)
    requires Follows(r, buffer, message) && |message| % 64 + |data| == 64
    requires block == buffer[..|message| % 64] + data
    ensures (|message| + |data|) % 64 == 0 && Blocks(r, block) == Blocks(INIT, message + data)
  {
    hide Blocks;
    var used := |message| % 64;
    var start := message[..|message| - used];
    assert message + data == start + block;
    BlocksConcat(INIT, start, block);
  }

  lemma RestOfSum(a: nat, b: nat)
    requires a % 64 == 0 && b < 64
    ensures (a + b) % 64 == b
  {
  }

  lemma FollowsWhole(r: Digest, message: seq<Byte>, whole: seq<Byte>, rest: seq<Byte>, buffer: seq<Byte>)
    requires |message| % 64 == 0 && r == Blocks(INIT, message) && |whole| % 64 == 0 && |rest| < |buffer| == 64
    requires buffer[..|rest|] == rest
    ensures Follows(Blocks(r, whole), buffer, message + (whole + rest))
    ensures whole == [] ==> Blocks(r, whole) == r
  {
    hide Blocks, Follows;
    BlocksNone(r);
    BlocksConcat(INIT, message, whole);
    assert message + (whole + rest) == (message + whole) + rest;
    WholeSum(|message|, |whole|);
    FollowsFrom(Blocks(r, whole), buffer, message + whole, rest);
  }

  lemma WholeSum(a: nat, b: nat)
    requires a % 64 == 0 && b % 64 == 0
    ensures (a + b) % 64 == 0
  {
  }

  lemma FollowsFrom(r: Digest, buffer: seq<Byte>, all: seq<Byte>, rest: seq<Byte>)
    requires |all| % 64 == 0 && r == Blocks(INIT, all) && |rest| < |buffer| == 64 && buffer[..|rest|] == rest
    ensures Follows(r, buffer, all + rest)
  {
    hide Blocks;
    RestOfSum(|all|, |rest|);
    assert (all + rest)[..|all|] == all && (all + rest)[|all|..] == rest;
  }
}
