/** RFC 1321, sections 3.1 to 3.5: the MD5 message digest as a function of the message. */
module Md5Spec {
  import opened CBytes
  import opened CWords

  datatype Hash = Hash(a: Word, b: Word, c: Word, d: Word)

  /** Section 3.3: the initial value of the buffer. */
  const IV: Hash := Hash(0x67452301, 0xefcdab89, 0x98badcfe, 0x10325476)

  // ---- section 3.4: the four auxiliary functions ---------------------------------

  function F(x: Word, y: Word, z: Word): Word { Or(And(x, y), And(Not(x), z)) }

  function G(x: Word, y: Word, z: Word): Word { Or(And(x, z), And(y, Not(z))) }

  function H(x: Word, y: Word, z: Word): Word { Xor(Xor(x, y), z) }

  function I(x: Word, y: Word, z: Word): Word { Xor(y, Or(x, Not(z))) }

  /** The sine table: T(i) is the integer part of 2^32 times |sin(i + 1)|. */
  function T(i: nat): Word
    requires i < 64
  {
    if i < 16 then T1(i) else if i < 32 then T2(i - 16) else if i < 48 then T3(i - 32) else T4(i - 48)
  }

  function T1(i: nat): Word
    requires i < 16
  {
    match i
    case 0 => 0xd76aa478 case 1 => 0xe8c7b756 case 2 => 0x242070db case 3 => 0xc1bdceee
    case 4 => 0xf57c0faf case 5 => 0x4787c62a case 6 => 0xa8304613 case 7 => 0xfd469501
    case 8 => 0x698098d8 case 9 => 0x8b44f7af case 10 => 0xffff5bb1 case 11 => 0x895cd7be
    case 12 => 0x6b901122 case 13 => 0xfd987193 case 14 => 0xa679438e case 15 => 0x49b40821
  }

  function T2(i: nat): Word
    requires i < 16
  {
    match i
    case 0 => 0xf61e2562 case 1 => 0xc040b340 case 2 => 0x265e5a51 case 3 => 0xe9b6c7aa
    case 4 => 0xd62f105d case 5 => 0x02441453 case 6 => 0xd8a1e681 case 7 => 0xe7d3fbc8
    case 8 => 0x21e1cde6 case 9 => 0xc33707d6 case 10 => 0xf4d50d87 case 11 => 0x455a14ed
    case 12 => 0xa9e3e905 case 13 => 0xfcefa3f8 case 14 => 0x676f02d9 case 15 => 0x8d2a4c8a
  }

  function T3(i: nat): Word
    requires i < 16
  {
    match i
    case 0 => 0xfffa3942 case 1 => 0x8771f681 case 2 => 0x6d9d6122 case 3 => 0xfde5380c
    case 4 => 0xa4beea44 case 5 => 0x4bdecfa9 case 6 => 0xf6bb4b60 case 7 => 0xbebfbc70
    case 8 => 0x289b7ec6 case 9 => 0xeaa127fa case 10 => 0xd4ef3085 case 11 => 0x04881d05
    case 12 => 0xd9d4d039 case 13 => 0xe6db99e5 case 14 => 0x1fa27cf8 case 15 => 0xc4ac5665
  }

  function T4(i: nat): Word
    requires i < 16
  {
    match i
    case 0 => 0xf4292244 case 1 => 0x432aff97 case 2 => 0xab9423a7 case 3 => 0xfc93a039
    case 4 => 0x655b59c3 case 5 => 0x8f0ccc92 case 6 => 0xffeff47d case 7 => 0x85845dd1
    case 8 => 0x6fa87e4f case 9 => 0xfe2ce6e0 case 10 => 0xa3014314 case 11 => 0x4e0811a1
    case 12 => 0xf7537e82 case 13 => 0xbd3af235 case 14 => 0x2ad7d2bb case 15 => 0xeb86d391
  }

  /** Which word of the block step `i` takes. */
  function WordIndex(i: nat): (k: nat)
    requires i < 64
    ensures k < 16
  {
    if i < 16 then i
    else if i < 32 then (5 * i + 1) % 16
    else if i < 48 then (3 * i + 5) % 16
    else (7 * i) % 16
  }

  /** By how many bits step `i` rotates. */
  function Rotation(i: nat): (s: nat)
    requires i < 64
    ensures 4 <= s <= 23
  {
    if i < 16 then [7, 12, 17, 22][i % 4]
    else if i < 32 then [5, 9, 14, 20][i % 4]
    else if i < 48 then [4, 11, 16, 23][i % 4]
    else [6, 10, 15, 21][i % 4]
  }

  function Round(i: nat, x: Word, y: Word, z: Word): Word {
    if i < 16 then F(x, y, z)
    else if i < 32 then G(x, y, z)
    else if i < 48 then H(x, y, z)
    else I(x, y, z)
  }

  /** One operation of section 3.4, a = b + ((a + f + X[k] + T[i]) <<< s), after which the four
      words move on by one place, the word just computed becoming the second. */
  function Apply(h: Hash, f: Word, x: Word, t: Word, s: nat): Hash {
    Hash(h.d, NewWord(h.a, h.b, f, x, t, s), h.b, h.c)
  }

  function NewWord(a: Word, b: Word, f: Word, x: Word, t: Word, s: nat): Word {
    Add(b, RotateLeft(Add(Add(Add(a, f), x), t), s))
  }

  function Operation(i: nat, h: Hash, x: seq<Word>): Hash
    requires i < 64 && |x| == 16
  {
    Apply(h, Round(i, h.b, h.c, h.d), x[WordIndex(i)], T(i), Rotation(i))
  }

  /** `n` operations from number `i` on. */
  function Operations(i: nat, n: nat, h: Hash, x: seq<Word>): Hash
    requires i + n <= 64 && |x| == 16
  {
    if n == 0 then h else Operation(i + n - 1, Operations(i, n - 1, h, x), x)
  }

  /** Section 2: the words of a block, the low-order byte of each first. */
  function DecodeBlock(block: seq<byte>): (x: seq<Word>)
    requires |block| == 64
    ensures |x| == 16
  {
    seq(16, i requires 0 <= i < 16 => FromLittle(block[4 * i..4 * i + 4]))
  }

  /** Section 3.4: one 16-word block. */
  function Compress(h: Hash, block: seq<byte>): Hash
    requires |block| == 64
  {
    var r := Operations(0, 64, h, DecodeBlock(block));
    Hash(Add(h.a, r.a), Add(h.b, r.b), Add(h.c, r.c), Add(h.d, r.d))
  }

  /** All blocks of `m`, in order. */
  function Blocks(m: seq<byte>): Hash
    requires |m| % 64 == 0
  {
    if m == [] then IV else Compress(Blocks(m[..|m| - 64]), m[|m| - 64..])
  }

  /** One block more: each word grows, modulo 2^32, by what the 64 operations make of the words so far. */
  lemma OneMoreBlock(m: seq<byte>, block: seq<byte>, h: Hash, r: Hash)
    requires |m| % 64 == 0 == |m + block| % 64 && |block| == 64
    requires h == Blocks(m) && r == Operations(0, 64, h, DecodeBlock(block))
    ensures var h' := Blocks(m + block);
      && h'.a == (h.a + r.a) % 0x1_0000_0000 && h'.b == (h.b + r.b) % 0x1_0000_0000
      && h'.c == (h.c + r.c) % 0x1_0000_0000 && h'.d == (h.d + r.d) % 0x1_0000_0000
  {
    hide Operations, DecodeBlock;
    var all := m + block;
    assert all[..|all| - 64] == m && all[|all| - 64..] == block;
    Wraps(h.a, r.a);
    Wraps(h.b, r.b);
    Wraps(h.c, r.c);
    Wraps(h.d, r.d);
  }

  // ---- sections 3.1 and 3.2: padding and length -------------------------------------

  /** Zero bytes after the bit "1" so that the length is 56 modulo 64. */
  function PadLength(n: nat): (k: nat)
    ensures (n + 1 + k + 8) % 64 == 0 && k < 64
  {
    (119 - n % 64) % 64
  }

  /** The low-order 64 bits of the length in bits, as two words, the low-order one first. */
  function LengthBytes(n: nat): (b: seq<byte>)
    ensures |b| == 8
  {
    ToLittle(8 * n % TWO_32) + ToLittle(8 * n / TWO_32 % TWO_32)
  }

  /** The eight bytes spell the number of bits, the lowest byte first, modulo 2^64. */
  lemma LengthField(n: nat)
    ensures FromLittle(LengthBytes(n)[..4]) + TWO_32 * FromLittle(LengthBytes(n)[4..]) == 8 * n % (TWO_32 * TWO_32)
  {
    hide FromLittle, ToLittle;
    var low, high := 8 * n % TWO_32, 8 * n / TWO_32 % TWO_32;
    assert LengthBytes(n)[..4] == ToLittle(low) && LengthBytes(n)[4..] == ToLittle(high);
    LittleRoundTrip(low);
    LittleRoundTrip(high);
    TwoWords(8 * n, 8 * n / TWO_32);
  }

  lemma TwoWords(x: nat, q: nat)
    requires q == x / TWO_32
    ensures x % (TWO_32 * TWO_32) == x % TWO_32 + TWO_32 * (q % TWO_32)
  {
    var r := x % TWO_32 + TWO_32 * (q % TWO_32);
    assert x == (TWO_32 * TWO_32) * (q / TWO_32) + r;
  }

  /** The words of a round: which one is first, and how far on the next one is. */
  lemma WordOrder(r: nat, i: nat)
    requires r < 4 && 16 * r <= i < 16 * r + 15
    ensures WordIndex(16 * r) == if r == 1 then 1 else if r == 2 then 5 else 0
    ensures WordIndex(i + 1)
      == (WordIndex(i) + if r == 0 then 1 else if r == 1 then 5 else if r == 2 then 3 else 7) % 16
  {
    if r == 0 {
      assert WordIndex(i) == i;
    } else if r == 1 {
      Forward(5 * i + 1, 5);
    } else if r == 2 {
      Forward(3 * i + 5, 3);
    } else {
      Forward(7 * i, 7);
    }
  }

  lemma Forward(x: nat, s: nat)
    ensures (x + s) % 16 == (x % 16 + s) % 16
  {
    var q, r := x / 16, x % 16 + s;
    assert x + s == 16 * (q + r / 16) + r % 16;
  }

  function Pad(m: seq<byte>): (p: seq<byte>)
    ensures |p| % 64 == 0
  {
    m + [0x80] + Zeros(PadLength(|m|)) + LengthBytes(|m|)
  }

  /** Section 3.5: the digest, from the low-order byte of A to the high-order byte of D. */
  function Digest(h: Hash): (d: seq<byte>)
    ensures |d| == 16
  {
    ToLittle(h.a) + ToLittle(h.b) + ToLittle(h.c) + ToLittle(h.d)
  }

  function MD5(m: seq<byte>): (d: seq<byte>)
    ensures |d| == 16
  {
    Digest(Blocks(Pad(m)))
  }
}
