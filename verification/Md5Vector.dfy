/** A digest of appendix A.5 of RFC 1321, worked out step by step: it fixes the tables, rotations,
    byte orders and starting values of Md5Spec. */
module Md5Vector {
  import opened CBytes
  import opened CWords
  import opened Md5Spec

  // ---- bitwise operators on bytes --------------------------------------------------------------

  function ByteOp(op: BitOperator, x: bv8, y: bv8): bv8 {
    match op
    case AND => x & y
    case OR => x | y
    case XOR => x ^ y
  }

  lemma Halve(x: bv8)
    ensures (x >> 1) as int == x as int / 2 && (x & 1) as int == x as int % 2
  {
    assert x as int == 2 * ((x >> 1) as int) + (x & 1) as int;
  }

  lemma HalveOp(op: BitOperator, x: bv8, y: bv8)
    ensures ByteOp(op, x, y) >> 1 == ByteOp(op, x >> 1, y >> 1)
    ensures ByteOp(op, x, y) & 1 == ByteOp(op, x & 1, y & 1)
  {
  }

  lemma LowOp(op: BitOperator, x: bv8, y: bv8)
    ensures ByteOp(op, x & 1, y & 1) as int == Bit(op, (x & 1) as int, (y & 1) as int)
  {
    assert (x & 1 == 0 || x & 1 == 1) && (y & 1 == 0 || y & 1 == 1);
  }

  lemma {:induction false} ByteOpIs(op: BitOperator, x: bv8, y: bv8)
    ensures BitOp(op, x as int, y as int) == ByteOp(op, x, y) as int
    decreases x as int + y as int
  {
    hide BitOp, ByteOp;
    BitOpUnfold(op, x as int, y as int);
    HalveOp(op, x, y);
    Halve(x);
    Halve(y);
    Halve(ByteOp(op, x, y));
    LowOp(op, x, y);
    if x == 0 && y == 0 {
      NoBits8(op);
    } else {
      ByteOpIs(op, x >> 1, y >> 1);
    }
  }

  lemma NoBits8(op: BitOperator)
    ensures BitOp(op, 0, 0) == 0 && ByteOp(op, 0, 0) == 0
  {
  }

  /** The operator on numbers with one byte more. */
  lemma LastByte(op: BitOperator, x: nat, a: nat, y: nat, b: nat, v: nat, c: nat)
    requires a < 0x100 && b < 0x100 && BitOp(op, x, y) == v && BitOp(op, a, b) == c
    ensures BitOp(op, 0x100 * x + a, 0x100 * y + b) == 0x100 * v + c
  {
    hide BitOp;
    assert Pow2(8) == 0x100;
    Shifted(op, x, a, y, b, 8);
  }

  /** And on four bytes. */
  lemma FourBytes(op: BitOperator, a3: nat, a2: nat, a1: nat, a0: nat, b3: nat, b2: nat, b1: nat, b0: nat)
    requires a3 < 0x100 && a2 < 0x100 && a1 < 0x100 && a0 < 0x100
    requires b3 < 0x100 && b2 < 0x100 && b1 < 0x100 && b0 < 0x100
    ensures BitOp(op, 0x100_0000 * a3 + 0x1_0000 * a2 + 0x100 * a1 + a0,
                  0x100_0000 * b3 + 0x1_0000 * b2 + 0x100 * b1 + b0)
      == 0x100_0000 * BitOp(op, a3, b3) + 0x1_0000 * BitOp(op, a2, b2) + 0x100 * BitOp(op, a1, b1) + BitOp(op, a0, b0)
  {
    hide BitOp;
    var x2, y2, v2 := 0x100 * a3 + a2, 0x100 * b3 + b2, 0x100 * BitOp(op, a3, b3) + BitOp(op, a2, b2);
    LastByte(op, a3, a2, b3, b2, BitOp(op, a3, b3), BitOp(op, a2, b2));
    LastByte(op, x2, a1, y2, b1, v2, BitOp(op, a1, b1));
    LastByte(op, 0x100 * x2 + a1, a0, 0x100 * y2 + b1, b0, 0x100 * v2 + BitOp(op, a1, b1), BitOp(op, a0, b0));
  }

  lemma {:induction false} Shifted(op: BitOperator, x: nat, a: nat, y: nat, b: nat, n: nat)
    requires a < Pow2(n) && b < Pow2(n)
    ensures BitOp(op, Pow2(n) * x + a, Pow2(n) * y + b) == Pow2(n) * BitOp(op, x, y) + BitOp(op, a, b)
  {
    hide BitOp, Pow2;
    if n == 0 {
      NoBits(op);
    } else {
      Pow2Step(n - 1);
      var p, v := Pow2(n - 1), BitOp(op, x, y);
      Shifted(op, x, a / 2, y, b / 2, n - 1);
      var px, py, pv := p * x, p * y, p * v;
      OneDigit(op, px, a, py, b, pv);
      Regroup(2, p, x);
      Regroup(2, p, y);
      Regroup(2, p, v);
    }
  }

  lemma OneDigit(op: BitOperator, x: nat, a: nat, y: nat, b: nat, v: nat)
    requires BitOp(op, x + a / 2, y + b / 2) == v + BitOp(op, a / 2, b / 2)
    ensures BitOp(op, 2 * x + a, 2 * y + b) == 2 * v + BitOp(op, a, b)
  {
    hide BitOp;
    BitOpUnfold(op, 2 * x + a, 2 * y + b);
    BitOpUnfold(op, a, b);
  }

  // ---- words as four bytes ------------------------------------------------------------------------

  /** A word, its high-order byte first. */
  datatype Quad = Q(b3: bv8, b2: bv8, b1: bv8, b0: bv8)

  function Value(q: Quad): Word {
    0x100_0000 * (q.b3 as int) + 0x1_0000 * (q.b2 as int) + 0x100 * (q.b1 as int) + q.b0 as int
  }

  function QuadOp(op: BitOperator, x: Quad, y: Quad): Quad {
    Q(ByteOp(op, x.b3, y.b3), ByteOp(op, x.b2, y.b2), ByteOp(op, x.b1, y.b1), ByteOp(op, x.b0, y.b0))
  }

  function QuadNot(x: Quad): Quad {
    Q(!x.b3, !x.b2, !x.b1, !x.b0)
  }

  lemma QuadOpIs(op: BitOperator, x: Quad, y: Quad)
    ensures BitOp(op, Value(x), Value(y)) == Value(QuadOp(op, x, y))
  {
    hide BitOp, ByteOp, Value;
    ByteOpIs(op, x.b3, y.b3);
    ByteOpIs(op, x.b2, y.b2);
    ByteOpIs(op, x.b1, y.b1);
    ByteOpIs(op, x.b0, y.b0);
    var z := QuadOp(op, x, y);
    var x3, x2, x1, x0 := BytesOf(x);
    var y3, y2, y1, y0 := BytesOf(y);
    var z3, z2, z1, z0 := BytesOf(z);
    assert z3 == BitOp(op, x3, y3) && z2 == BitOp(op, x2, y2) && z1 == BitOp(op, x1, y1) && z0 == BitOp(op, x0, y0);
    FourBytes(op, x3, x2, x1, x0, y3, y2, y1, y0);
  }

  lemma BytesOf(q: Quad) returns (b3: nat, b2: nat, b1: nat, b0: nat)
    ensures b3 == q.b3 as int < 0x100 && b2 == q.b2 as int < 0x100
    ensures b1 == q.b1 as int < 0x100 && b0 == q.b0 as int < 0x100
    ensures Value(q) == 0x100_0000 * b3 + 0x1_0000 * b2 + 0x100 * b1 + b0
  {
    b3, b2, b1, b0 := q.b3 as int, q.b2 as int, q.b1 as int, q.b0 as int;
  }

  lemma NotByte(x: bv8)
    ensures (!x) as int == 0xff - x as int
  {
  }

  lemma QuadNotIs(x: Quad)
    ensures Not(Value(x)) == Value(QuadNot(x))
  {
    hide Value;
    NotByte(x.b3);
    NotByte(x.b2);
    NotByte(x.b1);
    NotByte(x.b0);
    var x3, x2, x1, x0 := BytesOf(x);
    var y3, y2, y1, y0 := BytesOf(QuadNot(x));
    assert y3 == 0xff - x3 && y2 == 0xff - x2 && y1 == 0xff - x1 && y0 == 0xff - x0;
  }

  /** The four functions of section 3.4 on bytes. */
  function QuadRound(i: nat, x: Quad, y: Quad, z: Quad): Quad {
    if i < 16 then QuadOp(OR, QuadOp(AND, x, y), QuadOp(AND, QuadNot(x), z))
    else if i < 32 then QuadOp(OR, QuadOp(AND, x, z), QuadOp(AND, y, QuadNot(z)))
    else if i < 48 then QuadOp(XOR, QuadOp(XOR, x, y), z)
    else QuadOp(XOR, y, QuadOp(OR, x, QuadNot(z)))
  }

  lemma QuadRoundIs(i: nat, x: Quad, y: Quad, z: Quad)
    ensures Round(i, Value(x), Value(y), Value(z)) == Value(QuadRound(i, x, y, z))
  {
    hide BitOp, QuadOp, QuadNot, Value;
    QuadNotIs(x);
    QuadNotIs(z);
    if i < 16 {
      QuadOpIs(AND, x, y);
      QuadOpIs(AND, QuadNot(x), z);
      QuadOpIs(OR, QuadOp(AND, x, y), QuadOp(AND, QuadNot(x), z));
    } else if i < 32 {
      QuadOpIs(AND, x, z);
      QuadOpIs(AND, y, QuadNot(z));
      QuadOpIs(OR, QuadOp(AND, x, z), QuadOp(AND, y, QuadNot(z)));
    } else if i < 48 {
      QuadOpIs(XOR, x, y);
      QuadOpIs(XOR, QuadOp(XOR, x, y), z);
    } else {
      QuadOpIs(OR, x, QuadNot(z));
      QuadOpIs(XOR, y, QuadOp(OR, x, QuadNot(z)));
    }
  }

  // ---- one operation --------------------------------------------------------------------------------

  /** The four words of the buffer. */
  datatype Buffer = Buffer(a: Quad, b: Quad, c: Quad, d: Quad)

  function HashOf(s: Buffer): Hash {
    Hash(Value(s.a), Value(s.b), Value(s.c), Value(s.d))
  }

  /** Step `i` on the block X: its function yields `f`, and the sum splits at the rotation into
      `hi` and `lo`. */
  lemma Next(i: nat, s: Buffer, r: nat, p: nat, q: nat, hi: nat, lo: nat, f: Quad, b: Quad)
    requires i < 64 && Operations(0, i, IV, X) == HashOf(s)
    requires r == Rotation(i) && f == QuadRound(i, s.b, s.c, s.d)
    requires q == Pow2(r) && p == Pow2(32 - r) && hi < q && lo < p
    requires (Value(s.a) + Value(f) + X[WordIndex(i)] + T(i)) % TWO_32 == hi * p + lo
    requires (Value(s.b) + lo * q + hi) % TWO_32 == Value(b)
    ensures Operations(0, i + 1, IV, X) == HashOf(Buffer(s.d, b, s.b, s.c))
  {
    hide Pow2, RotateLeft, T, Rotation, WordIndex, Round, QuadRound, Value;
    var h := HashOf(s);
    QuadRoundIs(i, s.b, s.c, s.d);
    var sum := Add(Add(Add(h.a, Value(f)), X[WordIndex(i)]), T(i));
    FourSum(h.a, Value(f), X[WordIndex(i)], T(i));
    RotateSwaps(sum, r, hi, lo);
  }

  lemma FourSum(a: Word, b: Word, c: Word, d: Word)
    ensures Add(Add(Add(a, b), c), d) == (a + b + c + d) % TWO_32
  {
    Wraps(a, b);
    Wraps(Add(a, b), c);
    Wraps(Add(Add(a, b), c), d);
  }

  lemma Powers()
    ensures Pow2(4) == 0x10 && Pow2(5) == 0x20 && Pow2(6) == 0x40 && Pow2(7) == 0x80 && Pow2(9) == 0x200
    ensures Pow2(10) == 0x400 && Pow2(11) == 0x800 && Pow2(12) == 0x1000 && Pow2(14) == 0x4000 && Pow2(15) == 0x8000
    ensures Pow2(16) == 0x1_0000 && Pow2(17) == 0x2_0000 && Pow2(18) == 0x4_0000 && Pow2(20) == 0x10_0000
    ensures Pow2(21) == 0x20_0000 && Pow2(22) == 0x40_0000 && Pow2(23) == 0x80_0000 && Pow2(25) == 0x200_0000
    ensures Pow2(26) == 0x400_0000 && Pow2(27) == 0x800_0000 && Pow2(28) == 0x1000_0000
  {
    assert Pow2(4) == 0x10;
    assert Pow2(6) == 0x40;
    assert Pow2(8) == 0x100;
    assert Pow2(10) == 0x400;
    assert Pow2(12) == 0x1000;
    assert Pow2(14) == 0x4000;
    assert Pow2(16) == 0x1_0000;
    assert Pow2(18) == 0x4_0000;
    assert Pow2(20) == 0x10_0000;
    assert Pow2(22) == 0x40_0000;
    assert Pow2(24) == 0x100_0000;
    assert Pow2(26) == 0x400_0000;
  }

  // ---- the message "abcdefghijklmnopqrstuvwxyz" ----------------------------------------------------

  const ALPHABET: seq<byte> := [97, 98, 99, 100, 101, 102, 103, 104, 105, 106, 107, 108, 109, 110, 111, 112, 113, 114,
                                115, 116, 117, 118, 119, 120, 121, 122]

  /** Its block, as sixteen words. */
  const X: seq<Word> := [
    0x64636261, 0x68676665, 0x6c6b6a69, 0x706f6e6d, 0x74737271, 0x78777675, 0x00807a79, 0x00000000,
    0x00000000, 0x00000000, 0x00000000, 0x00000000, 0x00000000, 0x00000000, 0x000000d0, 0x00000000]

  /** The four starting words, in the order in which they are replaced, and the word that each step computes. */
  const W0 := Q(0x67, 0x45, 0x23, 0x01)
  const W1 := Q(0x10, 0x32, 0x54, 0x76)
  const W2 := Q(0x98, 0xba, 0xdc, 0xfe)
  const W3 := Q(0xef, 0xcd, 0xab, 0x89)
  const W4 := Q(0xd6, 0xd1, 0x17, 0xa6)
  const W5 := Q(0xaa, 0xb1, 0xaa, 0xaa)
  const W6 := Q(0x22, 0x7d, 0x8c, 0xf1)
  const W7 := Q(0x45, 0x03, 0xb8, 0x12)
  const W8 := Q(0xfe, 0x15, 0xf7, 0x87)
  const W9 := Q(0xa8, 0x11, 0xb2, 0x78)
  const W10 := Q(0xb7, 0x11, 0x22, 0xfc)
  const W11 := Q(0xda, 0x9b, 0xbb, 0x0d)
  const W12 := Q(0xae, 0x75, 0x28, 0x99)
  const W13 := Q(0x2b, 0xbe, 0x75, 0x7f)
  const W14 := Q(0x7d, 0x4b, 0xd8, 0x0b)
  const W15 := Q(0x56, 0xcf, 0xa5, 0xcb)
  const W16 := Q(0x17, 0x54, 0xa3, 0x16)
  const W17 := Q(0x85, 0x56, 0x7d, 0x90)
  const W18 := Q(0x00, 0xdf, 0x74, 0xd5)
  const W19 := Q(0x60, 0x8d, 0x6b, 0x7e)
  const W20 := Q(0x2d, 0x80, 0x71, 0xcc)
  const W21 := Q(0x5d, 0xce, 0xe1, 0x19)
  const W22 := Q(0xed, 0xfe, 0x7e, 0x4b)
  const W23 := Q(0x4c, 0x21, 0x45, 0xb3)
  const W24 := Q(0x57, 0x0c, 0x43, 0xe0)
  const W25 := Q(0x97, 0x7e, 0xfd, 0x2a)
  const W26 := Q(0xc2, 0x8a, 0xb4, 0x9d)
  const W27 := Q(0xc9, 0xf1, 0x62, 0xd4)
  const W28 := Q(0x25, 0xbf, 0xae, 0x3b)
  const W29 := Q(0x89, 0x98, 0x01, 0x04)
  const W30 := Q(0xf8, 0xc8, 0x36, 0x5f)
  const W31 := Q(0xe6, 0xd3, 0xb3, 0x98)
  const W32 := Q(0xf5, 0x4d, 0x87, 0x10)
  const W33 := Q(0x92, 0x7b, 0x72, 0xe2)
  const W34 := Q(0x2e, 0x69, 0xaf, 0xc7)
  const W35 := Q(0xae, 0xb3, 0x57, 0x66)
  const W36 := Q(0xb4, 0xbf, 0x68, 0x0e)
  const W37 := Q(0x4c, 0x8f, 0xfa, 0x80)
  const W38 := Q(0x23, 0x61, 0xed, 0x0a)
  const W39 := Q(0x06, 0xa5, 0xe2, 0x11)
  const W40 := Q(0xb9, 0xc0, 0xc7, 0x33)
  const W41 := Q(0xf1, 0xe6, 0xdc, 0x7a)
  const W42 := Q(0x23, 0xa9, 0x45, 0x1b)
  const W43 := Q(0x8d, 0x41, 0xbf, 0x99)
  const W44 := Q(0xa3, 0xe8, 0x8e, 0xad)
  const W45 := Q(0x02, 0xc0, 0xb1, 0x1c)
  const W46 := Q(0x66, 0xf6, 0x46, 0x8d)
  const W47 := Q(0x90, 0xa3, 0x5a, 0xf5)
  const W48 := Q(0xb5, 0xd4, 0x1f, 0x9c)
  const W49 := Q(0xa0, 0x4b, 0x49, 0x04)
  const W50 := Q(0x70, 0x3d, 0x54, 0xd8)
  const W51 := Q(0x71, 0xd1, 0x03, 0x67)
  const W52 := Q(0xfc, 0x32, 0xdd, 0x6e)
  const W53 := Q(0x65, 0x45, 0x6b, 0x34)
  const W54 := Q(0xb3, 0x56, 0x02, 0xcb)
  const W55 := Q(0x33, 0xed, 0xb1, 0x97)
  const W56 := Q(0xc1, 0xe9, 0x42, 0xf1)
  const W57 := Q(0xd9, 0xbb, 0x98, 0x7c)
  const W58 := Q(0x23, 0xa6, 0x80, 0x48)
  const W59 := Q(0x83, 0x87, 0x7d, 0x1b)
  const W60 := Q(0x00, 0x77, 0xc2, 0x08)
  const W61 := Q(0x84, 0x7f, 0xc2, 0xe7)
  const W62 := Q(0xa3, 0xe2, 0x24, 0x7f)
  const W63 := Q(0x5e, 0x6b, 0xc9, 0x30)
  const W64 := Q(0x70, 0x8e, 0xd9, 0xc2)
  const W65 := Q(0x2b, 0xaf, 0x13, 0x54)
  const W66 := Q(0xd3, 0x8f, 0x1e, 0x7f)
  const W67 := Q(0x11, 0x16, 0xe6, 0xd8)

  lemma Steps0()
    ensures Operations(0, 0, IV, X) == IV == HashOf(Buffer(W0, W3, W2, W1))
  {
  }

  lemma Steps2()
    ensures Operations(0, 2, IV, X) == HashOf(Buffer(W2, W5, W4, W3))
  {
    hide Operations, HashOf, Pow2;
    Steps0();
    Powers();
    Next(0, Buffer(W0, W3, W2, W1), 7, 0x2000000, 0x80, 0x1d, 0x1ce06d8, Q(0x98, 0xba, 0xdc, 0xfe), W4);
    Next(1, Buffer(W1, W4, W3, W2), 12, 0x100000, 0x1000, 0x304, 0xd3e09, Q(0xce, 0xeb, 0xcb, 0xd8), W5);
  }

  lemma Steps4()
    ensures Operations(0, 4, IV, X) == HashOf(Buffer(W4, W7, W6, W5))
  {
    hide Operations, HashOf, Pow2;
    Steps2();
    Powers();
    Next(2, Buffer(W2, W5, W4, W3), 17, 0x8000, 0x20000, 0x1e247, 0x3be5, Q(0xc7, 0xdd, 0x03, 0xa3), W6);
    Next(3, Buffer(W3, W6, W5, W4), 22, 0x400, 0x400000, 0x62b21, 0x8a, Q(0xf6, 0xb1, 0x9b, 0xa6), W7);
  }

  lemma Steps6()
    ensures Operations(0, 6, IV, X) == HashOf(Buffer(W6, W9, W8, W7))
  {
    hide Operations, HashOf, Pow2;
    Steps4();
    Powers();
    Next(4, Buffer(W4, W7, W6, W5), 7, 0x2000000, 0x80, 0x75, 0x172247e, Q(0xaa, 0xb1, 0x8a, 0xb8), W8);
    Next(5, Buffer(W5, W8, W7, W6), 12, 0x100000, 0x1000, 0xaf1, 0xa9fbb, Q(0x44, 0x69, 0xb8, 0x72), W9);
  }

  lemma Steps8()
    ensures Operations(0, 8, IV, X) == HashOf(Buffer(W8, W11, W10, W9))
  {
    hide Operations, HashOf, Pow2;
    Steps6();
    Powers();
    Next(6, Buffer(W6, W9, W8, W7), 17, 0x8000, 0x20000, 0x17084, 0x77f, Q(0xed, 0x13, 0xba, 0x02), W10);
    Next(7, Buffer(W7, W10, W9, W8), 22, 0x400, 0x400000, 0xa9811, 0x8e, Q(0xe8, 0x15, 0xf7, 0x7b), W11);
  }

  lemma Steps10()
    ensures Operations(0, 10, IV, X) == HashOf(Buffer(W10, W13, W12, W11))
  {
    hide Operations, HashOf, Pow2;
    Steps8();
    Powers();
    Next(8, Buffer(W8, W11, W10, W9), 7, 0x2000000, 0x80, 0xc, 0x1a7b2db, Q(0xb2, 0x11, 0x22, 0x7c), W12);
    Next(9, Buffer(W9, W12, W11, W10), 12, 0x100000, 0x1000, 0xce6, 0x7d494, Q(0x9b, 0x11, 0x2a, 0x6d), W13);
  }

  lemma Steps12()
    ensures Operations(0, 12, IV, X) == HashOf(Buffer(W12, W15, W14, W13))
  {
    hide Operations, HashOf, Pow2;
    Steps10();
    Powers();
    Next(10, Buffer(W10, W13, W12, W11), 17, 0x8000, 0x20000, 0x1628c, 0x28c6, Q(0xfa, 0x35, 0xaa, 0x19), W14);
    Next(11, Buffer(W11, W14, W13, W12), 22, 0x400, 0x400000, 0x3cdc0, 0x366, Q(0xab, 0x3e, 0x70, 0x9b), W15);
  }

  lemma Steps14()
    ensures Operations(0, 14, IV, X) == HashOf(Buffer(W14, W17, W16, W15))
  {
    hide Operations, HashOf, Pow2;
    Steps12();
    Powers();
    Next(12, Buffer(W12, W15, W14, W13), 7, 0x2000000, 0x80, 0x4b, 0x18109fa, Q(0x7d, 0x7b, 0xd0, 0x3f), W16);
    Next(13, Buffer(W13, W16, W15, W14), 12, 0x100000, 0x1000, 0xa7a, 0x6e01d, Q(0x7e, 0x4f, 0xf9, 0x0b), W17);
  }

  lemma Steps16()
    ensures Operations(0, 16, IV, X) == HashOf(Buffer(W16, W19, W18, W17))
  {
    hide Operations, HashOf, Pow2;
    Steps14();
    Powers();
    Next(14, Buffer(W14, W17, W16, W15), 17, 0x8000, 0x20000, 0xf745, 0x3dc4, Q(0x57, 0xdd, 0xa1, 0x5b), W18);
    Next(15, Buffer(W15, W18, W17, W16), 22, 0x400, 0x400000, 0x2df6a9, 0x17e, Q(0x17, 0x56, 0xf7, 0x92), W19);
  }

  lemma Steps18()
    ensures Operations(0, 18, IV, X) == HashOf(Buffer(W18, W21, W20, W19))
  {
    hide Operations, HashOf, Pow2;
    Steps16();
    Powers();
    Next(16, Buffer(W16, W19, W18, W17), 5, 0x8000000, 0x20, 0xe, 0x6679832, Q(0x00, 0x8d, 0x69, 0x55), W20);
    Next(17, Buffer(W17, W20, W19, W18), 9, 0x800000, 0x200, 0x14d, 0x182737, Q(0x60, 0x80, 0x7b, 0xee), W21);
  }

  lemma Steps20()
    ensures Operations(0, 20, IV, X) == HashOf(Buffer(W20, W23, W22, W21))
  {
    hide Operations, HashOf, Pow2;
    Steps18();
    Powers();
    Next(18, Buffer(W18, W21, W20, W19), 14, 0x40000, 0x4000, 0x1d32, 0x240be, Q(0x4d, 0x8c, 0x71, 0x98), W22);
    Next(19, Buffer(W19, W22, W21, W20), 20, 0x1000, 0x100000, 0x2c768, 0x5e2, Q(0x7d, 0xce, 0xf0, 0x59), W23);
  }

  lemma Steps22()
    ensures Operations(0, 22, IV, X) == HashOf(Buffer(W22, W25, W24, W23))
  {
    hide Operations, HashOf, Pow2;
    Steps20();
    Powers();
    Next(20, Buffer(W20, W23, W22, W21), 5, 0x8000000, 0x20, 0xd, 0x5757f1, Q(0xec, 0x30, 0x5f, 0x53), W24);
    Next(21, Buffer(W21, W24, W23, W22), 9, 0x800000, 0x200, 0x14a, 0x20395c, Q(0x45, 0x0d, 0x43, 0xf0), W25);
  }

  lemma Steps24()
    ensures Operations(0, 24, IV, X) == HashOf(Buffer(W24, W27, W26, W25))
  {
    hide Operations, HashOf, Pow2;
    Steps22();
    Powers();
    Next(22, Buffer(W22, W25, W24, W23), 14, 0x40000, 0x4000, 0x3773, 0xac2e, Q(0x17, 0x2c, 0x47, 0x62), W26);
    Next(23, Buffer(W23, W26, W25, W24), 20, 0x1000, 0x100000, 0x6ae37, 0x76, Q(0xc2, 0x7a, 0xbc, 0x8a), W27);
  }

  lemma Steps26()
    ensures Operations(0, 26, IV, X) == HashOf(Buffer(W26, W29, W28, W27))
  {
    hide Operations, HashOf, Pow2;
    Steps24();
    Powers();
    Next(24, Buffer(W24, W27, W26, W25), 5, 0x8000000, 0x20, 0x7, 0x2de725b, Q(0xc1, 0xf0, 0x60, 0x95), W28);
    Next(25, Buffer(W25, W28, W27, W26), 9, 0x800000, 0x200, 0xc9, 0x31ec29, Q(0x09, 0xfb, 0xe6, 0x59), W29);
  }

  lemma Steps28()
    ensures Operations(0, 28, IV, X) == HashOf(Buffer(W28, W31, W30, W29))
  {
    hide Operations, HashOf, Pow2;
    Steps26();
    Powers();
    Next(26, Buffer(W26, W29, W28, W27), 14, 0x40000, 0x4000, 0x355b, 0x1bcc0, Q(0xad, 0x9e, 0x8c, 0x2f), W30);
    Next(27, Buffer(W27, W30, W29, W28), 20, 0x1000, 0x100000, 0xb7d39, 0xee0, Q(0xa8, 0x88, 0x27, 0x1f), W31);
  }

  lemma Steps30()
    ensures Operations(0, 30, IV, X) == HashOf(Buffer(W30, W33, W32, W31))
  {
    hide Operations, HashOf, Pow2;
    Steps28();
    Powers();
    Next(28, Buffer(W28, W31, W30, W29), 5, 0x8000000, 0x20, 0x18, 0x73ce9b, Q(0xf0, 0xd0, 0x37, 0x5b), W32);
    Next(29, Buffer(W29, W32, W31, W30), 9, 0x800000, 0x200, 0x1d2, 0x4e96f5, Q(0xf6, 0x5b, 0x87, 0x90), W33);
  }

  lemma Steps32()
    ensures Operations(0, 32, IV, X) == HashOf(Buffer(W32, W35, W34, W33))
  {
    hide Operations, HashOf, Pow2;
    Steps30();
    Powers();
    Next(30, Buffer(W30, W33, W32, W31), 14, 0x40000, 0x4000, 0x3ce5, 0x26fb8, Q(0x93, 0x5f, 0x36, 0x80), W34);
    Next(31, Buffer(W31, W34, W33, W32), 20, 0x1000, 0x100000, 0x9a79f, 0x804, Q(0x26, 0x7b, 0xf7, 0xe2), W35);
  }

  lemma Steps34()
    ensures Operations(0, 34, IV, X) == HashOf(Buffer(W34, W37, W36, W35))
  {
    hide Operations, HashOf, Pow2;
    Steps32();
    Powers();
    Next(32, Buffer(W32, W35, W34, W33), 4, 0x10000000, 0x10, 0x8, 0x60c10a, Q(0x12, 0xa1, 0x8a, 0x43), W36);
    Next(33, Buffer(W33, W36, W35, W34), 11, 0x200000, 0x800, 0x272, 0x12fa12, Q(0x34, 0x65, 0x90, 0xaf), W37);
  }

  lemma Steps36()
    ensures Operations(0, 36, IV, X) == HashOf(Buffer(W36, W39, W38, W37))
  {
    hide Operations, HashOf, Pow2;
    Steps34();
    Powers();
    Next(34, Buffer(W34, W37, W36, W35), 16, 0x10000, 0x10000, 0xf28a, 0xd6d1, Q(0x56, 0x83, 0xc5, 0xe8), W38);
    Next(35, Buffer(W35, W38, W37, W36), 23, 0x200, 0x800000, 0x43f507, 0x1c6, Q(0xdb, 0x51, 0x7f, 0x84), W39);
  }

  lemma Steps38()
    ensures Operations(0, 38, IV, X) == HashOf(Buffer(W38, W41, W40, W39))
  {
    hide Operations, HashOf, Pow2;
    Steps36();
    Powers();
    Next(36, Buffer(W36, W39, W38, W37), 4, 0x10000000, 0x10, 0x2, 0xb31ae52, Q(0x69, 0x4b, 0xf5, 0x9b), W40);
    Next(37, Buffer(W37, W40, W39, W38), 11, 0x200000, 0x800, 0x547, 0x704c2, Q(0x9c, 0x04, 0xc8, 0x28), W41);
  }

  lemma Steps40()
    ensures Operations(0, 40, IV, X) == HashOf(Buffer(W40, W43, W42, W41))
  {
    hide Operations, HashOf, Pow2;
    Steps38();
    Powers();
    Next(38, Buffer(W38, W41, W40, W39), 16, 0x10000, 0x10000, 0x68a1, 0x31c2, Q(0x4e, 0x83, 0xf9, 0x58), W42);
    Next(39, Buffer(W39, W42, W41, W40), 23, 0x200, 0x800000, 0x187a7e, 0xd3, Q(0x6b, 0x8f, 0x5e, 0x52), W43);
  }

  lemma Steps42()
    ensures Operations(0, 42, IV, X) == HashOf(Buffer(W42, W45, W44, W43))
  {
    hide Operations, HashOf, Pow2;
    Steps40();
    Powers();
    Next(40, Buffer(W40, W43, W42, W41), 4, 0x10000000, 0x10, 0x4, 0x16a6cf1, Q(0x5f, 0x0e, 0x26, 0xf8), W44);
    Next(41, Buffer(W41, W44, W43, W42), 11, 0x200000, 0x800, 0x26f, 0xbdb04, Q(0x0d, 0x00, 0x74, 0x2f), W45);
  }

  lemma Steps44()
    ensures Operations(0, 44, IV, X) == HashOf(Buffer(W44, W47, W46, W45))
  {
    hide Operations, HashOf, Pow2;
    Steps42();
    Powers();
    Next(42, Buffer(W42, W45, W44, W43), 16, 0x10000, 0x10000, 0x9571, 0x6435, Q(0x2c, 0x69, 0x80, 0x28), W46);
    Next(43, Buffer(W43, W46, W45, W44), 23, 0x200, 0x800000, 0x2d1468, 0x53, Q(0xc7, 0xde, 0x79, 0x3c), W47);
  }

  lemma Steps46()
    ensures Operations(0, 46, IV, X) == HashOf(Buffer(W46, W49, W48, W47))
  {
    hide Operations, HashOf, Pow2;
    Steps44();
    Powers();
    Next(44, Buffer(W44, W47, W46, W45), 4, 0x10000000, 0x10, 0x7, 0x2530c4a, Q(0xf4, 0x95, 0xad, 0x64), W48);
    Next(45, Buffer(W45, W48, W47, W46), 11, 0x200000, 0x800, 0x168, 0x1d4ee5, Q(0x43, 0x81, 0x03, 0xe4), W49);
  }

  lemma Steps48()
    ensures Operations(0, 48, IV, X) == HashOf(Buffer(W48, W51, W50, W49))
  {
    hide Operations, HashOf, Pow2;
    Steps46();
    Powers();
    Next(46, Buffer(W46, W49, W48, W47), 16, 0x10000, 0x10000, 0xbd4, 0xcff2, Q(0x85, 0x3c, 0x0c, 0x6d), W50);
    Next(47, Buffer(W47, W50, W49, W48), 23, 0x200, 0x800000, 0x13ae8f, 0x3, Q(0x65, 0xa2, 0x02, 0x40), W51);
  }

  lemma Steps50()
    ensures Operations(0, 50, IV, X) == HashOf(Buffer(W50, W53, W52, W51))
  {
    hide Operations, HashOf, Pow2;
    Steps48();
    Powers();
    Next(48, Buffer(W48, W51, W50, W49), 6, 0x4000000, 0x40, 0x7, 0x2298768, Q(0x0f, 0xc8, 0xe3, 0x27), W52);
    Next(49, Buffer(W49, W52, W51, W50), 10, 0x400000, 0x400, 0x1c6, 0x1a44a3, Q(0x8e, 0x23, 0xfc, 0x08), W53);
  }

  lemma Steps52()
    ensures Operations(0, 52, IV, X) == HashOf(Buffer(W52, W55, W54, W53))
  {
    hide Operations, HashOf, Pow2;
    Steps50();
    Powers();
    Next(50, Buffer(W50, W53, W52, W51), 15, 0x20000, 0x8000, 0x1797, 0x9c21, Q(0x13, 0x5d, 0x22, 0xd2), W54);
    Next(51, Buffer(W51, W54, W53, W52), 21, 0x800, 0x200000, 0x17aecc, 0x404, Q(0xd6, 0x9a, 0x49, 0xef), W55);
  }

  lemma Steps54()
    ensures Operations(0, 54, IV, X) == HashOf(Buffer(W54, W57, W56, W55))
  {
    hide Operations, HashOf, Pow2;
    Steps52();
    Powers();
    Next(52, Buffer(W52, W55, W54, W53), 6, 0x4000000, 0x40, 0x1a, 0x237ee45, Q(0x08, 0xa9, 0xb7, 0x14), W56);
    Next(53, Buffer(W53, W56, W55, W54), 10, 0x400000, 0x400, 0x18b, 0x5f495, Q(0xfe, 0x04, 0x4e, 0x62), W57);
  }

  lemma Steps56()
    ensures Operations(0, 56, IV, X) == HashOf(Buffer(W56, W59, W58, W57))
  {
    hide Operations, HashOf, Pow2;
    Steps54();
    Powers();
    Next(54, Buffer(W54, W57, W56, W55), 15, 0x20000, 0x8000, 0x67cc, 0x93d5, Q(0x1c, 0x52, 0x9c, 0x8d), W58);
    Next(55, Buffer(W55, W58, W57, W56), 21, 0x800, 0x200000, 0xfcd3, 0x2ff, Q(0xe6, 0x0d, 0x25, 0x32), W59);
  }

  lemma Steps58()
    ensures Operations(0, 58, IV, X) == HashOf(Buffer(W58, W61, W60, W59))
  {
    hide Operations, HashOf, Pow2;
    Steps56();
    Powers();
    Next(56, Buffer(W56, W59, W58, W57), 6, 0x4000000, 0x40, 0x2d, 0x1f3c113, Q(0x84, 0x61, 0xff, 0xd3), W60);
    Next(57, Buffer(W57, W60, W59, W58), 10, 0x400000, 0x400, 0xdf, 0x210200, Q(0x5f, 0xf8, 0x82, 0xa4), W61);
  }

  lemma Steps60()
    ensures Operations(0, 60, IV, X) == HashOf(Buffer(W60, W63, W62, W61))
  {
    hide Operations, HashOf, Pow2;
    Steps58();
    Powers();
    Next(58, Buffer(W58, W61, W60, W59), 15, 0x20000, 0x8000, 0x6198, 0x3ec4, Q(0xfc, 0x08, 0x00, 0xef), W62);
    Next(59, Buffer(W59, W62, W61, W60), 21, 0x800, 0x200000, 0x9a4b1, 0x5d4, Q(0x7b, 0x95, 0xff, 0x18), W63);
  }

  lemma Steps62()
    ensures Operations(0, 62, IV, X) == HashOf(Buffer(W62, W65, W64, W63))
  {
    hide Operations, HashOf, Pow2;
    Steps60();
    Powers();
    Next(60, Buffer(W60, W63, W62, W61), 6, 0x4000000, 0x40, 0x12, 0x488c42, Q(0xdc, 0x09, 0xd9, 0x47), W64);
    Next(61, Buffer(W61, W64, W63, W62), 10, 0x400000, 0x400, 0x192, 0x2ec80e, Q(0x22, 0xf4, 0x12, 0xf2), W65);
  }

  lemma Steps64()
    ensures Operations(0, 64, IV, X) == HashOf(Buffer(W64, W67, W66, W65))
  {
    hide Operations, HashOf, Pow2;
    Steps62();
    Powers();
    Next(62, Buffer(W62, W65, W64, W63), 15, 0x20000, 0x8000, 0xb2b, 0x14fc0, Q(0xdb, 0x31, 0xee, 0x1d), W66);
    Next(63, Buffer(W63, W66, W65, W64), 21, 0x800, 0x200000, 0x7c859, 0x1ec, Q(0xf4, 0x50, 0x2d, 0x2b), W67);
  }

  lemma OneBlock(block: seq<byte>)
    requires |block| == 64 && DecodeBlock(block) == X
    ensures Compress(IV, block) == Hash(0xd7d3fcc3, 0x00e49261, 0x6c49fb7d, 0x3be167ca)
  {
    hide Operations, Operation;
    Steps64();
  }

  lemma PaddedAlphabet()
    ensures Pad(ALPHABET) == ALPHABET + [0x80] + Zeros(29) + [208, 0, 0, 0, 0, 0, 0, 0]
  {
    assert LengthBytes(26) == [208, 0, 0, 0, 0, 0, 0, 0];
    assert PadLength(26) == 29;
  }

  lemma AlphabetBlock(p: seq<byte>)
    requires p == ALPHABET + [0x80] + Zeros(29) + [208, 0, 0, 0, 0, 0, 0, 0]
    ensures |p| == 64 && DecodeBlock(p) == X
  {
    hide DecodeBlock;
    var x := DecodeBlock(p);
    LettersInOrder();
    assert forall k | 0 <= k < 26 :: p[k] == 97 + k;
    forall i | 0 <= i < 6 ensures x[i] == 0x6463_6261 + 0x404_0404 * i {
      WordOf(p, i, 97 + 4 * i, 98 + 4 * i, 99 + 4 * i, 100 + 4 * i);
    }
    WordOf(p, 6, 121, 122, 0x80, 0);
    forall i | 7 <= i < 14 ensures x[i] == 0 {
      WordOf(p, i, 0, 0, 0, 0);
    }
    WordOf(p, 14, 208, 0, 0, 0);
    WordOf(p, 15, 0, 0, 0, 0);
    assert x == X;
  }

  lemma WordOf(p: seq<byte>, i: nat, b0: byte, b1: byte, b2: byte, b3: byte)
    requires |p| == 64 && i < 16
    requires p[4 * i] == b0 && p[4 * i + 1] == b1 && p[4 * i + 2] == b2 && p[4 * i + 3] == b3
    ensures DecodeBlock(p)[i] == b0 as int + 0x100 * (b1 as int) + 0x1_0000 * (b2 as int) + 0x100_0000 * (b3 as int)
  {
  }

  lemma LettersInOrder()
    ensures forall k | 0 <= k < 26 :: ALPHABET[k] == 97 + k
  {
  }

  /** MD5 ("abcdefghijklmnopqrstuvwxyz") = c3fcd3d76192e4007dfb496cca67e13b */
  lemma DigestOfAlphabet()
    ensures ALPHABET == [97, 98, 99, 100, 101, 102, 103, 104, 105, 106, 107, 108, 109, 110, 111, 112, 113, 114,
                         115, 116, 117, 118, 119, 120, 121, 122]
    ensures MD5(ALPHABET) == [0xc3, 0xfc, 0xd3, 0xd7, 0x61, 0x92, 0xe4, 0x00,
                              0x7d, 0xfb, 0x49, 0x6c, 0xca, 0x67, 0xe1, 0x3b]
  {
    hide Compress, DecodeBlock, Pad;
    PaddedAlphabet();
    AlphabetBlock(Pad(ALPHABET));
    OneBlock(Pad(ALPHABET));
    OneBlockOnly(Pad(ALPHABET));
  }

  lemma OneBlockOnly(m: seq<byte>)
    requires |m| == 64
    ensures Blocks(m) == Compress(IV, m)
  {
    hide Compress;
    assert m[..0] == [] && m[0..] == m;
    assert Blocks([]) == IV;
  }
}
