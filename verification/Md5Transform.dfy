/** The transform of md5.c: 64 unrolled steps with optimised boolean forms. */
module Md5Transform {
  import opened CBytes
  import opened CWords
  import opened Md5Spec

  // ---- the macros ------------------------------------------------------------------

  function F1(x: Word, y: Word, z: Word): Word { Xor(z, And(x, Xor(y, z))) }

  function F2(x: Word, y: Word, z: Word): Word { F1(z, x, y) }

  function F3(x: Word, y: Word, z: Word): Word { Xor(Xor(x, y), z) }

  function F4(x: Word, y: Word, z: Word): Word { Xor(y, Or(x, Not(z))) }

  lemma Form1(x: Word, y: Word, z: Word)
    ensures F1(x, y, z) == F(x, y, z)
  {
    Pow2Of32();
    SelectBits(32, x, y, z);
  }

  lemma Form2(x: Word, y: Word, z: Word)
    ensures F2(x, y, z) == G(x, y, z)
  {
    Form1(z, x, y);
    Symmetric(AND, z, x);
    Symmetric(AND, Not(z), y);
  }

  lemma SumOrder(a: Word, f: Word, x: Word, t: Word)
    ensures Add(a, Add(f, Add(x, t))) == Add(Add(Add(a, f), x), t)
  {
    AddAssociates(f, x, t);
    AddAssociates(a, Add(f, x), t);
    AddAssociates(a, f, x);
  }

  /** MD5STEP, with the value of f(x, y, z) in place of f and in[k] + t in place of data. */
  method Md5Step(f: Word, w: Word, x: Word, k: Word, t: Word, s: nat) returns (r: Word)
    requires 0 < s < 32
    ensures r == NewWord(w, x, f, k, t, s)
  {
    r := Add(w, Add(f, Add(k, t)));
    SumOrder(w, f, k, t);
    RotateByShifts(r, s);
    r := Or(ShiftLeft(r, s), ShiftRight(r, 32 - s));
    r := Add(r, x);
  }

  method Step1(w: Word, x: Word, y: Word, z: Word, k: Word, t: Word, s: nat) returns (r: Word)
    requires 0 < s < 32
    ensures r == NewWord(w, x, F(x, y, z), k, t, s)
  {
    Form1(x, y, z);
    r := Md5Step(F1(x, y, z), w, x, k, t, s);
  }

  method Step2(w: Word, x: Word, y: Word, z: Word, k: Word, t: Word, s: nat) returns (r: Word)
    requires 0 < s < 32
    ensures r == NewWord(w, x, G(x, y, z), k, t, s)
  {
    Form2(x, y, z);
    r := Md5Step(F2(x, y, z), w, x, k, t, s);
  }

  method Step3(w: Word, x: Word, y: Word, z: Word, k: Word, t: Word, s: nat) returns (r: Word)
    requires 0 < s < 32
    ensures r == NewWord(w, x, H(x, y, z), k, t, s)
  {
    r := Md5Step(F3(x, y, z), w, x, k, t, s);
  }

  method Step4(w: Word, x: Word, y: Word, z: Word, k: Word, t: Word, s: nat) returns (r: Word)
    requires 0 < s < 32
    ensures r == NewWord(w, x, I(x, y, z), k, t, s)
  {
    r := Md5Step(F4(x, y, z), w, x, k, t, s);
  }

  method Round1(x: seq<Word>, a0: Word, b0: Word, c0: Word, d0: Word)
    returns (a: Word, b: Word, c: Word, d: Word)
    requires |x| == 16
    ensures Hash(a, b, c, d) == Operations(0, 16, Hash(a0, b0, c0, d0), x)
  {
    hide NewWord, F, Md5Spec.G, H, I;
    a, b, c, d := a0, b0, c0, d0;
    ghost var h := Hash(a, b, c, d);
    a := Step1(a, b, c, d, x[0], 0xd76aa478, 7);
    assert Hash(d, a, b, c) == Operations(0, 1, h, x);
    d := Step1(d, a, b, c, x[1], 0xe8c7b756, 12);
    assert Hash(c, d, a, b) == Operations(0, 2, h, x);
    c := Step1(c, d, a, b, x[2], 0x242070db, 17);
    assert Hash(b, c, d, a) == Operations(0, 3, h, x);
    b := Step1(b, c, d, a, x[3], 0xc1bdceee, 22);
    assert Hash(a, b, c, d) == Operations(0, 4, h, x);
    a := Step1(a, b, c, d, x[4], 0xf57c0faf, 7);
    assert Hash(d, a, b, c) == Operations(0, 5, h, x);
    d := Step1(d, a, b, c, x[5], 0x4787c62a, 12);
    assert Hash(c, d, a, b) == Operations(0, 6, h, x);
    c := Step1(c, d, a, b, x[6], 0xa8304613, 17);
    assert Hash(b, c, d, a) == Operations(0, 7, h, x);
    b := Step1(b, c, d, a, x[7], 0xfd469501, 22);
    assert Hash(a, b, c, d) == Operations(0, 8, h, x);
    a := Step1(a, b, c, d, x[8], 0x698098d8, 7);
    assert Hash(d, a, b, c) == Operations(0, 9, h, x);
    d := Step1(d, a, b, c, x[9], 0x8b44f7af, 12);
    assert Hash(c, d, a, b) == Operations(0, 10, h, x);
    c := Step1(c, d, a, b, x[10], 0xffff5bb1, 17);
    assert Hash(b, c, d, a) == Operations(0, 11, h, x);
    b := Step1(b, c, d, a, x[11], 0x895cd7be, 22);
    assert Hash(a, b, c, d) == Operations(0, 12, h, x);
    a := Step1(a, b, c, d, x[12], 0x6b901122, 7);
    assert Hash(d, a, b, c) == Operations(0, 13, h, x);
    d := Step1(d, a, b, c, x[13], 0xfd987193, 12);
    assert Hash(c, d, a, b) == Operations(0, 14, h, x);
    c := Step1(c, d, a, b, x[14], 0xa679438e, 17);
    assert Hash(b, c, d, a) == Operations(0, 15, h, x);
    b := Step1(b, c, d, a, x[15], 0x49b40821, 22);
    assert Hash(a, b, c, d) == Operations(0, 16, h, x);
  }

  method Round2(x: seq<Word>, a0: Word, b0: Word, c0: Word, d0: Word)
    returns (a: Word, b: Word, c: Word, d: Word)
    requires |x| == 16
    ensures Hash(a, b, c, d) == Operations(16, 16, Hash(a0, b0, c0, d0), x)
  {
    hide NewWord, F, Md5Spec.G, H, I;
    a, b, c, d := a0, b0, c0, d0;
    ghost var h := Hash(a, b, c, d);
    a := Step2(a, b, c, d, x[1], 0xf61e2562, 5);
    assert Hash(d, a, b, c) == Operations(16, 1, h, x);
    d := Step2(d, a, b, c, x[6], 0xc040b340, 9);
    assert Hash(c, d, a, b) == Operations(16, 2, h, x);
    c := Step2(c, d, a, b, x[11], 0x265e5a51, 14);
    assert Hash(b, c, d, a) == Operations(16, 3, h, x);
    b := Step2(b, c, d, a, x[0], 0xe9b6c7aa, 20);
    assert Hash(a, b, c, d) == Operations(16, 4, h, x);
    a := Step2(a, b, c, d, x[5], 0xd62f105d, 5);
    assert Hash(d, a, b, c) == Operations(16, 5, h, x);
    d := Step2(d, a, b, c, x[10], 0x02441453, 9);
    assert Hash(c, d, a, b) == Operations(16, 6, h, x);
    c := Step2(c, d, a, b, x[15], 0xd8a1e681, 14);
    assert Hash(b, c, d, a) == Operations(16, 7, h, x);
    b := Step2(b, c, d, a, x[4], 0xe7d3fbc8, 20);
    assert Hash(a, b, c, d) == Operations(16, 8, h, x);
    a := Step2(a, b, c, d, x[9], 0x21e1cde6, 5);
    assert Hash(d, a, b, c) == Operations(16, 9, h, x);
    d := Step2(d, a, b, c, x[14], 0xc33707d6, 9);
    assert Hash(c, d, a, b) == Operations(16, 10, h, x);
    c := Step2(c, d, a, b, x[3], 0xf4d50d87, 14);
    assert Hash(b, c, d, a) == Operations(16, 11, h, x);
    b := Step2(b, c, d, a, x[8], 0x455a14ed, 20);
    assert Hash(a, b, c, d) == Operations(16, 12, h, x);
    a := Step2(a, b, c, d, x[13], 0xa9e3e905, 5);
    assert Hash(d, a, b, c) == Operations(16, 13, h, x);
    d := Step2(d, a, b, c, x[2], 0xfcefa3f8, 9);
    assert Hash(c, d, a, b) == Operations(16, 14, h, x);
    c := Step2(c, d, a, b, x[7], 0x676f02d9, 14);
    assert Hash(b, c, d, a) == Operations(16, 15, h, x);
    b := Step2(b, c, d, a, x[12], 0x8d2a4c8a, 20);
    assert Hash(a, b, c, d) == Operations(16, 16, h, x);
  }

  method Round3(x: seq<Word>, a0: Word, b0: Word, c0: Word, d0: Word)
    returns (a: Word, b: Word, c: Word, d: Word)
    requires |x| == 16
    ensures Hash(a, b, c, d) == Operations(32, 16, Hash(a0, b0, c0, d0), x)
  {
    hide NewWord, F, Md5Spec.G, H, I;
    a, b, c, d := a0, b0, c0, d0;
    ghost var h := Hash(a, b, c, d);
    a := Step3(a, b, c, d, x[5], 0xfffa3942, 4);
    assert Hash(d, a, b, c) == Operations(32, 1, h, x);
    d := Step3(d, a, b, c, x[8], 0x8771f681, 11);
    assert Hash(c, d, a, b) == Operations(32, 2, h, x);
    c := Step3(c, d, a, b, x[11], 0x6d9d6122, 16);
    assert Hash(b, c, d, a) == Operations(32, 3, h, x);
    b := Step3(b, c, d, a, x[14], 0xfde5380c, 23);
    assert Hash(a, b, c, d) == Operations(32, 4, h, x);
    a := Step3(a, b, c, d, x[1], 0xa4beea44, 4);
    assert Hash(d, a, b, c) == Operations(32, 5, h, x);
    d := Step3(d, a, b, c, x[4], 0x4bdecfa9, 11);
    assert Hash(c, d, a, b) == Operations(32, 6, h, x);
    c := Step3(c, d, a, b, x[7], 0xf6bb4b60, 16);
    assert Hash(b, c, d, a) == Operations(32, 7, h, x);
    b := Step3(b, c, d, a, x[10], 0xbebfbc70, 23);
    assert Hash(a, b, c, d) == Operations(32, 8, h, x);
    a := Step3(a, b, c, d, x[13], 0x289b7ec6, 4);
    assert Hash(d, a, b, c) == Operations(32, 9, h, x);
    d := Step3(d, a, b, c, x[0], 0xeaa127fa, 11);
    assert Hash(c, d, a, b) == Operations(32, 10, h, x);
    c := Step3(c, d, a, b, x[3], 0xd4ef3085, 16);
    assert Hash(b, c, d, a) == Operations(32, 11, h, x);
    b := Step3(b, c, d, a, x[6], 0x04881d05, 23);
    assert Hash(a, b, c, d) == Operations(32, 12, h, x);
    a := Step3(a, b, c, d, x[9], 0xd9d4d039, 4);
    assert Hash(d, a, b, c) == Operations(32, 13, h, x);
    d := Step3(d, a, b, c, x[12], 0xe6db99e5, 11);
    assert Hash(c, d, a, b) == Operations(32, 14, h, x);
    c := Step3(c, d, a, b, x[15], 0x1fa27cf8, 16);
    assert Hash(b, c, d, a) == Operations(32, 15, h, x);
    b := Step3(b, c, d, a, x[2], 0xc4ac5665, 23);
    assert Hash(a, b, c, d) == Operations(32, 16, h, x);
  }

  method Round4(x: seq<Word>, a0: Word, b0: Word, c0: Word, d0: Word)
    returns (a: Word, b: Word, c: Word, d: Word)
    requires |x| == 16
    ensures Hash(a, b, c, d) == Operations(48, 16, Hash(a0, b0, c0, d0), x)
  {
    hide NewWord, F, Md5Spec.G, H, I;
    a, b, c, d := a0, b0, c0, d0;
    ghost var h := Hash(a, b, c, d);
    a := Step4(a, b, c, d, x[0], 0xf4292244, 6);
    assert Hash(d, a, b, c) == Operations(48, 1, h, x);
    d := Step4(d, a, b, c, x[7], 0x432aff97, 10);
    assert Hash(c, d, a, b) == Operations(48, 2, h, x);
    c := Step4(c, d, a, b, x[14], 0xab9423a7, 15);
    assert Hash(b, c, d, a) == Operations(48, 3, h, x);
    b := Step4(b, c, d, a, x[5], 0xfc93a039, 21);
    assert Hash(a, b, c, d) == Operations(48, 4, h, x);
    a := Step4(a, b, c, d, x[12], 0x655b59c3, 6);
    assert Hash(d, a, b, c) == Operations(48, 5, h, x);
    d := Step4(d, a, b, c, x[3], 0x8f0ccc92, 10);
    assert Hash(c, d, a, b) == Operations(48, 6, h, x);
    c := Step4(c, d, a, b, x[10], 0xffeff47d, 15);
    assert Hash(b, c, d, a) == Operations(48, 7, h, x);
    b := Step4(b, c, d, a, x[1], 0x85845dd1, 21);
    assert Hash(a, b, c, d) == Operations(48, 8, h, x);
    a := Step4(a, b, c, d, x[8], 0x6fa87e4f, 6);
    assert Hash(d, a, b, c) == Operations(48, 9, h, x);
    d := Step4(d, a, b, c, x[15], 0xfe2ce6e0, 10);
    assert Hash(c, d, a, b) == Operations(48, 10, h, x);
    c := Step4(c, d, a, b, x[6], 0xa3014314, 15);
    assert Hash(b, c, d, a) == Operations(48, 11, h, x);
    b := Step4(b, c, d, a, x[13], 0x4e0811a1, 21);
    assert Hash(a, b, c, d) == Operations(48, 12, h, x);
    a := Step4(a, b, c, d, x[4], 0xf7537e82, 6);
    assert Hash(d, a, b, c) == Operations(48, 13, h, x);
    d := Step4(d, a, b, c, x[11], 0xbd3af235, 10);
    assert Hash(c, d, a, b) == Operations(48, 14, h, x);
    c := Step4(c, d, a, b, x[2], 0x2ad7d2bb, 15);
    assert Hash(b, c, d, a) == Operations(48, 15, h, x);
    b := Step4(b, c, d, a, x[9], 0xeb86d391, 21);
    assert Hash(a, b, c, d) == Operations(48, 16, h, x);
  }

  // ---- reading and writing words ------------------------------------------------------

  /** GET_32BIT_LSB_FIRST */
  function Get32(b: seq<byte>): Word
    requires |b| == 4
  {
    Or(Or(Or(b[0], ShiftLeft(b[1], 8)), ShiftLeft(b[2], 16)), ShiftLeft(b[3], 24))
  }

  /** PUT_32BIT_LSB_FIRST: each assignment to a byte drops the upper bits. */
  function Put32(v: Word): (b: seq<byte>)
    ensures |b| == 4
  {
    [v % 256, ShiftRight(v, 8) % 256, ShiftRight(v, 16) % 256, ShiftRight(v, 24) % 256]
  }

  lemma PutIsEncode(v: Word)
    ensures Put32(v) == ToLittle(v)
  {
    SmallPowers();
    assert v / 0x100_0000 < 256;
  }

  lemma SmallPowers()
    ensures Pow2(8) == 0x100 && Pow2(16) == 0x1_0000 && Pow2(24) == 0x100_0000
  {
    assert Pow2(8) == 0x100;
    assert Pow2(8 + 4) == 0x1000;
    assert Pow2(12 + 4) == 0x1_0000;
    assert Pow2(16 + 4) == 0x10_0000;
  }

  lemma GetIsDecode(b: seq<byte>)
    requires |b| == 4
    ensures Get32(b) == FromLittle(b)
  {
    hide Or, ShiftLeft, Pow2;
    SmallPowers();
    var b0: Word, b1: Word, b2: Word, b3: Word := b[0], b[1], b[2], b[3];
    OrAbove(b0, b1, 8, 0x100);
    OrAbove(b0 + b1 * 0x100, b2, 16, 0x1_0000);
    OrAbove(b0 + b1 * 0x100 + b2 * 0x1_0000, b3, 24, 0x100_0000);
  }

  lemma OrAbove(low: Word, high: Word, s: nat, p: nat)
    requires p == Pow2(s) && low < p && high * p < TWO_32
    ensures Or(low, ShiftLeft(high, s)) == low + high * p
  {
    hide BitOp, Pow2;
    var v: Word := high * p;
    assert ShiftLeft(high, s) == v;
    OrIsSum(high, s, low);
    Symmetric(OR, low, v);
  }

  // ---- the transform ----------------------------------------------------------------------

  lemma {:induction false} OperationsSplit(i: nat, n: nat, m: nat, h: Hash, x: seq<Word>)
    requires i + n + m <= 64 && |x| == 16
    ensures Operations(i, n + m, h, x) == Operations(i + n, m, Operations(i, n, h, x), x)
  {
    hide Operation;
    if m > 0 {
      OperationsSplit(i, n, m - 1, h, x);
    }
  }

  lemma FourRounds(h: Hash, x: seq<Word>)
    requires |x| == 16
    ensures Operations(0, 64, h, x) ==
            Operations(48, 16, Operations(32, 16, Operations(16, 16, Operations(0, 16, h, x), x), x), x)
  {
    OperationsSplit(0, 48, 16, h, x);
    OperationsSplit(0, 32, 16, h, x);
    OperationsSplit(0, 16, 16, h, x);
  }

  ghost function HashIn(buf: array<Word>): Hash
    requires buf.Length == 4
    reads buf
  {
    Hash(buf[0], buf[1], buf[2], buf[3])
  }

  /** The block as words. */
  method ReadWords(inext: array<byte>) returns (x: seq<Word>)
    requires inext.Length == 64
    ensures x == DecodeBlock(inext[..])
  {
    x := [];
    for i := 0 to 16
      invariant |x| == i
      invariant forall j | 0 <= j < i :: x[j] == DecodeBlock(inext[..])[j]
    {
      assert inext[..][4 * i..4 * i + 4] == inext[4 * i..4 * i + 4];
      GetIsDecode(inext[4 * i..4 * i + 4]);
      x := x + [Get32(inext[4 * i..4 * i + 4])];
    }
  }

  /** MD5Transform */
  method Transform(buf: array<Word>, inext: array<byte>)
    requires buf.Length == 4 && inext.Length == 64
    modifies buf
    ensures HashIn(buf) == Compress(old(HashIn(buf)), old(inext[..]))
  {
    hide Operations, Add, DecodeBlock;
    var x := ReadWords(inext);
    var a, b, c, d := Round1(x, buf[0], buf[1], buf[2], buf[3]);
    a, b, c, d := Round2(x, a, b, c, d);
    a, b, c, d := Round3(x, a, b, c, d);
    a, b, c, d := Round4(x, a, b, c, d);
    FourRounds(HashIn(buf), x);
    buf[0] := Add(buf[0], a);
    buf[1] := Add(buf[1], b);
    buf[2] := Add(buf[2], c);
    buf[3] := Add(buf[3], d);
  }
}
