/** 32-bit unsigned arithmetic of C on integers: wrap-around, shifts and bitwise operators. */
module CWords {
  import opened CBytes

  type Word = x: int | 0 <= x < 0x1_0000_0000

  function Pow2(n: nat): (p: nat)
    ensures p > 0
  {
    if n == 0 then 1 else 2 * Pow2(n - 1)
  }

  lemma Pow2Of32()
    ensures Pow2(32) == 0x1_0000_0000
  {
    assert Pow2(10) == 0x400;
    assert Pow2(20) == 0x10_0000;
    assert Pow2(30) == 0x4000_0000;
  }

  // ---- bitwise operators, bit by bit -------------------------------------------------

  datatype BitOperator = AND | OR | XOR

  /** The operator on two bits. */
  function Bit(op: BitOperator, a: nat, b: nat): (c: nat)
    ensures c <= 1
  {
    match op
    case AND => if a == 1 && b == 1 then 1 else 0
    case OR => if a == 1 || b == 1 then 1 else 0
    case XOR => if a != b then 1 else 0
  }

  /** The operator on the binary digits of two numbers. */
  function BitOp(op: BitOperator, x: nat, y: nat): nat
    decreases x + y
  {
    if x == 0 && y == 0 then 0 else 2 * BitOp(op, x / 2, y / 2) + Bit(op, x % 2, y % 2)
  }

  lemma BitOpUnfold(op: BitOperator, x: nat, y: nat)
    ensures BitOp(op, x, y) == 2 * BitOp(op, x / 2, y / 2) + Bit(op, x % 2, y % 2)
  {
  }

  lemma {:induction false} BitOpBound(op: BitOperator, x: nat, y: nat, n: nat)
    requires x < Pow2(n) && y < Pow2(n)
    ensures BitOp(op, x, y) < Pow2(n)
  {
    if n > 0 {
      BitOpBound(op, x / 2, y / 2, n - 1);
      BitOpUnfold(op, x, y);
    }
  }

  function And(x: Word, y: Word): Word {
    Pow2Of32();
    BitOpBound(AND, x, y, 32);
    BitOp(AND, x, y)
  }

  function Or(x: Word, y: Word): Word {
    Pow2Of32();
    BitOpBound(OR, x, y, 32);
    BitOp(OR, x, y)
  }

  function Xor(x: Word, y: Word): Word {
    Pow2Of32();
    BitOpBound(XOR, x, y, 32);
    BitOp(XOR, x, y)
  }

  function Not(x: Word): Word {
    0xFFFF_FFFF - x
  }

  /** Selecting z or y by the bits of x, with one operator less than the plain form. */
  lemma {:induction false} SelectBits(n: nat, x: nat, y: nat, z: nat)
    requires x < Pow2(n) && y < Pow2(n) && z < Pow2(n)
    ensures BitOp(XOR, z, BitOp(AND, x, BitOp(XOR, y, z)))
         == BitOp(OR, BitOp(AND, x, y), BitOp(AND, Pow2(n) - 1 - x, z))
  {
    hide BitOp, Pow2;
    if n == 0 {
      NoBits(XOR);
      NoBits(AND);
      NoBits(OR);
    } else {
      var x', y', z', a, b, c := x / 2, y / 2, z / 2, x % 2, y % 2, z % 2;
      Pow2Step(n - 1);
      var p := Pow2(n - 1);
      SelectBits(n - 1, x', y', z');
      SelectDigit(x', y', z', p - 1 - x', a, b, c);
      assert x == 2 * x' + a && y == 2 * y' + b && z == 2 * z' + c;
      assert 2 * p - 1 - x == 2 * (p - 1 - x') + (1 - a);
    }
  }

  lemma NoBits(op: BitOperator)
    ensures Pow2(0) == 1 && BitOp(op, 0, 0) == 0
  {
  }

  lemma Pow2Step(n: nat)
    ensures Pow2(n + 1) == 2 * Pow2(n)
  {
  }

  lemma SelectDigit(x: nat, y: nat, z: nat, nx: nat, a: nat, b: nat, c: nat)
    requires a <= 1 && b <= 1 && c <= 1
    requires BitOp(XOR, z, BitOp(AND, x, BitOp(XOR, y, z))) == BitOp(OR, BitOp(AND, x, y), BitOp(AND, nx, z))
    ensures BitOp(XOR, 2 * z + c, BitOp(AND, 2 * x + a, BitOp(XOR, 2 * y + b, 2 * z + c)))
         == BitOp(OR, BitOp(AND, 2 * x + a, 2 * y + b), BitOp(AND, 2 * nx + (1 - a), 2 * z + c))
  {
    ShortForm(x, y, z, a, b, c);
    PlainForm(x, y, z, nx, a, b, c);
    assert Bit(XOR, c, Bit(AND, a, Bit(XOR, b, c))) == Bit(OR, Bit(AND, a, b), Bit(AND, 1 - a, c));
  }

  lemma ShortForm(x: nat, y: nat, z: nat, a: nat, b: nat, c: nat)
    requires a <= 1 && b <= 1 && c <= 1
    ensures BitOp(XOR, 2 * z + c, BitOp(AND, 2 * x + a, BitOp(XOR, 2 * y + b, 2 * z + c)))
         == 2 * BitOp(XOR, z, BitOp(AND, x, BitOp(XOR, y, z))) + Bit(XOR, c, Bit(AND, a, Bit(XOR, b, c)))
  {
    var w, v := BitOp(XOR, y, z), BitOp(AND, x, BitOp(XOR, y, z));
    Digits(XOR, y, b, z, c);
    Digits(AND, x, a, w, Bit(XOR, b, c));
    Digits(XOR, z, c, v, Bit(AND, a, Bit(XOR, b, c)));
  }

  lemma PlainForm(x: nat, y: nat, z: nat, nx: nat, a: nat, b: nat, c: nat)
    requires a <= 1 && b <= 1 && c <= 1
    ensures BitOp(OR, BitOp(AND, 2 * x + a, 2 * y + b), BitOp(AND, 2 * nx + (1 - a), 2 * z + c))
         == 2 * BitOp(OR, BitOp(AND, x, y), BitOp(AND, nx, z)) + Bit(OR, Bit(AND, a, b), Bit(AND, 1 - a, c))
  {
    Digits(AND, x, a, y, b);
    Digits(AND, nx, 1 - a, z, c);
    Digits(OR, BitOp(AND, x, y), Bit(AND, a, b), BitOp(AND, nx, z), Bit(AND, 1 - a, c));
  }

  lemma Digits(op: BitOperator, x: nat, a: nat, y: nat, b: nat)
    requires a <= 1 && b <= 1
    ensures BitOp(op, 2 * x + a, 2 * y + b) == 2 * BitOp(op, x, y) + Bit(op, a, b)
  {
    BitOpUnfold(op, 2 * x + a, 2 * y + b);
  }

  lemma {:induction false} Symmetric(op: BitOperator, x: nat, y: nat)
    ensures BitOp(op, x, y) == BitOp(op, y, x)
    decreases x + y
  {
    if x != 0 || y != 0 {
      Symmetric(op, x / 2, y / 2);
    }
  }

  // ---- addition and shifts ----------------------------------------------------------------

  function Add(x: Word, y: Word): Word {
    (x + y) % TWO_32
  }

  lemma AddAssociates(x: Word, y: Word, z: Word)
    ensures Add(Add(x, y), z) == Add(x, Add(y, z))
  {
    hide Add;
    Wraps(x, y);
    Wraps(y, z);
    Wraps(Add(x, y), z);
    Wraps(x, Add(y, z));
  }

  lemma Wraps(x: Word, y: Word)
    ensures Add(x, y) == if x + y < TWO_32 then x + y else x + y - TWO_32
  {
  }

  function ShiftLeft(x: Word, s: nat): Word {
    x * Pow2(s) % TWO_32
  }

  function ShiftRight(x: Word, s: nat): Word {
    QuotientBound(x, Pow2(s));
    x / Pow2(s)
  }

  lemma QuotientBound(x: nat, d: nat)
    requires d > 0
    ensures 0 <= x / d <= x
  {
    Bounded(x, d, x / d, x % d);
  }

  lemma Bounded(x: nat, d: nat, q: int, r: nat)
    requires x == q * d + r && r < d
    ensures 0 <= q <= x
  {
    assert q >= 0 ==> q * d >= q;
  }

  lemma {:induction false} Pow2Add(m: nat, n: nat)
    ensures Pow2(m + n) == Pow2(m) * Pow2(n)
  {
    hide Pow2;
    if m == 0 {
      NoBits(AND);
    } else {
      Pow2Add(m - 1, n);
      Pow2Step(m - 1 + n);
      Pow2Step(m - 1);
      Regroup(2, Pow2(m - 1), Pow2(n));
    }
  }

  lemma Distribute(a: int, b: int, c: int)
    ensures (a + b) * c == a * c + b * c
  {
  }

  lemma Regroup(a: int, b: int, c: int)
    ensures (a * b) * c == a * (b * c)
  {
  }

  lemma AtLeastOnce(k: int, d: nat)
    requires k >= 1
    ensures k * d >= d
  {
  }

  /** A quotient and remainder are determined by their sum. */
  lemma DivisionIs(x: nat, d: nat, q: nat, r: nat)
    requires x == q * d + r && r < d
    ensures x / d == q && x % d == r
  {
    SameQuotient(d, x / d, x % d, q, r);
    SameQuotient(d, q, r, x / d, x % d);
  }

  lemma SameQuotient(d: nat, q: int, r: nat, q': int, r': nat)
    requires q * d + r == q' * d + r' && r < d && r' < d
    ensures q <= q'
  {
    if q > q' {
      Distribute(q', q - q', d);
      AtLeastOnce(q - q', d);
    }
  }

  // ---- rotation -------------------------------------------------------------------------------

  /** x <<< s: the word rotated to the left by `s` bits, one at a time. */
  function RotateLeft(x: Word, s: nat): Word {
    if s == 0 then x else RotateOne(RotateLeft(x, s - 1))
  }

  function RotateOne(x: Word): Word {
    if x < 0x8000_0000 then 2 * x else 2 * (x - 0x8000_0000) + 1
  }

  /** Or puts together two numbers that share no digit. */
  lemma {:induction false} OrIsSum(l: nat, s: nat, h: nat)
    requires h < Pow2(s)
    ensures BitOp(OR, l * Pow2(s), h) == l * Pow2(s) + h
    decreases s
  {
    if s == 0 {
      OrZero(l);
    } else {
      var m := l * Pow2(s - 1);
      Regroup(l, 2, Pow2(s - 1));
      Regroup(2, l, Pow2(s - 1));
      OrIsSum(l, s - 1, h / 2);
      OrDigit(m, h);
    }
  }

  lemma OrDigit(m: nat, h: nat)
    requires BitOp(OR, m, h / 2) == m + h / 2
    ensures BitOp(OR, 2 * m, h) == 2 * m + h
  {
    Digits(OR, m, 0, h / 2, h % 2);
  }

  lemma {:induction false} OrZero(l: nat)
    ensures BitOp(OR, l, 0) == l
  {
    if l != 0 {
      OrZero(l / 2);
      BitOpUnfold(OR, l, 0);
    }
  }

  /** After `s` one-bit rotations the upper s bits have become the lower ones. */
  lemma {:induction false} RotateSwaps(x: Word, s: nat, hi: nat, lo: nat)
    requires s <= 32 && x == hi * Pow2(32 - s) + lo && lo < Pow2(32 - s) && hi < Pow2(s)
    ensures RotateLeft(x, s) == lo * Pow2(s) + hi
    decreases s
  {
    if s > 0 {
      var p, q := Pow2(32 - s), Pow2(s - 1);
      assert Pow2(32 - (s - 1)) == 2 * p;
      var b, hi' := hi % 2, hi / 2;
      SplitTop(hi, lo, p);
      RotateSwaps(x, s - 1, hi', b * p + lo);
      Pow2Add(32 - s, s - 1);
      Pow2Of31();
      OneMore(RotateLeft(x, s - 1), p, q, b, hi', lo);
    }
  }

  lemma SplitTop(hi: nat, lo: nat, p: nat)
    requires lo < p
    ensures hi * p + lo == (hi / 2) * (2 * p) + (hi % 2 * p + lo)
    ensures hi % 2 * p + lo < 2 * p
  {
    Distribute(2 * (hi / 2), hi % 2, p);
    Regroup(hi / 2, 2, p);
  }

  lemma OneMore(r: Word, p: nat, q: nat, b: nat, hi: nat, lo: nat)
    requires p * q == 0x8000_0000 && b <= 1 && lo < p && hi < q
    requires r == (b * p + lo) * q + hi
    ensures RotateOne(r) == lo * (2 * q) + (2 * hi + b)
  {
    Distribute(b * p, lo, q);
    Regroup(b, p, q);
    BelowProduct(lo, p, q);
    assert lo * (2 * q) == 2 * (lo * q);
  }

  lemma BelowProduct(lo: nat, p: nat, q: nat)
    requires lo < p
    ensures lo * q + q <= p * q
  {
    Distribute(lo, p - lo, q);
    AtLeastOnce(p - lo, q);
  }

  lemma Pow2Of31()
    ensures Pow2(31) == 0x8000_0000
  {
    Pow2Of32();
    assert Pow2(31 + 1) == 2 * Pow2(31);
  }

  /** The C idiom for a rotation. */
  lemma RotateByShifts(x: Word, s: nat)
    requires 0 < s < 32
    ensures Or(ShiftLeft(x, s), ShiftRight(x, 32 - s)) == RotateLeft(x, s)
  {
    var p := Pow2(32 - s);
    var hi, lo := x / p, x % p;
    PowersOfWord(s);
    Quotients(x, p);
    Halves(x, p, Pow2(s), hi, lo);
    PutTogether(x, s, hi, lo);
  }

  lemma PowersOfWord(s: nat)
    requires s <= 32
    ensures Pow2(32 - s) * Pow2(s) == TWO_32
  {
    Pow2Add(32 - s, s);
    Pow2Of32();
  }

  lemma Quotients(x: nat, p: nat)
    requires p > 0
    ensures x == (x / p) * p + x % p && 0 <= x % p < p && 0 <= x / p
  {
    QuotientBound(x, p);
  }

  lemma PutTogether(x: Word, s: nat, hi: nat, lo: nat)
    requires 0 < s < 32 && x == hi * Pow2(32 - s) + lo && lo < Pow2(32 - s) && hi < Pow2(s)
    requires ShiftLeft(x, s) == lo * Pow2(s) && ShiftRight(x, 32 - s) == hi
    ensures Or(ShiftLeft(x, s), ShiftRight(x, 32 - s)) == RotateLeft(x, s)
  {
    RotateSwaps(x, s, hi, lo);
    OrIsSum(lo, s, hi);
  }

  lemma Halves(x: Word, p: nat, q: nat, hi: nat, lo: nat)
    requires p > 0 && p * q == TWO_32 && x == hi * p + lo && lo < p
    ensures hi < q && x * q % TWO_32 == lo * q
  {
    if hi >= q {
      Distribute(q, hi - q, p);
    }
    BelowProduct(lo, p, q);
    Distribute(hi * p, lo, q);
    Regroup(hi, p, q);
    DivisionIs(x * q, TWO_32, hi, lo * q);
  }
}
