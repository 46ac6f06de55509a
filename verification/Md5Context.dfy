/** The streaming interface of md5.c: MD5Init, MD5Update and MD5Final. */
module Md5Context {
  import opened CBytes
  import opened CWords
  import opened Md5Spec
  import opened Md5Transform

  // ---- the bit counter --------------------------------------------------------------

  /** The two counter words after `n` bytes: 8n modulo 2^64. */
  function LowCount(n: nat): Word { 8 * n % TWO_32 }

  function HighCount(n: nat): Word { 8 * n / TWO_32 % TWO_32 }

  /** The low word is added first; it overflowed exactly when the sum is below an operand. */
  lemma CountAdds(n: nat, len: Word)
    ensures var t := LowCount(n);
            var low := Add(t, 8 * len % TWO_32);
            var carry := if low < t then 1 else 0;
            && low == LowCount(n + len)
            && Add(Add(HighCount(n), carry), len / 0x2000_0000) == HighCount(n + len)
  {
    var t := LowCount(n);
    var q := 8 * n / TWO_32;
    var l8 := 8 * len % TWO_32;
    var lq := len / 0x2000_0000;
    assert 8 * len == lq * TWO_32 + l8;
    assert 8 * n == q * TWO_32 + t;
    var c := if t + l8 >= TWO_32 then 1 else 0;
    assert 8 * (n + len) == (q + lq + c) * TWO_32 + (t + l8 - c * TWO_32);
    CountParts(8 * (n + len), q + lq + c, t + l8 - c * TWO_32);
    WrapTwice(q, c, lq);
  }

  lemma CountParts(x: nat, q: nat, r: nat)
    requires x == q * TWO_32 + r && r < TWO_32
    ensures x / TWO_32 == q && x % TWO_32 == r
  {
  }

  lemma WrapTwice(q: nat, c: Word, lq: Word)
    ensures Add(Add(q % TWO_32, c), lq) == (q + lq + c) % TWO_32
  {
  }

  /** The counter's low word tells how much of a block is pending. */
  lemma Pending(n: nat)
    ensures LowCount(n) / 8 % 64 == n % 64
  {
    var q := 8 * n / TWO_32;
    assert 8 * n == q * TWO_32 + LowCount(n);
    assert LowCount(n) == 8 * (n - q * 0x2000_0000);
    assert n == (n - q * 0x2000_0000) + 64 * (q * 0x80_0000);
    Mod64(n - q * 0x2000_0000, q * 0x80_0000);
  }

  lemma Mod64(x: nat, k: nat)
    ensures (x + 64 * k) % 64 == x % 64
  {
  }

  lemma BlocksSnoc(m: seq<byte>, block: seq<byte>)
    requires |m| % 64 == 0 && |block| == 64
    ensures |m + block| % 64 == 0
    ensures Blocks(m + block) == Compress(Blocks(m), block)
  {
    assert (m + block)[..|m|] == m;
    assert (m + block)[|m|..] == block;
  }

  /** The length of the complete blocks among `n` bytes. */
  function Whole(n: nat): (w: nat)
    ensures w <= n < w + 64 && w % 64 == 0 && n - w == n % 64
  {
    var q := n / 64;
    assert n == 64 * q + n % 64;
    Mod64(0, q);
    64 * q
  }

  lemma WholeIs(n: nat, w: nat)
    requires w <= n < w + 64 && w % 64 == 0
    ensures Whole(n) == w
  {
  }

  /** The hash state after the first `done` bytes of `m`, a multiple of 64. */
  ghost predicate Chained(h: Hash, m: seq<byte>, done: nat) {
    done <= |m| && done % 64 == 0 && h == Blocks(m[..done])
  }

  lemma ChainOne(h: Hash, m: seq<byte>, done: nat, block: seq<byte>)
    requires Chained(h, m, done) && done + 64 <= |m| && block == m[done..done + 64]
    ensures Chained(Compress(h, block), m, done + 64)
  {
    BlocksSnoc(m[..done], block);
    assert m[..done] + block == m[..done + 64];
  }

  lemma ChainExtends(h: Hash, m: seq<byte>, done: nat, data: seq<byte>)
    requires Chained(h, m, done)
    ensures Chained(h, m + data, done)
  {
    assert (m + data)[..done] == m[..done];
  }

  class MD5Context {
    const buf: array<Word>
    const bits: array<Word>
    const inn: array<byte>
    /** All bytes given to MD5Update since MD5Init. */
    ghost var message: seq<byte>

    ghost predicate Sized() {
      && buf.Length == 4 && bits.Length == 2 && inn.Length == 64
      && buf != bits && inn as object != buf && inn as object != bits
    }

    /** The bytes from `done` on, fewer than a block, wait at the head of `in`. */
    ghost predicate Holds(m: seq<byte>, done: nat)
      requires Sized()
      reads buf, inn
    {
      && Chained(HashIn(buf), m, done)
      && |m| - done < 64
      && inn[..|m| - done] == m[done..]
    }

    ghost predicate Counts(n: nat)
      requires Sized()
      reads bits
    {
      bits[0] == LowCount(n) && bits[1] == HighCount(n)
    }

    ghost predicate Valid()
      reads this, buf, bits, inn
    {
      Sized() && Counts(|message|) && Holds(message, Whole(|message|))
    }

    /** MD5Init */
    constructor ()
      ensures Valid() && message == [] && fresh(buf) && fresh(bits) && fresh(inn)
    {
      buf := new Word[4] [0x67452301, 0xefcdab89, 0x98badcfe, 0x10325476];
      bits := new Word[2] [0, 0];
      inn := new byte[64](_ => 0);
      message := [];
    }

    /** memcpy into the block buffer */
    method CopyIn(at: nat, src: seq<byte>)
      requires Sized() && at + |src| <= 64
      modifies inn
      ensures inn[..] == old(inn[..at]) + src + old(inn[at + |src|..])
    {
      for k := 0 to |src|
        invariant forall j | 0 <= j < k :: inn[at + j] == src[j]
        invariant forall j | 0 <= j < 64 && !(at <= j < at + k) :: inn[j] == old(inn[j])
      {
        inn[at + k] := src[k];
      }
    }

    /** The first lines of MD5Update. */
    method Count(len: Word, ghost n: nat)
      requires Sized() && Counts(n)
      modifies bits
      ensures Counts(n + len)
    {
      hide LowCount, HighCount;
      CountAdds(n, len);
      var t := bits[0];
      bits[0] := Add(t, 8 * len % TWO_32);
      if bits[0] < t {
        bits[1] := Add(bits[1], 1);
      }
      bits[1] := Add(bits[1], len / 0x2000_0000);
    }

    /** Completes the block in `in` and compresses it. */
    method FillBlock(at: nat, src: seq<byte>, ghost m: seq<byte>, ghost done: nat)
      requires Sized() && Chained(HashIn(buf), m, done) && done + 64 <= |m|
      requires at + |src| == 64
      requires inn[..at] == m[done..done + at] && src == m[done + at..done + 64]
      modifies buf, inn
      ensures Chained(HashIn(buf), m, done + 64)
    {
      CopyIn(at, src);
      assert inn[..] == m[done..done + 64];
      Block(m, done);
    }

    /** Compresses the block in `in`. */
    method Block(ghost m: seq<byte>, ghost done: nat)
      requires Sized() && Chained(HashIn(buf), m, done) && done + 64 <= |m|
      requires inn[..] == m[done..done + 64]
      modifies buf
      ensures Chained(HashIn(buf), m, done + 64)
    {
      hide Blocks, Compress;
      ChainOne(HashIn(buf), m, done, inn[..]);
      Transform(buf, inn);
    }

    /** The last memcpy: what does not fill a block stays in `in`. */
    method Keep(at: nat, src: seq<byte>, ghost m: seq<byte>, ghost done: nat)
      requires Sized() && Chained(HashIn(buf), m, done)
      requires at + |src| < 64 && |m| == done + at + |src|
      requires inn[..at] == m[done..done + at] && src == m[done + at..]
      modifies inn
      ensures Holds(m, Whole(|m|))
    {
      CopyIn(at, src);
      WholeIs(|m|, done);
      assert inn[..at + |src|] == m[done..];
    }

    /** MD5Update: `len` is an unsigned int, so a chunk has less than 2^32 bytes. */
    method Update(data: seq<byte>)
      requires Valid() && |data| < TWO_32
      modifies this, buf, bits, inn
      ensures Valid() && message == old(message) + data
    {
      hide Blocks;
      Pending(|message|);
      var t := bits[0] / 8 % 64;
      Count(|data|, |message|);
      Absorb(data, t, message);
      message := message + data;
    }

    /** The copying part of MD5Update, with `t` bytes pending. */
    method Absorb(data: seq<byte>, t: nat, ghost m: seq<byte>)
      requires Sized() && t == |m| % 64 && Holds(m, Whole(|m|))
      modifies buf, inn
      ensures Holds(m + data, Whole(|m + data|))
    {
      hide Blocks;
      ghost var all := m + data;
      ghost var done := Whole(|m|);
      ChainExtends(HashIn(buf), m, done, data);
      assert all[done..|m|] == m[done..];
      assert all[|m|..] == data;
      var pos := 0;
      if t != 0 {
        if |data| < 64 - t {
          Keep(t, data, all, done);
          return;
        }
        Tail(m, data, 0, 64 - t);
        FillBlock(t, data[..64 - t], all, done);
        done := done + 64;
        pos := 64 - t;
      }
      while |data| - pos >= 64
        invariant pos <= |data| && done == |m| + pos
        invariant Chained(HashIn(buf), all, done)
      {
        Tail(m, data, pos, pos + 64);
        FillBlock(0, data[pos..pos + 64], all, done);
        done := done + 64;
        pos := pos + 64;
      }
      Tail(m, data, pos, |data|);
      Keep(0, data[pos..], all, done);
    }

    /** PUT_32BIT_LSB_FIRST of both counter words behind the padding. */
    method PutLength(ghost n: nat)
      requires Sized() && Counts(n)
      modifies inn
      ensures inn[..] == old(inn[..56]) + LengthBytes(n)
      ensures FromLittle(inn[56..60]) + TWO_32 * FromLittle(inn[60..64]) == 8 * n % (TWO_32 * TWO_32)
    {
      LengthField(n);
      hide ToLittle;
      PutIsEncode(bits[0]);
      PutIsEncode(bits[1]);
      CopyIn(56, Put32(bits[0]));
      CopyIn(60, Put32(bits[1]));
    }

    /** MD5Final; the context is not used afterwards. */
    method Final() returns (digest: seq<byte>)
      requires Valid()
      modifies buf, inn
      ensures digest == MD5(message)
    {
      PadOut();
      PutIsEncode(buf[0]);
      PutIsEncode(buf[1]);
      PutIsEncode(buf[2]);
      PutIsEncode(buf[3]);
      digest := Put32(buf[0]) + Put32(buf[1]) + Put32(buf[2]) + Put32(buf[3]);
    }

    /** The padding of MD5Final and the last one or two blocks. */
    method PadOut()
      requires Valid()
      modifies buf, inn
      ensures HashIn(buf) == Blocks(Pad(message))
    {
      hide Blocks, LengthBytes, ToLittle, LowCount, Pad, PadLength;
      ghost var m, n, done := message, |message|, Whole(|message|);
      ghost var p := Pad(m);
      PadShape(m);
      Pending(n);
      var count := bits[0] / 8 % 64;
      ChainExtends(HashIn(buf), m, done, [0x80] + Zeros(PadLength(n)) + LengthBytes(n));
      CopyIn(count, [0x80]);
      var at := count + 1;
      count := 64 - 1 - count;
      if count < 8 {
        CopyIn(at, Zeros(count));
        Block(p, done);
        done := done + 64;
        CopyIn(0, Zeros(56));
      } else {
        CopyIn(at, Zeros(count - 8));
      }
      PutLength(n);
      Block(p, done);
      assert p[..done + 64] == p;
    }
  }

  /** The padded message ends in one block or in two, depending on the room after the message. */
  lemma PadShape(m: seq<byte>)
    ensures var p, done, r := Pad(m), Whole(|m|), |m| % 64;
            && p == m + ([0x80] + Zeros(PadLength(|m|)) + LengthBytes(|m|))
            && (r < 56 ==> |p| == done + 64 && p[done..] == m[done..] + [0x80] + Zeros(55 - r) + LengthBytes(|m|))
            && (r >= 56 ==> |p| == done + 128 && p[done + 64..] == Zeros(56) + LengthBytes(|m|))
            && (r >= 56 ==> p[done..done + 64] == m[done..] + [0x80] + Zeros(63 - r))
  {
    hide LengthBytes;
    if |m| % 64 < 56 {
      ShortPad(m, LengthBytes(|m|));
    } else {
      LongPad(m, LengthBytes(|m|));
    }
  }

  lemma ShortPad(m: seq<byte>, t: seq<byte>)
    requires |m| % 64 < 56 && |t| == 8
    ensures var done, k := Whole(|m|), PadLength(|m|);
      k == 55 - |m| % 64 && |m| + 1 + k + 8 == done + 64
      && (m + [0x80] + Zeros(k) + t)[done..] == m[done..] + [0x80] + Zeros(k) + t
  {
  }

  lemma LongPad(m: seq<byte>, t: seq<byte>)
    requires |m| % 64 >= 56 && |t| == 8
    ensures var done, r, p := Whole(|m|), |m| % 64, m + [0x80] + Zeros(PadLength(|m|)) + t;
      && |p| == done + 128 && p[done + 64..] == Zeros(56) + t
      && p[done..done + 64] == m[done..] + [0x80] + Zeros(63 - r)
  {
    var r := |m| % 64;
    assert Zeros(PadLength(|m|)) == Zeros(63 - r) + Zeros(56);
    CutBlock(m, Whole(|m|), [0x80] + Zeros(63 - r), Zeros(56) + t);
    assert m + [0x80] + Zeros(PadLength(|m|)) + t == m + ([0x80] + Zeros(63 - r)) + (Zeros(56) + t);
  }

  lemma CutBlock(a: seq<byte>, done: nat, b: seq<byte>, c: seq<byte>)
    requires done <= |a| && |a| + |b| == done + 64
    ensures (a + b + c)[done..done + 64] == a[done..] + b
    ensures (a + b + c)[done + 64..] == c
  {
  }

  lemma Tail(m: seq<byte>, data: seq<byte>, i: nat, j: nat)
    requires i <= j <= |data|
    ensures (m + data)[|m| + i..|m| + j] == data[i..j]
    ensures j == |data| ==> (m + data)[|m| + i..] == data[i..]
  {
  }

  function Concat(chunks: seq<seq<byte>>): seq<byte> {
    if chunks == [] then [] else Concat(chunks[..|chunks| - 1]) + chunks[|chunks| - 1]
  }

  /** However a message is cut into chunks, the digest is that of the whole. */
  method DigestOfChunks(chunks: seq<seq<byte>>) returns (digest: seq<byte>)
    requires forall i | 0 <= i < |chunks| :: |chunks[i]| < TWO_32
    ensures digest == MD5(Concat(chunks))
  {
    var ctx := new MD5Context();
    for i := 0 to |chunks|
      invariant ctx.Valid() && fresh(ctx) && fresh(ctx.buf) && fresh(ctx.bits) && fresh(ctx.inn)
      invariant ctx.message == Concat(chunks[..i])
    {
      ctx.Update(chunks[i]);
      assert chunks[..i + 1][..i] == chunks[..i];
    }
    assert chunks[..|chunks|] == chunks;
    digest := ctx.Final();
  }
}
