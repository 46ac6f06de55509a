/** Bytes, C strings and byte-order helpers shared by the models of the C sources. */
module CBytes {

  type byte = x: int | 0 <= x < 256

  const NEWLINE: byte := 10
  const TWO_32: nat := 0x1_0000_0000

  /** Position of the first occurrence of `c` in `s`, or |s| when there is none. */
  function FirstIndex(s: seq<byte>, c: byte): (n: nat)
    ensures n <= |s|
    ensures c !in s[..n]
    ensures n < |s| ==> s[n] == c
  {
    if s == [] || s[0] == c then 0 else
      var n := 1 + FirstIndex(s[1..], c);
      assert s[..n] == [s[0]] + s[1..][..n - 1];
      n
  }

  /** The C string stored at the head of `s`: the bytes before the first NUL. */
  function CStr(s: seq<byte>): seq<byte> {
    s[..FirstIndex(s, 0)]
  }

  function Zeros(n: nat): (z: seq<byte>)
    ensures |z| == n
    ensures forall k | 0 <= k < n :: z[k] == 0
  {
    seq(n, _ => 0)
  }

  /** Four bytes in memory, the low-order one first, as a 32-bit number. */
  function FromLittle(b: seq<byte>): (v: nat)
    requires |b| == 4
    ensures v < TWO_32
  {
    (b[0] as int) + 0x100 * (b[1] as int) + 0x1_0000 * (b[2] as int) + 0x100_0000 * (b[3] as int)
  }

  function ToLittle(v: nat): (b: seq<byte>)
    requires v < TWO_32
    ensures |b| == 4
  {
    [v % 0x100, v / 0x100 % 0x100, v / 0x1_0000 % 0x100, v / 0x100_0000]
  }

  lemma LittleRoundTrip(v: nat)
    requires v < TWO_32
    ensures FromLittle(ToLittle(v)) == v
  {
    var w := v / 0x100;
    var u := w / 0x100;
    assert v / 0x1_0000 == u && v / 0x100_0000 == u / 0x100;
  }

  lemma ConcatAssociates(a: seq<byte>, b: seq<byte>, c: seq<byte>)
    ensures a + b + c == a + (b + c)
  {
  }

  lemma {:induction false} FirstIndexIs(s: seq<byte>, c: byte, n: nat)
    requires n <= |s| && (forall k | 0 <= k < n :: s[k] != c) && (n < |s| ==> s[n] == c)
    ensures FirstIndex(s, c) == n
  {
    if n > 0 {
      FirstIndexIs(s[1..], c, n - 1);
    }
  }

  /** A NUL terminates the string and hides whatever follows it. */
  lemma CStrOfTerminated(s: seq<byte>, tail: seq<byte>)
    requires 0 !in s
    ensures CStr(s + [0] + tail) == s
  {
    var w := s + [0] + tail;
    FirstIndexIs(w, 0, |s|);
    assert w[..|s|] == s;
  }
}
