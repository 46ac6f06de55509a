/** The wire between the BBS library and the gateway: packets, partial reads and the receive loop. */
module BbsFraming {
  import opened CBytes
  import opened Options

  const MOBILENUMBERLENGTH: nat := 16
  const SMS_BBS_ID_LEN: nat := 13
  const SMS_VALID_LEN: nat := 6
  const HEADER_SIZE: nat := 13
  const BUFFER_SIZE: nat := 1000

  const LOGIN: byte := 1
  const LOGOUT: byte := 2
  const REG: byte := 3
  const CHECK: byte := 4
  const UNREG: byte := 5
  const REQUEST: byte := 6
  const REQUESTREPLY: byte := 7
  const BBSSEND: byte := 8
  const LINK: byte := 20
  const OK: byte := 101
  const ERR: byte := 102
  const LENGTH_ERR: byte := 106

  // ---- integers and fields on the wire -----------------------------------------------------

  /** sms_longToByte: the low 32 bits, most significant byte first. */
  function ToBytes(v: nat): (b: seq<byte>)
    ensures |b| == 4
  {
    [v / 0x100_0000 % 0x100, v / 0x1_0000 % 0x100, v / 0x100 % 0x100, v % 0x100]
  }

  /** sms_byteToLong */
  function ToLong(b: seq<byte>): (v: nat)
    requires |b| == 4
    ensures v < TWO_32
  {
    0x100_0000 * (b[0] as int) + 0x1_0000 * (b[1] as int) + 0x100 * (b[2] as int) + b[3] as int
  }

  lemma LongRoundTrip(v: nat)
    ensures ToLong(ToBytes(v)) == v % TWO_32
  {
    var a := v / 0x100;
    var b := a / 0x100;
    var c := b / 0x100;
    assert v / 0x1_0000 == b && v / 0x100_0000 == c;
    assert v == TWO_32 * (c / 0x100) + ToLong(ToBytes(v));
  }

  lemma BytesRoundTrip(b: seq<byte>)
    requires |b| == 4
    ensures ToBytes(ToLong(b)) == b
  {
    var v := ToLong(b);
    assert v / 0x100 == 0x1_0000 * (b[0] as int) + 0x100 * (b[1] as int) + b[2] as int;
    assert v / 0x1_0000 == 0x100 * (b[0] as int) + b[1] as int;
    assert v / 0x100_0000 == b[0] as int;
  }

  /** Network byte order: the first byte counts most. */
  lemma NetworkOrder(b: seq<byte>)
    requires |b| == 4
    ensures ToLong(b) == ((b[0] as int * 256 + b[1] as int) * 256 + b[2] as int) * 256 + b[3] as int
    ensures ToBytes(0x0102_0304) == [1, 2, 3, 4]
  {
  }

  /** The first n bytes of a C string. */
  function Cut(s: seq<byte>, n: nat): (c: seq<byte>)
    ensures |c| <= n && |c| <= |s|
  {
    if |s| <= n then s else s[..n]
  }

  /** A member of n + 1 chars after strncpy of at most n and a final NUL. */
  function Field(s: seq<byte>, n: nat): (f: seq<byte>)
    ensures |f| == n + 1
    ensures forall k | 0 <= k <= n :: f[k] == if k < n && k < |s| then s[k] else 0
  {
    Cut(s, n) + Zeros(n + 1 - |Cut(s, n)|)
  }

  lemma FieldIsRead(s: seq<byte>, n: nat)
    requires 0 !in s
    ensures CStr(Field(s, n)) == Cut(s, n) == if |s| <= n then s else s[..n]
  {
    var z := Zeros(n + 1 - |Cut(s, n)|);
    assert z == [0] + z[1..];
    assert Field(s, n) == Cut(s, n) + [0] + z[1..];
    CStrOfTerminated(Cut(s, n), z[1..]);
  }

  // ---- packets ---------------------------------------------------------------------------------

  /** The packets of the library, and the header-only ones (logout, link test, acknowledgements).
      `junk` is what the stack held in a member the library does not fill. */
  datatype Packet =
    | Register(serial: nat, pid: nat, mobile: seq<byte>, id: seq<byte>)
    | Validate(serial: nat, pid: nat, mobile: seq<byte>, id: seq<byte>, code: seq<byte>)
    | Unregister(serial: nat, pid: nat, mobile: seq<byte>, id: seq<byte>)
    | BbsSend(serial: nat, pid: nat, user: nat, id: seq<byte>, source: seq<byte>, target: seq<byte>, content: seq<byte>)
    | Reply(serial: nat, pid: nat, isSucceed: bool, junk: seq<byte>)
    | Bare(kind: byte, serial: nat, pid: nat)

  function TypeOf(p: Packet): byte {
    match p
    case Register(_, _, _, _) => REG
    case Validate(_, _, _, _, _) => CHECK
    case Unregister(_, _, _, _) => UNREG
    case BbsSend(_, _, _, _, _, _, _) => BBSSEND
    case Reply(_, _, _, _) => REQUESTREPLY
    case Bare(kind, _, _) => kind
  }

  predicate HasBody(t: byte) {
    t == REG || t == CHECK || t == UNREG || t == BBSSEND || t == REQUESTREPLY
  }

  /** Strings without NUL, a length that fits its 32 bits, and no body for the bare types. */
  predicate Good(p: Packet) {
    match p
    case Register(_, _, mobile, id) => 0 !in mobile && 0 !in id
    case Validate(_, _, mobile, id, code) => 0 !in mobile && 0 !in id && 0 !in code
    case Unregister(_, _, mobile, id) => 0 !in mobile && 0 !in id
    case BbsSend(_, _, _, id, source, target, content) =>
      0 !in id && 0 !in source && 0 !in target && |Body(p)| < TWO_32
    case Reply(_, _, _, junk) => |junk| == MOBILENUMBERLENGTH
    case Bare(kind, _, _) => !HasBody(kind)
  }

  function Body(p: Packet): seq<byte> {
    match p
    case Register(_, _, mobile, id) => Field(mobile, MOBILENUMBERLENGTH) + Field(id, SMS_BBS_ID_LEN)
    case Validate(_, _, mobile, id, code) =>
      Field(mobile, MOBILENUMBERLENGTH) + Field(id, SMS_BBS_ID_LEN) + Field(code, SMS_VALID_LEN)
    case Unregister(_, _, mobile, id) => Field(mobile, MOBILENUMBERLENGTH) + Field(id, SMS_BBS_ID_LEN)
    case BbsSend(_, _, user, id, source, target, content) =>
      ToBytes(user) + Field(source, MOBILENUMBERLENGTH) + Field(id, SMS_BBS_ID_LEN)
        + Field(target, MOBILENUMBERLENGTH) + ToBytes(|content|) + content
    case Reply(_, _, isSucceed, junk) => [0] + junk + [if isSucceed then 1 else 0]
    case Bare(_, _, _) => []
  }

  function Header(kind: byte, serial: nat, pid: nat, length: nat): (h: seq<byte>)
    ensures |h| == HEADER_SIZE
  {
    [kind] + ToBytes(serial) + ToBytes(pid) + ToBytes(length)
  }

  function Encode(p: Packet): seq<byte> {
    Header(TypeOf(p), p.serial, p.pid, |Body(p)|) + Body(p)
  }

  function EncodeAll(ps: seq<Packet>): seq<byte> {
    if ps == [] then [] else Encode(ps[0]) + EncodeAll(ps[1..])
  }

  // ---- what the gateway reads ---------------------------------------------------------------

  /** msgLength in a header. */
  function BodyLength(s: seq<byte>): (n: nat)
    requires |s| >= HEADER_SIZE
  {
    ToLong(s[9..13])
  }

  /** The complete packets at the head of a byte stream. */
  function Frames(s: seq<byte>): (frames: seq<seq<byte>>)
    ensures forall f | f in frames :: |f| >= HEADER_SIZE
  {
    if |s| < HEADER_SIZE || |s| < HEADER_SIZE + BodyLength(s) then []
    else [s[..HEADER_SIZE + BodyLength(s)]] + Frames(s[HEADER_SIZE + BodyLength(s)..])
  }

  /** No announced packet is larger than the receive buffer. */
  predicate FitsBuffer(s: seq<byte>) {
    |s| < HEADER_SIZE
    || (HEADER_SIZE + BodyLength(s) <= BUFFER_SIZE
        && (|s| < HEADER_SIZE + BodyLength(s) || FitsBuffer(s[HEADER_SIZE + BodyLength(s)..])))
  }

  predicate Known(t: byte) {
    t == LOGIN || t == REQUEST || t == OK || t == ERR || t == LINK || HasBody(t)
  }

  /** dispatchMessage ends the session on a logout, an unknown type or a wrong length. */
  predicate Quits(frame: seq<byte>)
    requires |frame| >= HEADER_SIZE
  {
    BodyLength(frame) + HEADER_SIZE != |frame| || !Known(frame[0])
  }

  function UntilQuit(frames: seq<seq<byte>>): seq<seq<byte>>
    requires forall f | f in frames :: |f| >= HEADER_SIZE
  {
    if frames == [] then [] else if Quits(frames[0]) then [frames[0]] else [frames[0]] + UntilQuit(frames[1..])
  }

  /** The struct of its type fits the packet. */
  predicate WellSized(f: seq<byte>) {
    && |f| >= HEADER_SIZE
    && ((f[0] == REG || f[0] == UNREG) ==> |f| == 44)
    && (f[0] == CHECK ==> |f| == 51)
    && (f[0] == BBSSEND ==> |f| >= 69)
    && (f[0] == REQUESTREPLY ==> |f| == 31)
  }

  /** The members of a packet, each char array read as a C string. */
  function Parse(f: seq<byte>): Packet
    requires WellSized(f)
  {
    var serial, pid := ToLong(f[1..5]), ToLong(f[5..9]);
    if f[0] == REG then Register(serial, pid, CStr(f[13..30]), CStr(f[30..44]))
    else if f[0] == CHECK then Validate(serial, pid, CStr(f[13..30]), CStr(f[30..44]), CStr(f[44..51]))
    else if f[0] == UNREG then Unregister(serial, pid, CStr(f[13..30]), CStr(f[30..44]))
    else if f[0] == BBSSEND then
      BbsSend(serial, pid, ToLong(f[13..17]), CStr(f[34..48]), CStr(f[17..34]), CStr(f[48..65]),
              Cut(f[69..], ToLong(f[65..69])))
    else if f[0] == REQUESTREPLY then Reply(serial, pid, f[30] != 0, f[14..30])
    else Bare(f[0], serial, pid)
  }

  /** What arrives of a packet: 32-bit numbers and strings cut to their fields. */
  function Received(p: Packet): Packet {
    match p
    case Register(serial, pid, mobile, id) =>
      Register(serial % TWO_32, pid % TWO_32, Cut(mobile, MOBILENUMBERLENGTH), Cut(id, SMS_BBS_ID_LEN))
    case Validate(serial, pid, mobile, id, code) =>
      Validate(serial % TWO_32, pid % TWO_32, Cut(mobile, MOBILENUMBERLENGTH), Cut(id, SMS_BBS_ID_LEN),
               Cut(code, SMS_VALID_LEN))
    case Unregister(serial, pid, mobile, id) =>
      Unregister(serial % TWO_32, pid % TWO_32, Cut(mobile, MOBILENUMBERLENGTH), Cut(id, SMS_BBS_ID_LEN))
    case BbsSend(serial, pid, user, id, source, target, content) =>
      BbsSend(serial % TWO_32, pid % TWO_32, user % TWO_32, Cut(id, SMS_BBS_ID_LEN),
              Cut(source, MOBILENUMBERLENGTH), Cut(target, MOBILENUMBERLENGTH), content)
    case Reply(serial, pid, isSucceed, junk) => Reply(serial % TWO_32, pid % TWO_32, isSucceed, junk)
    case Bare(kind, serial, pid) => Bare(kind, serial % TWO_32, pid % TWO_32)
  }

  /** The gateway reads the packet's members off these bytes. */
  predicate Carries(f: seq<byte>, p: Packet) {
    WellSized(f) && Parse(f) == Received(p)
  }

  lemma HeaderIsRead(kind: byte, serial: nat, pid: nat, length: nat, body: seq<byte>)
    ensures var f := Header(kind, serial, pid, length) + body;
      && f[0] == kind && ToLong(f[1..5]) == serial % TWO_32 && ToLong(f[5..9]) == pid % TWO_32
      && BodyLength(f) == length % TWO_32 && f[13..] == body
  {
    hide ToLong, ToBytes;
    var f := Header(kind, serial, pid, length) + body;
    assert f[1..5] == ToBytes(serial) && f[5..9] == ToBytes(pid) && f[9..13] == ToBytes(length);
    LongRoundTrip(serial);
    LongRoundTrip(pid);
    LongRoundTrip(length);
  }

  lemma BodySize(p: Packet)
    requires Good(p)
    ensures |Body(p)| < TWO_32
    ensures match p
      case Register(_, _, _, _) => |Body(p)| == 31
      case Validate(_, _, _, _, _) => |Body(p)| == 38
      case Unregister(_, _, _, _) => |Body(p)| == 31
      case BbsSend(_, _, _, _, _, _, content) => |Body(p)| == 56 + |content|
      case Reply(_, _, _, _) => |Body(p)| == 18
      case Bare(_, _, _) => |Body(p)| == 0
  {
  }

  /** The members of every packet arrive, whatever the unfilled bytes held. */
  lemma PacketIsRead(p: Packet)
    requires Good(p)
    ensures |Encode(p)| == HEADER_SIZE + |Body(p)| && BodyLength(Encode(p)) == |Body(p)|
    ensures Encode(p)[0] == TypeOf(p)
    ensures Carries(Encode(p), p)
  {
    hide Header, Field, Cut, ToBytes, ToLong, CStr, BodyLength;
    var f, b := Encode(p), Body(p);
    BodySize(p);
    HeaderIsRead(TypeOf(p), p.serial, p.pid, |b|, b);
    match p
    case Register(_, _, mobile, id) =>
      assert f[13..30] == b[..17] == Field(mobile, 16) && f[30..44] == b[17..31] == Field(id, 13);
      FieldIsRead(mobile, 16);
      FieldIsRead(id, 13);
    case Unregister(_, _, mobile, id) =>
      assert f[13..30] == b[..17] == Field(mobile, 16) && f[30..44] == b[17..31] == Field(id, 13);
      FieldIsRead(mobile, 16);
      FieldIsRead(id, 13);
    case Validate(_, _, mobile, id, code) =>
      assert f[13..30] == b[..17] == Field(mobile, 16) && f[30..44] == b[17..31] == Field(id, 13)
        && f[44..51] == b[31..38] == Field(code, 6);
      FieldIsRead(mobile, 16);
      FieldIsRead(id, 13);
      FieldIsRead(code, 6);
    case BbsSend(_, _, _, _, _, _, _) => SmsIsRead(p);
    case Reply(_, _, _, junk) => assert f[14..30] == b[1..17] == junk && f[30] == b[17];
    case Bare(_, _, _) =>
  }

  lemma SmsIsRead(p: Packet)
    requires Good(p) && p.BbsSend?
    ensures Carries(Encode(p), p)
  {
    hide Header, Field, Cut, ToBytes, ToLong, CStr, BodyLength;
    var f, b := Encode(p), Body(p);
    HeaderIsRead(TypeOf(p), p.serial, p.pid, |b|, b);
    assert f[13..17] == b[..4] == ToBytes(p.user);
    assert f[17..34] == b[4..21] == Field(p.source, 16);
    assert f[34..48] == b[21..35] == Field(p.id, 13);
    assert f[48..65] == b[35..52] == Field(p.target, 16);
    assert f[65..69] == b[52..56] == ToBytes(|p.content|);
    assert f[69..] == b[56..] == p.content;
    LongRoundTrip(p.user);
    LongRoundTrip(|p.content|);
    CutAll(p.content);
    FieldIsRead(p.source, 16);
    FieldIsRead(p.id, 13);
    FieldIsRead(p.target, 16);
  }

  lemma CutAll(s: seq<byte>)
    ensures Cut(s, |s|) == s
  {
  }

  /** `s`, cut to n bytes, stands at `at` with NULs behind it up to the end of its n + 1 bytes. */
  predicate TextAt(e: seq<byte>, at: nat, s: seq<byte>, n: nat) {
    at + n < |e| && forall k | 0 <= k <= n :: e[at + k] == if k < n && k < |s| then s[k] else 0
  }

  /** The bytes of every packet, member by member. */
  lemma Layout(p: Packet)
    requires Good(p)
    ensures var e := Encode(p);
      && |e| >= 13 && e[1..5] == ToBytes(p.serial) && e[5..9] == ToBytes(p.pid) && e[9..13] == ToBytes(|e| - 13)
      && match p
         case Register(_, _, mobile, id) => |e| == 44 && e[0] == 3 && TextAt(e, 13, mobile, 16) && TextAt(e, 30, id, 13)
         case Validate(_, _, mobile, id, code) =>
           |e| == 51 && e[0] == 4 && TextAt(e, 13, mobile, 16) && TextAt(e, 30, id, 13) && TextAt(e, 44, code, 6)
         case Unregister(_, _, mobile, id) =>
           |e| == 44 && e[0] == 5 && TextAt(e, 13, mobile, 16) && TextAt(e, 30, id, 13)
         case BbsSend(_, _, user, id, source, target, content) =>
           && |e| == 69 + |content| && e[0] == 8 && e[13..17] == ToBytes(user)
           && TextAt(e, 17, source, 16) && TextAt(e, 34, id, 13) && TextAt(e, 48, target, 16)
           && e[65..69] == ToBytes(|content|) && e[69..] == content
         case Reply(_, _, isSucceed, _) =>
           |e| == 31 && e[0] == 7 && e[13] == 0 && (e[30] == if isSucceed then 1 else 0)
         case Bare(kind, _, _) => |e| == 13 && e[0] == kind
  {
    hide ToBytes, Field;
    var e, b := Encode(p), Body(p);
    BodySize(p);
    assert e[13..] == b && forall k | 0 <= k < |b| :: e[13 + k] == b[k];
    assert e[1..5] == ToBytes(p.serial) && e[5..9] == ToBytes(p.pid) && e[9..13] == ToBytes(|b|);
    match p
    case BbsSend(_, _, _, _, _, _, _) => SmsLayout(p);
    case _ =>
  }

  lemma SmsLayout(p: Packet)
    requires Good(p) && p.BbsSend?
    ensures var e := Encode(p);
      && |e| == 69 + |p.content| && e[13..17] == ToBytes(p.user)
      && TextAt(e, 17, p.source, 16) && TextAt(e, 34, p.id, 13) && TextAt(e, 48, p.target, 16)
      && e[65..69] == ToBytes(|p.content|) && e[69..] == p.content
  {
    hide ToBytes, Field, Header;
    var f, b := Encode(p), Body(p);
    assert f[13..17] == b[..4] == ToBytes(p.user);
    assert f[17..34] == b[4..21] == Field(p.source, 16);
    assert f[34..48] == b[21..35] == Field(p.id, 13);
    assert f[48..65] == b[35..52] == Field(p.target, 16);
    assert f[65..69] == b[52..56] == ToBytes(|p.content|);
    assert f[69..] == b[56..] == p.content;
    TextInField(f, 17, p.source, 16);
    TextInField(f, 34, p.id, 13);
    TextInField(f, 48, p.target, 16);
  }

  lemma TextInField(e: seq<byte>, at: nat, s: seq<byte>, n: nat)
    requires at + n < |e| && e[at..at + n + 1] == Field(s, n)
    ensures TextAt(e, at, s, n)
  {
    var f := Field(s, n);
    assert forall k | 0 <= k <= n :: f[k] == e[at + k];
  }

  ghost predicate AllGood(ps: seq<Packet>) {
    forall i | 0 <= i < |ps| :: Good(ps[i])
  }

  function Encodings(ps: seq<Packet>): (fs: seq<seq<byte>>)
    ensures |fs| == |ps| && forall i | 0 <= i < |ps| :: fs[i] == Encode(ps[i])
  {
    seq(|ps|, i requires 0 <= i < |ps| => Encode(ps[i]))
  }

  /** A stream of encodings, even with an incomplete packet at its end, falls apart into exactly the packets. */
  lemma {:induction false} FramesOfEncodings(ps: seq<Packet>, cut: seq<byte>)
    requires AllGood(ps) && Frames(cut) == []
    ensures Frames(EncodeAll(ps) + cut) == Encodings(ps)
  {
    hide Good, Encode, Carries, Body, BodyLength, Frames;
    if ps == [] {
      assert EncodeAll([]) + cut == cut;
    } else {
      var rest := EncodeAll(ps[1..]) + cut;
      FramesOfEncodings(ps[1..], cut);
      PacketIsRead(ps[0]);
      assert EncodeAll(ps) + cut == Encode(ps[0]) + rest;
      OneFrame(Encode(ps[0]), rest);
      assert Encodings(ps) == [Encode(ps[0])] + Encodings(ps[1..]);
    }
  }

  lemma OneFrame(f: seq<byte>, rest: seq<byte>)
    requires |f| >= HEADER_SIZE && |f| == HEADER_SIZE + BodyLength(f)
    ensures Frames(f + rest) == [f] + Frames(rest)
    ensures FitsBuffer(f + rest) <==> |f| <= BUFFER_SIZE && FitsBuffer(rest)
  {
    hide ToLong;
    var s := f + rest;
    assert s[9..13] == f[9..13];
    assert s[..|f|] == f && s[|f|..] == rest;
  }

  /** The number of packets up to and including the first that ends the session. */
  function QuitIndex(ps: seq<Packet>): (k: nat)
    ensures k <= |ps|
    ensures forall j | 0 <= j < k - 1 :: TypeOf(ps[j]) in {1, 3, 4, 5, 6, 7, 8, 20, 101, 102}
    ensures k < |ps| ==> k > 0 && TypeOf(ps[k - 1]) !in {1, 3, 4, 5, 6, 7, 8, 20, 101, 102}
  {
    if ps == [] then 0 else if !Known(TypeOf(ps[0])) then 1 else 1 + QuitIndex(ps[1..])
  }

  /** Nothing after a logout or a packet of an unknown type is handled. */
  lemma SessionEndsAt(ps: seq<Packet>, k: nat)
    requires k < |ps| && TypeOf(ps[k]) !in {1, 3, 4, 5, 6, 7, 8, 20, 101, 102}
    ensures QuitIndex(ps) <= k + 1
    ensures (forall j | 0 <= j < k :: TypeOf(ps[j]) in {1, 3, 4, 5, 6, 7, 8, 20, 101, 102}) ==> QuitIndex(ps) == k + 1
  {
    hide TypeOf;
    var n := QuitIndex(ps);
    assert n > k + 1 ==> k < n - 1;
  }

  lemma TakeCons(p: Packet, ps: seq<Packet>, k: nat)
    requires k <= |ps|
    ensures ([p] + ps)[..k + 1] == [p] + ps[..k] && ps[..0] == []
  {
  }

  lemma EncodingsCons(p: Packet, ps: seq<Packet>)
    ensures Encodings([p] + ps) == [Encode(p)] + Encodings(ps) && Encodings([]) == []
  {
    hide Encode;
  }

  lemma EncodingsHaveHeaders(ps: seq<Packet>)
    requires AllGood(ps)
    ensures forall f | f in Encodings(ps) :: |f| >= HEADER_SIZE
  {
    hide Good, Encode, Carries;
    forall i | 0 <= i < |ps| ensures |Encode(ps[i])| >= HEADER_SIZE {
      PacketIsRead(ps[i]);
    }
  }

  lemma QuitsByType(p: Packet)
    requires Good(p)
    ensures |Encode(p)| >= HEADER_SIZE && (Quits(Encode(p)) <==> !Known(TypeOf(p)))
  {
    hide Good, Encode, Carries, Body, BodyLength;
    PacketIsRead(p);
  }

  lemma {:induction false} UntilQuitOfEncodings(ps: seq<Packet>)
    requires AllGood(ps)
    ensures forall f | f in Encodings(ps) :: |f| >= HEADER_SIZE
    ensures UntilQuit(Encodings(ps)) == Encodings(ps[..QuitIndex(ps)])
  {
    hide Good, Encode, Encodings, Quits, UntilQuit, Known;
    NothingUntilQuit();
    EncodingsHaveHeaders(ps);
    if ps != [] {
      var p, rest := ps[0], ps[1..];
      UntilQuitOfEncodings(rest);
      QuitsByType(p);
      assert ps == [p] + rest;
      EncodingsCons(p, rest);
      OneUntilQuit(Encode(p), Encodings(rest));
      var k := if Known(TypeOf(p)) then QuitIndex(rest) else 0;
      TakeCons(p, rest, k);
      EncodingsCons(p, rest[..k]);
    }
  }

  // ---- the library --------------------------------------------------------------------------------

  const SMS_ERR_NOT_CONNECTED: int := -501
  const SMS_ERR_MSGTYPE: int := -10
  const SMS_MSG_TYPE_TXT: int := 0

  /** strncpy of at most n bytes into a member of n + 1, and the NUL after it. */
  method PutField(packet: array<byte>, at: nat, s: seq<byte>, n: nat)
    requires at + n + 1 <= packet.Length
    modifies packet
    ensures packet[..at + n + 1] == old(packet[..at]) + Field(s, n)
    ensures packet[at + n + 1..] == old(packet[at + n + 1..])
  {
    for k := 0 to n
      invariant forall j | 0 <= j < k :: packet[at + j] == Field(s, n)[j]
      invariant packet[..at] == old(packet[..at]) && packet[at + n + 1..] == old(packet[at + n + 1..])
      modifies packet
    {
      packet[at + k] := if k < |s| then s[k] else 0;
    }
    packet[at + n] := 0;
  }

  /** sms_longToByte */
  method PutLong(packet: array<byte>, at: nat, v: nat)
    requires at + 4 <= packet.Length
    modifies packet
    ensures packet[..at + 4] == old(packet[..at]) + ToBytes(v)
    ensures packet[at + 4..] == old(packet[at + 4..])
  {
    packet[at] := v / 0x100_0000 % 0x100;
    packet[at + 1] := v / 0x1_0000 % 0x100;
    packet[at + 2] := v / 0x100 % 0x100;
    packet[at + 3] := v % 0x100;
  }

  method PutHeader(packet: array<byte>, kind: byte, serial: nat, pid: nat, length: nat)
    requires HEADER_SIZE <= packet.Length
    modifies packet
    ensures packet[..HEADER_SIZE] == Header(kind, serial, pid, length)
    ensures packet[HEADER_SIZE..] == old(packet[HEADER_SIZE..])
  {
    packet[0] := kind;
    PutLong(packet, 1, serial);
    PutLong(packet, 5, pid);
    PutLong(packet, 9, length);
  }

  /** The BBS side of a connection: everything written to the socket so far. */
  class Library {
    var connected: bool
    var written: seq<byte>

    constructor ()
      ensures connected && written == []
    {
      connected, written := true, [];
    }

    method Write(packet: array<byte>)
      modifies `written
      ensures written == old(written) + packet[..]
    {
      written := written + packet[..];
    }

    method SendRegisterNumber(serial: nat, pid: nat, mobile: seq<byte>, id: seq<byte>) returns (rc: int)
      modifies `written
      ensures !connected ==> rc == -501 && written == old(written)
      ensures connected ==> rc == 44 && written == old(written) + Encode(Register(serial, pid, mobile, id))
    {
      hide Header, Field, ToBytes;
      if !connected {
        return SMS_ERR_NOT_CONNECTED;
      }
      var packet := new byte[44];
      PutHeader(packet, REG, serial, pid, 31);
      PutField(packet, 13, mobile, MOBILENUMBERLENGTH);
      PutField(packet, 30, id, SMS_BBS_ID_LEN);
      assert packet[..] == packet[..packet.Length];
      Write(packet);
      return packet.Length;
    }

    method CheckRegisterNumber(serial: nat, pid: nat, mobile: seq<byte>, id: seq<byte>, code: seq<byte>)
      returns (rc: int)
      modifies `written
      ensures !connected ==> rc == -501 && written == old(written)
      ensures connected ==> rc == 51 && written == old(written) + Encode(Validate(serial, pid, mobile, id, code))
    {
      hide Header, Field, ToBytes;
      if !connected {
        return SMS_ERR_NOT_CONNECTED;
      }
      var packet := new byte[51];
      PutHeader(packet, CHECK, serial, pid, 38);
      PutField(packet, 13, mobile, MOBILENUMBERLENGTH);
      PutField(packet, 30, id, SMS_BBS_ID_LEN);
      PutField(packet, 44, code, SMS_VALID_LEN);
      ghost var h, f, g, c := Header(CHECK, serial, pid, 38), Field(mobile, 16), Field(id, 13), Field(code, 6);
      assert packet[..51] == h + f + g + c == h + (f + g + c);
      assert packet[..] == packet[..packet.Length];
      Write(packet);
      return packet.Length;
    }

    method UnRegister(serial: nat, pid: nat, mobile: seq<byte>, id: seq<byte>) returns (rc: int)
      modifies `written
      ensures !connected ==> rc == -501 && written == old(written)
      ensures connected ==> rc == 44 && written == old(written) + Encode(Unregister(serial, pid, mobile, id))
    {
      hide Header, Field, ToBytes;
      if !connected {
        return SMS_ERR_NOT_CONNECTED;
      }
      var packet := new byte[44];
      PutHeader(packet, UNREG, serial, pid, 31);
      PutField(packet, 13, mobile, MOBILENUMBERLENGTH);
      PutField(packet, 30, id, SMS_BBS_ID_LEN);
      assert packet[..] == packet[..packet.Length];
      Write(packet);
      return packet.Length;
    }

    /** The struct and the text go out in two writes. */
    method SendSMS(serial: nat, pid: nat, user: nat, id: seq<byte>, source: seq<byte>, target: seq<byte>,
                   content: array<byte>, contentType: int) returns (rc: int)
      modifies `written
      ensures !connected ==> rc == -501 && written == old(written)
      ensures connected && contentType != 0 ==> rc == -10 && written == old(written)
      ensures connected && contentType == 0 ==>
        && rc == content.Length
        && written == old(written) + Encode(BbsSend(serial, pid, user, id, source, target, content[..]))
    {
      hide Header, Field, ToBytes;
      if !connected {
        return SMS_ERR_NOT_CONNECTED;
      }
      if contentType != SMS_MSG_TYPE_TXT {
        return SMS_ERR_MSGTYPE;
      }
      var packet := new byte[69];
      PutHeader(packet, BBSSEND, serial, pid, 56 + content.Length);
      PutLong(packet, 13, user);
      PutField(packet, 17, source, MOBILENUMBERLENGTH);
      PutField(packet, 34, id, SMS_BBS_ID_LEN);
      PutField(packet, 48, target, MOBILENUMBERLENGTH);
      PutLong(packet, 65, content.Length);
      ghost var h, u, n := Header(BBSSEND, serial, pid, 56 + content.Length), ToBytes(user), ToBytes(content.Length);
      ghost var s, i, t := Field(source, 16), Field(id, 13), Field(target, 16);
      assert packet[..] == packet[..69] == h + u + s + i + t + n == h + (u + s + i + t + n);
      Write(packet);
      Write(content);
      assert written == old(written) + (h + (u + s + i + t + n + content[..]));
      return content.Length;
    }

    /** Only the first byte of the mobile number is set: the rest is whatever the stack held. */
    method ReplyGWRegister(serial: nat, pid: nat, isSucceed: int) returns (rc: int, ghost junk: seq<byte>)
      modifies `written
      ensures !connected ==> rc == -501 && written == old(written)
      ensures connected ==> rc == 31 && |junk| == MOBILENUMBERLENGTH
      ensures connected ==> written == old(written) + Encode(Reply(serial, pid, isSucceed != 0, junk))
    {
      hide Header, ToBytes;
      junk := [];
      if !connected {
        return SMS_ERR_NOT_CONNECTED, junk;
      }
      var packet := new byte[31];
      PutHeader(packet, REQUESTREPLY, serial, pid, 18);
      packet[30] := if isSucceed != 0 then 1 else 0;
      packet[13] := 0;
      junk := packet[14..30];
      assert packet[..] == packet[..13] + ([0] + junk + [packet[30]]);
      Write(packet);
      return packet.Length, junk;
    }
  }

  // ---- the gateway ----------------------------------------------------------------------------------

  function Flatten(chunks: seq<seq<byte>>): seq<byte> {
    if chunks == [] then [] else chunks[0] + Flatten(chunks[1..])
  }

  /** A TCP stream: the pieces in which the transport will hand over what the peer sent before closing. */
  class TcpStream {
    var chunks: seq<seq<byte>>

    ghost predicate Valid()
      reads this
    {
      forall i | 0 <= i < |chunks| :: chunks[i] != []
    }

    ghost function Coming(): seq<byte>
      reads this
    {
      Flatten(chunks)
    }

    constructor (chunks: seq<seq<byte>>)
      requires forall i | 0 <= i < |chunks| :: chunks[i] != []
      ensures Valid() && Coming() == Flatten(chunks)
    {
      this.chunks := chunks;
    }

    /** tcpstream::readData: at most n bytes of what is there, none only at the end of the stream. */
    method ReadData(n: nat) returns (data: seq<byte>)
      requires Valid() && n > 0
      modifies this
      ensures Valid() && |data| <= n && old(Coming()) == data + Coming()
      ensures data == [] <==> old(Coming()) == []
    {
      if chunks == [] {
        return [];
      }
      var head, tail := chunks[0], chunks[1..];
      if |head| <= n {
        chunks := tail;
        return head;
      }
      chunks := [head[n..]] + tail;
      assert chunks[1..] == tail;
      assert head == head[..n] + head[n..];
      return head[..n];
    }

    /** read: keeps asking until the buffer is full or the stream ends. */
    method Read(buf: array<byte>, at: nat, bufLen: nat) returns (readed: nat)
      requires Valid() && at + bufLen <= buf.Length
      modifies this, buf
      ensures Valid() && readed == if |old(Coming())| < bufLen then |old(Coming())| else bufLen
      ensures buf[..at + readed] == old(buf[..at]) + old(Coming())[..readed] && Coming() == old(Coming())[readed..]
    {
      if bufLen == 0 {
        return 0;
      }
      readed := 0;
      ghost var all := Coming();
      while true
        invariant Valid() && readed < bufLen && readed <= |all|
        invariant Coming() == all[readed..] && buf[..at + readed] == old(buf[..at]) + all[..readed]
        decreases bufLen - readed
      {
        var data := ReadData(bufLen - readed);
        if data == [] {
          break;
        }
        CopyIn(buf, at + readed, data);
        assert all[..readed + |data|] == all[..readed] + data;
        readed := readed + |data|;
        if readed >= bufLen {
          break;
        }
      }
    }
  }

  method CopyIn(buf: array<byte>, at: nat, data: seq<byte>)
    requires at + |data| <= buf.Length
    modifies buf
    ensures buf[..at + |data|] == old(buf[..at]) + data
    ensures buf[at + |data|..] == old(buf[at + |data|..])
  {
    for k := 0 to |data|
      invariant buf[..at] == old(buf[..at]) && forall j | 0 <= j < k :: buf[at + j] == data[j]
      invariant buf[at + |data|..] == old(buf[at + |data|..])
      modifies buf
    {
      buf[at + k] := data[k];
    }
  }

  /** doReply: the numbers are copied as bytes. */
  method DoReply(kind: byte, serial: seq<byte>, pid: seq<byte>) returns (reply: seq<byte>)
    requires |serial| == 4 && |pid| == 4
    ensures reply == Encode(Bare(kind, ToLong(serial), ToLong(pid)))
    ensures reply == [kind] + serial + pid + [0, 0, 0, 0]
  {
    var msg := new byte[HEADER_SIZE](_ => 0);
    msg[0] := kind;
    CopyIn(msg, 1, serial);
    CopyIn(msg, 5, pid);
    PutLong(msg, 9, 0);
    reply := msg[..];
    BytesRoundTrip(serial);
    BytesRoundTrip(pid);
    assert msg[..] == msg[..13];
  }

  /** dispatchMessage: whether the session ends, and the answer it gives by itself; the handlers it
      calls are not part of this. */
  method DispatchMessage(msg: array<byte>, len: nat) returns (quit: bool, answer: seq<byte>)
    requires HEADER_SIZE <= len <= msg.Length
    ensures quit <==> Quits(msg[..len])
    ensures quit <==> ToLong(msg[9..13]) + 13 != len || msg[0] !in {1, 3, 4, 5, 6, 7, 8, 20, 101, 102}
    ensures answer == [] <==> ToLong(msg[9..13]) + 13 == len && msg[0] !in {1, 2, 20}
    ensures answer != [] ==>
      && |answer| == 13 && answer[1..9] == msg[1..9] && answer[9..13] == [0, 0, 0, 0]
      && answer == Encode(Bare(answer[0], ToLong(msg[1..5]), ToLong(msg[5..9])))
      && answer[0] == if ToLong(msg[9..13]) + 13 != len then 106 else if msg[0] == 1 then 102
                      else if msg[0] == 2 then 101 else 20
  {
    hide Encode, ToLong;
    ghost var frame := msg[..len];
    assert frame[1..5] == msg[1..5] && frame[5..9] == msg[5..9] && frame[9..13] == msg[9..13];
    var msgType, msgLen := msg[0], ToLong(msg[9..13]);
    answer := [];
    if msgLen + HEADER_SIZE != len {
      answer := DoReply(LENGTH_ERR, msg[1..5], msg[5..9]);
      return true, answer;
    }
    if msgType == LOGIN {
      answer := DoReply(ERR, msg[1..5], msg[5..9]);
      quit := false;
    } else if msgType == LOGOUT {
      answer := DoReply(OK, msg[1..5], msg[5..9]);
      quit := true;
    } else if msgType == REG || msgType == CHECK || msgType == UNREG || msgType == REQUEST {
      quit := false;
    } else if msgType == REQUESTREPLY || msgType == BBSSEND || msgType == OK || msgType == ERR {
      quit := false;
    } else if msgType == LINK {
      answer := DoReply(LINK, msg[1..5], msg[5..9]);
      quit := false;
    } else {
      quit := true;
    }
  }

  /** One packet: the header, then as many bytes as it announces. */
  method ReadPacket(stream: TcpStream, buf: array<byte>) returns (len: nat, complete: bool)
    requires stream.Valid() && FitsBuffer(stream.Coming()) && buf.Length == BUFFER_SIZE
    modifies stream, buf
    ensures stream.Valid()
    ensures complete <==> Frames(old(stream.Coming())) != []
    ensures complete ==> HEADER_SIZE <= len <= buf.Length && len == HEADER_SIZE + BodyLength(buf[..len])
    ensures complete ==> old(stream.Coming()) == buf[..len] + stream.Coming()
  {
    hide ToLong, Flatten;
    ghost var coming := stream.Coming();
    var i := stream.Read(buf, 0, HEADER_SIZE);
    if i < HEADER_SIZE {
      return 0, false;
    }
    assert buf[..HEADER_SIZE] == coming[..HEADER_SIZE];
    assert buf[9..13] == buf[..HEADER_SIZE][9..13] && coming[9..13] == coming[..HEADER_SIZE][9..13];
    var msgLen := ToLong(buf[9..13]);
    i := stream.Read(buf, HEADER_SIZE, msgLen);
    if i < msgLen {
      return 0, false;
    }
    len, complete := HEADER_SIZE + i, true;
    assert buf[..len] == coming[..len];
    assert buf[..len][9..13] == coming[9..13];
  }

  /** The loop of OnAccept after the login: a packet, then its dispatch. However the transport cuts
      the stream, the messages dispatched are its packets up to the first that ends the session. */
  method OnAccept(stream: TcpStream) returns (dispatched: seq<seq<byte>>)
    requires stream.Valid() && FitsBuffer(stream.Coming())
    modifies stream
    ensures dispatched == UntilQuit(Frames(old(stream.Coming())))
  {
    hide BodyLength, Frames, FitsBuffer, UntilQuit, Flatten, Quits;
    var buf := new byte[BUFFER_SIZE];
    dispatched := [];
    ghost var todo := UntilQuit(Frames(stream.Coming()));
    while true
      invariant stream.Valid() && FitsBuffer(stream.Coming())
      invariant todo == dispatched + UntilQuit(Frames(stream.Coming()))
      decreases |stream.Coming()|
    {
      var len, complete := ReadPacket(stream, buf);
      if !complete {
        NothingUntilQuit();
        return;
      }
      OneFrame(buf[..len], stream.Coming());
      OneUntilQuit(buf[..len], Frames(stream.Coming()));
      var quit, answer := DispatchMessage(buf, len);
      dispatched := dispatched + [buf[..len]];
      if quit {
        return;
      }
    }
  }

  lemma NothingUntilQuit()
    ensures UntilQuit([]) == []
  {
  }

  lemma OneUntilQuit(f: seq<byte>, frames: seq<seq<byte>>)
    requires |f| >= HEADER_SIZE && forall g | g in frames :: |g| >= HEADER_SIZE
    ensures UntilQuit([f] + frames) == if Quits(f) then [f] else [f] + UntilQuit(frames)
  {
    assert ([f] + frames)[1..] == frames;
  }

  /** The whole way: the library's packets, cut up by any transport and possibly broken off inside a
      last one, are dispatched in order up to the first that ends the session, members intact. */
  lemma SessionDeliversPackets(ps: seq<Packet>, cut: seq<byte>, chunks: seq<seq<byte>>)
    requires AllGood(ps) && (forall i | 0 <= i < |ps| :: |Encode(ps[i])| <= BUFFER_SIZE)
    requires Frames(cut) == [] && FitsBuffer(cut)
    requires Flatten(chunks) == EncodeAll(ps) + cut
    ensures FitsBuffer(Flatten(chunks))
    ensures UntilQuit(Frames(Flatten(chunks))) == Encodings(ps[..QuitIndex(ps)])
    ensures forall i | 0 <= i < |ps| :: Carries(Encode(ps[i]), ps[i])
  {
    hide Good, Encode, Carries, Body, BodyLength, Frames, FitsBuffer, UntilQuit, Flatten;
    FramesOfEncodings(ps, cut);
    UntilQuitOfEncodings(ps);
    EncodingsFit(ps, cut);
    forall i | 0 <= i < |ps| ensures Carries(Encode(ps[i]), ps[i]) {
      PacketIsRead(ps[i]);
    }
  }

  /** One connection: what the gateway dispatches are the packets the library wrote. */
  method Session(ghost ps: seq<Packet>, ghost cut: seq<byte>, chunks: seq<seq<byte>>)
    returns (dispatched: seq<seq<byte>>)
    requires AllGood(ps) && (forall i | 0 <= i < |ps| :: |Encode(ps[i])| <= BUFFER_SIZE)
    requires Frames(cut) == [] && FitsBuffer(cut)
    requires (forall i | 0 <= i < |chunks| :: chunks[i] != []) && Flatten(chunks) == EncodeAll(ps) + cut
    ensures |dispatched| == QuitIndex(ps) && forall i | 0 <= i < |dispatched| :: Carries(dispatched[i], ps[i])
    ensures forall i | 0 <= i < |dispatched| :: dispatched[i] == Encode(ps[i])
    ensures forall i | 0 <= i < |dispatched| - 1 :: TypeOf(ps[i]) in {1, 3, 4, 5, 6, 7, 8, 20, 101, 102}
    ensures |dispatched| < |ps| ==>
      dispatched != [] && TypeOf(ps[|dispatched| - 1]) !in {1, 3, 4, 5, 6, 7, 8, 20, 101, 102}
  {
    hide TypeOf, Good, Encode, Carries, Body, BodyLength, Frames, FitsBuffer, UntilQuit, Flatten;
    SessionDeliversPackets(ps, cut, chunks);
    var stream := new TcpStream(chunks);
    dispatched := OnAccept(stream);
  }

  lemma {:induction false} EncodingsFit(ps: seq<Packet>, cut: seq<byte>)
    requires AllGood(ps) && (forall i | 0 <= i < |ps| :: |Encode(ps[i])| <= BUFFER_SIZE) && FitsBuffer(cut)
    ensures FitsBuffer(EncodeAll(ps) + cut)
  {
    hide Good, Encode, Carries, Body, BodyLength, FitsBuffer;
    if ps == [] {
      assert EncodeAll([]) + cut == cut;
    } else {
      var rest := EncodeAll(ps[1..]) + cut;
      EncodingsFit(ps[1..], cut);
      PacketIsRead(ps[0]);
      OneFrame(Encode(ps[0]), rest);
      assert EncodeAll(ps) + cut == Encode(ps[0]) + rest;
    }
  }
}