/** The request queue in shared memory between the BBS programs and the SMS daemon. */
module ShmQueue {
  import opened CBytes

  const SMS_SHM_SIZE: nat := 1024 * 50
  const PHONE_SIZE: nat := 17
  const ID_SIZE: nat := 14
  const CONTENT_SIZE: nat := 200
  const HEADER_SIZE: nat := 16

  // ---- records ---------------------------------------------------------------------------

  datatype Request =
    | Reg(phone: seq<byte>, id: seq<byte>)
    | Check(phone: seq<byte>, id: seq<byte>, code: seq<byte>)
    | Unreg(phone: seq<byte>, id: seq<byte>)
    | SendSms(uid: nat, phone: seq<byte>, id: seq<byte>, target: seq<byte>, content: seq<byte>)

  /** A request with the caller's process number and what its stack held where the structs
      were built: strcpy leaves the bytes behind a string, and the header its serial number,
      as they were. */
  datatype Submission = Submission(pid: nat, request: Request, staleHeader: seq<byte>, staleBody: seq<byte>)

  predicate Fits(s: seq<byte>, size: nat) {
    |s| < size && 0 !in s
  }

  /** What strcpy and the 32-bit members ask of the caller. */
  predicate GoodRequest(r: Request) {
    match r
    case Reg(phone, id) => Fits(phone, PHONE_SIZE) && Fits(id, ID_SIZE)
    case Check(phone, id, code) => Fits(phone, PHONE_SIZE) && Fits(id, ID_SIZE) && Fits(code, PHONE_SIZE)
    case Unreg(phone, id) => Fits(phone, PHONE_SIZE) && Fits(id, ID_SIZE)
    case SendSms(uid, phone, id, target, content) =>
      && uid < TWO_32 && Fits(phone, PHONE_SIZE) && Fits(id, ID_SIZE) && Fits(target, PHONE_SIZE)
      && Fits(content, CONTENT_SIZE)
  }

  function BodySize(r: Request): nat {
    match r
    case Reg(_, _) => PHONE_SIZE + ID_SIZE
    case Check(_, _, _) => PHONE_SIZE + ID_SIZE + PHONE_SIZE
    case Unreg(_, _) => PHONE_SIZE + ID_SIZE
    case SendSms(_, _, _, _, _) => 4 + PHONE_SIZE + ID_SIZE + PHONE_SIZE + CONTENT_SIZE
  }

  predicate Good(s: Submission) {
    s.pid < TWO_32 && GoodRequest(s.request) && |s.staleHeader| == HEADER_SIZE && |s.staleBody| == BodySize(s.request)
  }

  function TypeOf(r: Request): byte {
    match r
    case Reg(_, _) => 1
    case Check(_, _, _) => 2
    case Unreg(_, _) => 3
    case SendSms(_, _, _, _, _) => 4
  }

  /** strcpy into a char array that held `stale`. */
  function Field(s: seq<byte>, stale: seq<byte>): (f: seq<byte>)
    requires |s| < |stale|
    ensures |f| == |stale|
  {
    s + [0] + stale[|s| + 1..]
  }

  /** struct BBS_header: one byte and three of padding, then three 32-bit members. */
  function Header(s: Submission): (h: seq<byte>)
    requires Good(s)
    ensures |h| == HEADER_SIZE
  {
    [TypeOf(s.request)] + s.staleHeader[1..8] + ToLittle(s.pid) + ToLittle(BodySize(s.request))
  }

  /** The struct of each request type. */
  function Body(s: Submission): (b: seq<byte>)
    requires Good(s)
    ensures |b| == BodySize(s.request)
  {
    var m := s.staleBody;
    match s.request
    case Reg(phone, id) => Field(phone, m[..17]) + Field(id, m[17..31])
    case Check(phone, id, code) => Field(phone, m[..17]) + Field(id, m[17..31]) + Field(code, m[31..48])
    case Unreg(phone, id) => Field(phone, m[..17]) + Field(id, m[17..31])
    case SendSms(uid, phone, id, target, content) =>
      ToLittle(uid) + Field(phone, m[4..21]) + Field(id, m[21..35]) + Field(target, m[35..52])
        + Field(content, m[52..252])
  }

  function Encode(s: Submission): (e: seq<byte>)
    requires Good(s)
    ensures |e| == HEADER_SIZE + BodySize(s.request)
  {
    Header(s) + Body(s)
  }

  ghost predicate AllGood(ss: seq<Submission>) {
    forall i | 0 <= i < |ss| :: Good(ss[i])
  }

  function EncodeAll(ss: seq<Submission>): seq<byte>
    requires forall i | 0 <= i < |ss| :: Good(ss[i])
  {
    if ss == [] then [] else Encode(ss[0]) + EncodeAll(ss[1..])
  }

  lemma EncodeAllHead(ss: seq<Submission>)
    requires AllGood(ss) && ss != []
    ensures EncodeAll(ss) == Header(ss[0]) + (Body(ss[0]) + EncodeAll(ss[1..]))
  {
    hide Good, Header, Body;
    ConcatAssociates(Header(ss[0]), Body(ss[0]), EncodeAll(ss[1..]));
  }

  lemma NothingEncodesToNothing()
    ensures EncodeAll([]) == []
  {
  }

  lemma {:induction false} EncodeAllSnoc(ss: seq<Submission>, s: Submission)
    requires AllGood(ss) && Good(s)
    ensures AllGood(ss + [s]) && EncodeAll(ss + [s]) == EncodeAll(ss) + Encode(s)
  {
    hide Good, Encode;
    if ss == [] {
      assert [s][1..] == [];
      assert EncodeAll([s]) == Encode(s);
      assert [] + [s] == [s];
    } else {
      EncodeAllSnoc(ss[1..], s);
      assert (ss + [s])[1..] == ss[1..] + [s];
      assert Encode(ss[0]) + (EncodeAll(ss[1..]) + Encode(s)) == Encode(ss[0]) + EncodeAll(ss[1..]) + Encode(s);
    }
  }

  // ---- what the daemon makes of a record -----------------------------------------------------

  /** A call into the gateway library: its serial number, the process to signal, the request. */
  datatype Issue = Issue(sn: nat, pid: nat, request: Request)

  function BodySizeOfType(t: byte): nat {
    if t == 1 || t == 3 then 31 else if t == 2 then 48 else if t == 4 then 252 else 0
  }

  /** The members of the body, each array read as a C string. */
  function Parse(t: byte, b: seq<byte>): Request
    requires 1 <= t <= 4 && |b| == BodySizeOfType(t)
  {
    if t == 1 then Reg(CStr(b[..17]), CStr(b[17..31]))
    else if t == 2 then Check(CStr(b[..17]), CStr(b[17..31]), CStr(b[31..48]))
    else if t == 3 then Unreg(CStr(b[..17]), CStr(b[17..31]))
    else SendSms(FromLittle(b[..4]), CStr(b[4..21]), CStr(b[21..35]), CStr(b[35..52]), CStr(b[52..252]))
  }

  lemma FieldIsRead(s: seq<byte>, stale: seq<byte>)
    requires |s| < |stale| && 0 !in s
    ensures CStr(Field(s, stale)) == s
  {
    CStrOfTerminated(s, stale[|s| + 1..]);
  }

  lemma HeaderIsRead(s: Submission)
    requires Good(s)
    ensures var h := Header(s); h[0] == TypeOf(s.request) && FromLittle(h[8..12]) == s.pid
    ensures BodySizeOfType(TypeOf(s.request)) == BodySize(s.request)
  {
    var h := Header(s);
    assert h[8..12] == ToLittle(s.pid);
    LittleRoundTrip(s.pid);
  }

  /** Whatever the stack held, the daemon reads back the request. */
  lemma BodyIsRead(s: Submission)
    requires Good(s)
    ensures BodySizeOfType(TypeOf(s.request)) == |Body(s)| && Parse(TypeOf(s.request), Body(s)) == s.request
  {
    var m, b := s.staleBody, Body(s);
    match s.request
    case Reg(phone, id) => PhoneAndId(phone, id, m, b);
    case Unreg(phone, id) => PhoneAndId(phone, id, m, b);
    case Check(phone, id, code) =>
      assert b[..17] == Field(phone, m[..17]) && b[17..31] == Field(id, m[17..31]);
      assert b[31..48] == Field(code, m[31..48]);
      FieldIsRead(phone, m[..17]);
      FieldIsRead(id, m[17..31]);
      FieldIsRead(code, m[31..48]);
    case SendSms(uid, phone, id, target, content) => SmsIsRead(s);
  }

  lemma PhoneAndId(phone: seq<byte>, id: seq<byte>, m: seq<byte>, b: seq<byte>)
    requires Fits(phone, PHONE_SIZE) && Fits(id, ID_SIZE) && |m| == 31
    requires b == Field(phone, m[..17]) + Field(id, m[17..31])
    ensures CStr(b[..17]) == phone && CStr(b[17..31]) == id
  {
    assert b[..17] == Field(phone, m[..17]) && b[17..31] == Field(id, m[17..31]);
    FieldIsRead(phone, m[..17]);
    FieldIsRead(id, m[17..31]);
  }

  lemma SmsIsRead(s: Submission)
    requires Good(s) && s.request.SendSms?
    ensures Parse(4, Body(s)) == s.request
  {
    var m, b := s.staleBody, Body(s);
    var SendSms(uid, phone, id, target, content) := s.request;
    LittleRoundTrip(uid);
    assert b[..4] == ToLittle(uid);
    assert b[4..21] == Field(phone, m[4..21]);
    assert b[21..35] == Field(id, m[21..35]);
    assert b[35..52] == Field(target, m[35..52]);
    assert b[52..252] == Field(content, m[52..252]);
    FieldIsRead(phone, m[4..21]);
    FieldIsRead(id, m[21..35]);
    FieldIsRead(target, m[35..52]);
    FieldIsRead(content, m[52..252]);
  }

  /** `s` and a NUL stand at `at`. */
  predicate CopiedAt(e: seq<byte>, at: nat, s: seq<byte>) {
    at + |s| < |e| && e[at + |s|] == 0 && forall k | 0 <= k < |s| :: e[at + k] == s[k]
  }

  /** The bytes of every record, member by member. */
  lemma Layout(s: Submission)
    requires Good(s)
    ensures var e := Encode(s);
      && |e| >= 16 && FromLittle(e[8..12]) == s.pid && FromLittle(e[12..16]) == |e| - 16
      && match s.request
         case Reg(phone, id) => |e| == 47 && e[0] == 1 && CopiedAt(e, 16, phone) && CopiedAt(e, 33, id)
         case Check(phone, id, code) =>
           |e| == 64 && e[0] == 2 && CopiedAt(e, 16, phone) && CopiedAt(e, 33, id) && CopiedAt(e, 47, code)
         case Unreg(phone, id) => |e| == 47 && e[0] == 3 && CopiedAt(e, 16, phone) && CopiedAt(e, 33, id)
         case SendSms(uid, phone, id, target, content) =>
           && |e| == 268 && e[0] == 4 && FromLittle(e[16..20]) == uid && CopiedAt(e, 20, phone)
           && CopiedAt(e, 37, id) && CopiedAt(e, 51, target) && CopiedAt(e, 68, content)
  {
    hide ToLittle, FromLittle, Field, CopiedAt;
    var e, b, m := Encode(s), Body(s), s.staleBody;
    assert e[8..12] == ToLittle(s.pid) && e[12..16] == ToLittle(BodySize(s.request));
    LittleRoundTrip(s.pid);
    LittleRoundTrip(BodySize(s.request));
    match s.request
    case Reg(phone, id) => PhoneAndIdCopied(e, phone, id, m);
    case Unreg(phone, id) => PhoneAndIdCopied(e, phone, id, m);
    case Check(phone, id, code) =>
      assert e[47..64] == b[31..48] == Field(code, m[31..48]);
      FieldCopied(e, 47, code, m[31..48]);
      assert e[..47] == Header(s) + (Field(phone, m[..17]) + Field(id, m[17..31]));
      PhoneAndIdCopied(e, phone, id, m);
    case SendSms(_, _, _, _, _) => SmsLayout(s);
  }

  lemma PhoneAndIdCopied(e: seq<byte>, phone: seq<byte>, id: seq<byte>, m: seq<byte>)
    requires |phone| < 17 && |id| < 14 && |m| >= 31 && |e| >= 47
    requires e[16..47] == Field(phone, m[..17]) + Field(id, m[17..31])
    ensures CopiedAt(e, 16, phone) && CopiedAt(e, 33, id)
  {
    hide Field, CopiedAt;
    assert e[16..33] == e[16..47][..17] && e[33..47] == e[16..47][17..31];
    FieldCopied(e, 16, phone, m[..17]);
    FieldCopied(e, 33, id, m[17..31]);
  }

  lemma FieldCopied(e: seq<byte>, at: nat, s: seq<byte>, stale: seq<byte>)
    requires |s| < |stale| && at + |stale| <= |e| && e[at..at + |stale|] == Field(s, stale)
    ensures CopiedAt(e, at, s)
  {
    var f := Field(s, stale);
    assert forall k | 0 <= k < |f| :: f[k] == e[at + k];
  }

  lemma SmsLayout(s: Submission)
    requires Good(s) && s.request.SendSms?
    ensures var e, r := Encode(s), s.request;
      && |e| == 268 && FromLittle(e[16..20]) == r.uid && CopiedAt(e, 20, r.phone)
      && CopiedAt(e, 37, r.id) && CopiedAt(e, 51, r.target) && CopiedAt(e, 68, r.content)
  {
    hide ToLittle, FromLittle, Field, CopiedAt;
    var e, b, m, r := Encode(s), Body(s), s.staleBody, s.request;
    assert e[16..20] == b[..4] == ToLittle(r.uid);
    assert e[20..37] == b[4..21] == Field(r.phone, m[4..21]);
    assert e[37..51] == b[21..35] == Field(r.id, m[21..35]);
    assert e[51..68] == b[35..52] == Field(r.target, m[35..52]);
    assert e[68..268] == b[52..252] == Field(r.content, m[52..252]);
    LittleRoundTrip(r.uid);
    FieldCopied(e, 20, r.phone, m[4..21]);
    FieldCopied(e, 37, r.id, m[21..35]);
    FieldCopied(e, 51, r.target, m[35..52]);
    FieldCopied(e, 68, r.content, m[52..252]);
  }

  /** The calls for a list of submissions, numbered from `sn` + 1. */
  function Issues(ss: seq<Submission>, sn: nat): (calls: seq<Issue>)
    ensures |calls| == |ss|
  {
    seq(|ss|, i requires 0 <= i < |ss| => Issue(sn + 1 + i, ss[i].pid, ss[i].request))
  }

  // ---- the shared memory ---------------------------------------------------------------------------

  class SharedQueue {
    const shmbuf: array<byte>
    var sem: bool
    var total: nat
    var length: nat
    /** The daemon's serial number. */
    var sn: nat
    /** Accepted and not yet issued; issued so far; all that were accepted. */
    ghost var pending: seq<Submission>
    ghost var issued: seq<Submission>
    ghost var accepted: seq<Submission>
    /** The library calls made so far. */
    ghost var calls: seq<Issue>

    ghost predicate Sized()
      reads `length
    {
      shmbuf.Length == SMS_SHM_SIZE && length <= SMS_SHM_SIZE
    }

    ghost function Contents(): seq<byte>
      requires Sized()
      reads `length, shmbuf
    {
      shmbuf[..length]
    }

    /** The buffer is the concatenation of the `total` pending records, and nothing accepted is
        lost, repeated or out of order. */
    ghost predicate Valid()
      reads this, shmbuf
    {
      && Sized() && !sem
      && AllGood(pending) && AllGood(accepted)
      && total == |pending| && Contents() == EncodeAll(pending)
      && accepted == issued + pending
      && sn == |issued| && calls == Issues(issued, 0)
    }

    /** init_memory */
    constructor ()
      ensures Valid() && accepted == [] && fresh(shmbuf)
    {
      shmbuf := new byte[SMS_SHM_SIZE](_ => 0);
      sem, total, length, sn := false, 0, 0, 0;
      pending, issued, accepted, calls := [], [], [], [];
    }

    /** sendtosms: a record that does not fit is dropped without a word. */
    method SendToSms(n: seq<byte>)
      requires Sized()
      modifies `length, shmbuf
      ensures Sized()
      ensures Contents() == old(Contents()) + if old(length) + |n| >= 51200 then [] else n
    {
      if length + |n| >= SMS_SHM_SIZE {
        return;
      }
      for k := 0 to |n|
        invariant forall j | 0 <= j < k :: shmbuf[length + j] == n[j]
        invariant forall j | 0 <= j < length :: shmbuf[j] == old(shmbuf[j])
        modifies shmbuf
      {
        shmbuf[length + k] := n[k];
      }
      length := length + |n|;
    }

    /** Room for both parts of the record. */
    predicate Room(s: Submission)
      reads `length
    {
      length + HEADER_SIZE + BodySize(s.request) < SMS_SHM_SIZE
    }

    /** DoReg, DoCheck, DoUnReg and DoSendSMS between taking and releasing the semaphore. The queue
        stays consistent exactly when there is room: without it `total` is raised all the same. */
    method Submit(s: Submission)
      requires Valid() && Good(s)
      modifies this, shmbuf
      ensures total == old(total) + 1 && !sem && Sized()
      ensures Contents() == EncodeAll(old(pending) + [s]) <==> old(Room(s))
      ensures old(Room(s)) ==> Valid() && pending == old(pending) + [s]
      ensures old(Room(s)) ==> accepted == old(accepted) + [s] && issued == old(issued)
      ensures old(Room(s)) <==> old(length) + 16 + |Body(s)| < 51200
      ensures old(Room(s)) ==> Contents() == old(Contents()) + Encode(s)
      ensures !old(Room(s)) ==>
        Contents() == old(Contents()) + if old(length) + 16 < 51200 then Header(s) else []
    {
      hide Good, Header, Body, EncodeAll;
      EncodeAllSnoc(pending, s);
      sem := true;
      total := total + 1;
      SendToSms(Header(s));
      SendToSms(Body(s));
      sem := false;
      if old(Room(s)) {
        pending := pending + [s];
        accepted := accepted + [s];
        assert accepted == issued + pending;
        assert Contents() == old(Contents()) + (Header(s) + Body(s));
      }
    }

    /** getbuf: takes the first bytes and moves the rest down; with too few it leaves everything alone. */
    method GetBuf(n: nat) returns (h: seq<byte>)
      requires Sized()
      modifies `length, shmbuf
      ensures Sized()
      ensures n <= old(length) ==> h == old(Contents())[..n] && Contents() == old(Contents())[n..]
      ensures n > old(length) ==> h == [] && Contents() == old(Contents())
    {
      if length < n {
        return [];
      }
      h := shmbuf[..n];
      for k := 0 to length - n
        invariant forall j | 0 <= j < k :: shmbuf[j] == old(shmbuf[n + j])
        invariant forall j | k <= j < length :: shmbuf[j] == old(shmbuf[j])
        modifies shmbuf
      {
        shmbuf[k] := shmbuf[n + k];
      }
      length := length - n;
    }

    /** One turn of the loop in processbbs. */
    method IssueNext() returns (call: Issue)
      requires Sized() && AllGood(pending) && pending != [] && total == |pending|
      requires Contents() == EncodeAll(pending)
      modifies `total, `length, `sn, shmbuf
      ensures Sized() && total == old(total) - 1 && sn == old(sn) + 1
      ensures Contents() == EncodeAll(pending[1..])
      ensures call == Issue(sn, pending[0].pid, pending[0].request)
    {
      hide Good, Header, Body, Parse, FromLittle, EncodeAll;
      ghost var s, rest := pending[0], EncodeAll(pending[1..]);
      HeaderIsRead(s);
      BodyIsRead(s);
      EncodeAllHead(pending);
      total := total - 1;
      var h := GetBuf(HEADER_SIZE);
      assert h == Header(s) && Contents() == Body(s) + rest;
      var body := GetBuf(BodySizeOfType(h[0]));
      assert body == Body(s) && Contents() == rest;
      sn := sn + 1;
      call := Issue(sn, FromLittle(h[8..12]), Parse(h[0], body));
    }

    /** processbbs: issues all pending requests, each once, in the order of submission. */
    method ProcessBbs() returns (made: seq<Issue>)
      requires Valid()
      modifies this, shmbuf
      ensures Valid() && pending == [] && total == 0 && length == 0
      ensures issued == old(issued) + old(pending) && accepted == old(accepted)
      ensures made == Issues(old(pending), old(sn)) && calls == old(calls) + made
      ensures |made| == |old(pending)| && sn == old(sn) + |made|
      ensures forall i | 0 <= i < |made| ::
        && made[i].sn == old(sn) + 1 + i
        && made[i].pid == old(pending[i].pid) && made[i].request == old(pending[i].request)
    {
      hide Good, Encode, EncodeAll;
      NothingEncodesToNothing();
      made := [];
      if total == 0 {
        return;
      }
      sem := true;
      ghost var todo, first := pending, sn;
      while total != 0
        invariant Sized() && AllGood(pending) && total == |pending| && Contents() == EncodeAll(pending)
        invariant |made| + |pending| == |todo| && pending == todo[|made|..]
        invariant made == Issues(todo, first)[..|made|]
        invariant sn == first + |made|
        invariant accepted == old(accepted) && issued == old(issued) && calls == old(calls)
      {
        var call := IssueNext();
        made := made + [call];
        pending := pending[1..];
      }
      issued := issued + todo;
      calls := calls + made;
      IssuesAppend(old(issued), todo);
      sem := false;
    }
  }

  lemma IssuesAppend(a: seq<Submission>, b: seq<Submission>)
    ensures Issues(a + b, 0) == Issues(a, 0) + Issues(b, |a|)
  {
  }
}
