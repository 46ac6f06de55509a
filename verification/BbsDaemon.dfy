/** The SMS daemon between the shared-memory queue and the gateway: what the BBS programs ask for is
    what the gateway is asked to do. */
module BbsDaemon {
  import opened CBytes
  import Q = ShmQueue
  import F = BbsFraming

  /** The packet that the library call for a request writes. */
  function PacketOf(c: Q.Issue): F.Packet {
    match c.request
    case Reg(phone, id) => F.Register(c.sn, c.pid, phone, id)
    case Check(phone, id, code) => F.Validate(c.sn, c.pid, phone, id, code)
    case Unreg(phone, id) => F.Unregister(c.sn, c.pid, phone, id)
    case SendSms(uid, phone, id, target, content) => F.BbsSend(c.sn, c.pid, uid, id, phone, target, content)
  }

  function PacketsOf(calls: seq<Q.Issue>): (ps: seq<F.Packet>)
    ensures |ps| == |calls| && forall i | 0 <= i < |calls| :: ps[i] == PacketOf(calls[i])
  {
    seq(|calls|, i requires 0 <= i < |calls| => PacketOf(calls[i]))
  }

  /** What the gateway reads of a request: everything, but of a code no more than six characters. */
  function Arriving(s: Q.Submission, sn: nat): F.Packet {
    match s.request
    case Reg(phone, id) => F.Register(sn % TWO_32, s.pid, phone, id)
    case Check(phone, id, code) => F.Validate(sn % TWO_32, s.pid, phone, id, F.Cut(code, F.SMS_VALID_LEN))
    case Unreg(phone, id) => F.Unregister(sn % TWO_32, s.pid, phone, id)
    case SendSms(uid, phone, id, target, content) => F.BbsSend(sn % TWO_32, s.pid, uid, id, phone, target, content)
  }

  /** A request that fits the queue makes a well-formed packet that fits the gateway's buffer, keeps
      the session open, and arrives whole. */
  lemma RequestMakesPacket(s: Q.Submission, sn: nat)
    requires Q.Good(s)
    ensures var p := PacketOf(Q.Issue(sn, s.pid, s.request));
      && F.Good(p) && |F.Encode(p)| <= F.BUFFER_SIZE && F.TypeOf(p) in {3, 4, 5, 8}
      && F.Received(p) == Arriving(s, sn)
  {
    hide F.Field, F.Header, F.ToBytes;
    var p := PacketOf(Q.Issue(sn, s.pid, s.request));
    F.BodySize(p);
  }

  /** The bytes of that packet. */
  lemma RequestLayout(s: Q.Submission, serial: nat, f: seq<byte>)
    requires Q.Good(s) && f == F.Encode(PacketOf(Q.Issue(serial, s.pid, s.request)))
    ensures |f| >= 13
      && F.ToLong(f[1..5]) == serial % TWO_32 && F.ToLong(f[5..9]) == s.pid
      && match s.request
         case Reg(phone, id) => |f| == 44 && f[0] == 3 && F.TextAt(f, 13, phone, 16) && F.TextAt(f, 30, id, 13)
         case Check(phone, id, code) =>
           |f| == 51 && f[0] == 4 && F.TextAt(f, 13, phone, 16) && F.TextAt(f, 30, id, 13) && F.TextAt(f, 44, code, 6)
         case Unreg(phone, id) => |f| == 44 && f[0] == 5 && F.TextAt(f, 13, phone, 16) && F.TextAt(f, 30, id, 13)
         case SendSms(uid, phone, id, target, content) =>
           && |f| == 69 + |content| && f[0] == 8 && F.ToLong(f[13..17]) == uid && F.TextAt(f, 17, phone, 16)
           && F.TextAt(f, 34, id, 13) && F.TextAt(f, 48, target, 16) && F.ToLong(f[65..69]) == |content|
           && f[69..] == content
  {
    hide F.ToLong, F.ToBytes, F.Encode, F.TextAt;
    var p := PacketOf(Q.Issue(serial, s.pid, s.request));
    RequestMakesPacket(s, serial);
    F.Layout(p);
    F.LongRoundTrip(p.serial);
    F.LongRoundTrip(p.pid);
    if p.BbsSend? {
      F.LongRoundTrip(p.user);
      F.LongRoundTrip(|p.content|);
    }
  }

  /** The library call made for one request. */
  method Call(lib: F.Library, c: Q.Issue)
    requires lib.connected
    modifies lib`written
    ensures lib.written == old(lib.written) + F.Encode(PacketOf(c))
  {
    hide F.Encode;
    var rc: int;
    match c.request {
      case Reg(phone, id) => rc := lib.SendRegisterNumber(c.sn, c.pid, phone, id);
      case Check(phone, id, code) => rc := lib.CheckRegisterNumber(c.sn, c.pid, phone, id, code);
      case Unreg(phone, id) => rc := lib.UnRegister(c.sn, c.pid, phone, id);
      case SendSms(uid, phone, id, target, content) =>
        var text := new byte[|content|](i requires 0 <= i < |content| => content[i]);
        assert text[..] == content;
        rc := lib.SendSMS(c.sn, c.pid, uid, id, phone, target, text, F.SMS_MSG_TYPE_TXT);
    }
  }

  lemma {:induction false} EncodeAllSnoc(ps: seq<F.Packet>, p: F.Packet)
    ensures F.EncodeAll(ps + [p]) == F.EncodeAll(ps) + F.Encode(p)
  {
    hide F.Encode;
    if ps == [] {
      assert [p][1..] == [] && [] + [p] == [p];
    } else {
      EncodeAllSnoc(ps[1..], p);
      assert (ps + [p])[1..] == ps[1..] + [p];
      ConcatAssociates(F.Encode(ps[0]), F.EncodeAll(ps[1..]), F.Encode(p));
    }
  }

  /** processbbs with its library calls, which come here after the drain, in the same order. */
  method Drain(queue: Q.SharedQueue, lib: F.Library)
    requires queue.Valid() && lib.connected
    modifies queue, queue.shmbuf, lib`written
    ensures queue.Valid() && queue.pending == [] && queue.issued == old(queue.issued) + old(queue.pending)
    ensures lib.written
      == old(lib.written) + F.EncodeAll(PacketsOf(Q.Issues(old(queue.pending), old(queue.sn))))
  {
    hide F.Encode, F.EncodeAll, Q.SharedQueue.Valid;
    var calls := queue.ProcessBbs();
    ghost var ps := PacketsOf(calls);
    NothingToSend();
    for k := 0 to |calls|
      invariant lib.connected && lib.written == old(lib.written) + F.EncodeAll(ps[..k])
      modifies lib`written
    {
      EncodeAllSnoc(ps[..k], ps[k]);
      assert ps[..k] + [ps[k]] == ps[..k + 1];
      Call(lib, calls[k]);
    }
    assert ps[..|calls|] == ps;
  }

  lemma NothingToSend()
    ensures F.EncodeAll([]) == []
  {
  }

  /** From end to end: the requests submitted to the queue are what the gateway dispatches, once each
      and in order, however the transport cuts what the daemon wrote for them. */
  method Arrive(ghost ss: seq<Q.Submission>, ghost sn: nat, chunks: seq<seq<byte>>)
    returns (dispatched: seq<seq<byte>>)
    requires Q.AllGood(ss) && forall i | 0 <= i < |chunks| :: chunks[i] != []
    requires F.Flatten(chunks) == F.EncodeAll(PacketsOf(Q.Issues(ss, sn)))
    ensures |dispatched| == |ss|
    ensures forall i | 0 <= i < |ss| ::
      F.WellSized(dispatched[i]) && F.Parse(dispatched[i]) == Arriving(ss[i], sn + 1 + i)
    ensures forall i | 0 <= i < |ss| ::
      var f, s, serial := dispatched[i], ss[i], sn + 1 + i;
      |f| >= 13
      && F.ToLong(f[1..5]) == serial % TWO_32 && F.ToLong(f[5..9]) == s.pid
      && match s.request
         case Reg(phone, id) => |f| == 44 && f[0] == 3 && F.TextAt(f, 13, phone, 16) && F.TextAt(f, 30, id, 13)
         case Check(phone, id, code) =>
           |f| == 51 && f[0] == 4 && F.TextAt(f, 13, phone, 16) && F.TextAt(f, 30, id, 13) && F.TextAt(f, 44, code, 6)
         case Unreg(phone, id) => |f| == 44 && f[0] == 5 && F.TextAt(f, 13, phone, 16) && F.TextAt(f, 30, id, 13)
         case SendSms(uid, phone, id, target, content) =>
           && |f| == 69 + |content| && f[0] == 8 && F.ToLong(f[13..17]) == uid && F.TextAt(f, 17, phone, 16)
           && F.TextAt(f, 34, id, 13) && F.TextAt(f, 48, target, 16) && F.ToLong(f[65..69]) == |content|
           && f[69..] == content
  {
    hide F.ToLong, F.TextAt;
    hide Q.Good, PacketOf, Arriving;
    hide F.Good, F.Encode, F.EncodeAll, F.Flatten, F.TypeOf, F.WellSized, F.Parse, F.Received;
    ghost var ps := PacketsOf(Q.Issues(ss, sn));
    forall i | 0 <= i < |ss|
      ensures F.Good(ps[i]) && |F.Encode(ps[i])| <= F.BUFFER_SIZE && F.TypeOf(ps[i]) in {3, 4, 5, 8}
      ensures F.Received(ps[i]) == Arriving(ss[i], sn + 1 + i)
    {
      RequestMakesPacket(ss[i], sn + 1 + i);
    }
    NothingCut();
    assert F.EncodeAll(ps) + [] == F.EncodeAll(ps);
    dispatched := F.Session(ps, [], chunks);
    forall i | 0 <= i < |ss| {
      RequestLayout(ss[i], sn + 1 + i, dispatched[i]);
    }
  }

  lemma NothingCut()
    ensures F.Frames([]) == [] && F.FitsBuffer([])
  {
  }
}
