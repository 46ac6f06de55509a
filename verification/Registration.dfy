/** The gateway's registration and fee table and its outstanding bind requests. */
module Registration {
  import opened Options

  const SMS_BBS_VALID_LEN: nat := 6

  type ValidateNo = s: string | |s| <= SMS_BBS_VALID_LEN
  /** What generateValidateNum may produce. */
  type NewCode = s: string | |s| == SMS_BBS_VALID_LEN witness "000000"

  // ---- the tables --------------------------------------------------------------------------

  /** Rows are found by mobile number and upper-cased id. */
  datatype Key = Key(mobile: string, upperId: string)

  /** A row is validated when its code is empty. */
  datatype Row = Row(code: ValidateNo, limit: int, today: int)

  datatype BindRequest = BindRequest(sn: nat, mobile: string, id: string, bind: bool)

  datatype State = State(table: map<Key, Row>, requests: seq<BindRequest>, serial: nat, defaultLimit: int)

  function UpperChar(c: char): char {
    if 'a' <= c <= 'z' then c - 32 as char else c
  }

  function Upper(s: string): (u: string)
    ensures |u| == |s|
  {
    seq(|s|, i requires 0 <= i < |s| => UpperChar(s[i]))
  }

  function KeyOf(mobile: string, id: string): Key {
    Key(mobile, Upper(id))
  }

  /** The ids agree letter by letter, up to ASCII case. */
  predicate SameId(a: string, b: string) {
    |a| == |b| && forall i | 0 <= i < |a| :: SameLetter(a[i], b[i])
  }

  predicate SameLetter(c: char, d: char) {
    c == d || ('a' <= c <= 'z' && d as int == c as int - 32) || ('a' <= d <= 'z' && c as int == d as int - 32)
  }

  lemma SameUpper(c: char, d: char)
    ensures UpperChar(c) == UpperChar(d) <==> SameLetter(c, d)
    ensures SameLetter(c, d) <==>
      || c == d || (97 <= c as int <= 122 && d as int == c as int - 32)
      || (97 <= d as int <= 122 && c as int == d as int - 32)
  {
  }

  /** Two registrations share a key exactly when the mobile numbers are equal and the ids agree up to case. */
  lemma SameKey(m1: string, id1: string, m2: string, id2: string)
    ensures KeyOf(m1, id1) == KeyOf(m2, id2) <==> m1 == m2 && SameId(id1, id2)
  {
    hide UpperChar, SameLetter;
    if Upper(id1) == Upper(id2) {
      forall i | 0 <= i < |id1| ensures SameLetter(id1[i], id2[i]) {
        assert Upper(id1)[i] == Upper(id2)[i];
        SameUpper(id1[i], id2[i]);
      }
    }
    if SameId(id1, id2) {
      forall i | 0 <= i < |id1| ensures UpperChar(id1[i]) == UpperChar(id2[i]) {
        SameUpper(id1[i], id2[i]);
      }
      assert Upper(id1) == Upper(id2);
    }
  }

  /** "Sysop" and "SYSOP" are one id, "sysop" and "sysog" are not; and numbers are compared exactly. */
  lemma KeysForExample()
    ensures KeyOf("1380000", "Sysop") == KeyOf("1380000", "SYSOP") != KeyOf("1380000", "SYSOG")
    ensures KeyOf("1380000", "sysop") != KeyOf("1399999", "sysop")
  {
    SameKey("1380000", "Sysop", "1380000", "SYSOP");
    SameKey("1380000", "SYSOP", "1380000", "SYSOG");
    assert !SameLetter("SYSOP"[4], "SYSOG"[4]);
  }

  // ---- events and replies ----------------------------------------------------------------

  /** `fee` is what getFee yields (None when it fails), `stored` whether the spool accepts the message. */
  datatype Payment = Payment(fee: Option<nat>, stored: bool)

  datatype Event =
    | Reg(mobile: string, id: string, newCode: NewCode, pay: Payment)
    | Check(mobile: string, id: string, code: string)
    | Unreg(mobile: string, id: string)
    | BindReply(serial: nat, isSucceed: nat, stored: bool)
    | Send(mobile: string, id: string, pay: Payment)
    | UserRequest(mobile: string, id: string, bind: bool, sendOk: bool)
    | SetLimit(mobile: string, id: string, limit: int, pay: Payment)
    | ZeroToday(mobile: string, id: string, pay: Payment)
    | GetLimit(mobile: string, id: string, pay: Payment)
    | GetToday(mobile: string, id: string, pay: Payment)
    | Deliver(sendOk: bool)
    | DailyClear

  datatype Reply = CMD_OK | CMD_ERR | CMD_DB_ERROR | CMD_SMS_VALIDATE_FAILED | CMD_NO_VALIDCODE
    | CMD_EXCEEDMONEY_LIMIT | SUCCESS | ERROR | FAILED

  /** The text of a message to a mobile phone. */
  datatype Text = UserText | CodeIs(code: string) | LimitSet(limit: int) | TodayZeroed | LimitIs(limit: int)
    | TodayIs(total: int) | BindDone | AlreadyBound | UnbindDone | NotBound | NoSuchId | MobileDiffers

  /** The state after an event, its reply, and the message written to the spool. */
  datatype Out = Out(state: State, reply: Reply, sms: Option<Text>)

  // ---- what each event does -----------------------------------------------------------------

  predicate Pending(s: State, k: Key) {
    k in s.table && s.table[k].code != ""
  }

  /** canSendSMS */
  predicate Sendable(s: State, k: Key) {
    k in s.table && s.table[k].code == ""
  }

  predicate Affordable(s: State, k: Key, fee: nat) {
    k in s.table && s.table[k].today + fee <= s.table[k].limit
  }

  function WithRow(s: State, k: Key, row: Row): State {
    s.(table := s.table[k := row])
  }

  function Fresh(s: State, code: ValidateNo): Row {
    Row(code, s.defaultLimit, 0)
  }

  function Charged(s: State, k: Key, fee: nat): State
    requires k in s.table
  {
    WithRow(s, k, s.table[k].(today := s.table[k].today + fee))
  }

  /** sendSMS with the check: the fee is charged before the message is stored, and kept if storing fails. */
  function SendChecked(s: State, k: Key, pay: Payment, text: Text): Out {
    if pay.fee.None? then Out(s, CMD_DB_ERROR, None)
    else if !Affordable(s, k, pay.fee.value) then Out(s, CMD_EXCEEDMONEY_LIMIT, None)
    else if pay.stored then Out(Charged(s, k, pay.fee.value), CMD_OK, Some(text))
    else Out(Charged(s, k, pay.fee.value), CMD_ERR, None)
  }

  /** The commands users send by phone only tell whether the answer could be sent. */
  function CommandSent(o: Out): Out {
    o.(reply := if o.reply == CMD_OK then SUCCESS else ERROR)
  }

  /** Where a reply finds its request, |requests| when there is none. */
  function Position(requests: seq<BindRequest>, sn: nat): (i: nat)
    ensures i <= |requests|
    ensures forall j | 0 <= j < i :: requests[j].sn != sn
    ensures i < |requests| ==> requests[i].sn == sn
  {
    if requests == [] || requests[0].sn == sn then 0 else 1 + Position(requests[1..], sn)
  }

  function Erase(requests: seq<BindRequest>, i: nat): seq<BindRequest>
    requires i < |requests|
  {
    requests[..i] + requests[i + 1..]
  }

  /** A request the BBS has accepted: a pending row stays pending, a row in place is not replaced. */
  function Accepted(s: State, p: BindRequest, stored: bool): Out {
    var k := KeyOf(p.mobile, p.id);
    var sms := (t: Text) => if stored then Some(t) else None;
    if p.bind then
      if k in s.table then Out(s, SUCCESS, sms(AlreadyBound))
      else Out(WithRow(s, k, Fresh(s, "")), SUCCESS, sms(BindDone))
    else
      if k in s.table then Out(s.(table := s.table - {k}), SUCCESS, sms(UnbindDone)) else Out(s, SUCCESS, sms(NotBound))
  }

  function Answered(s: State, sn: nat, isSucceed: nat, stored: bool): Out {
    var i := Position(s.requests, sn);
    if i == |s.requests| then Out(s, SUCCESS, None)
    else
      var s' := s.(requests := Erase(s.requests, i));
      if isSucceed == 0 then Accepted(s', s.requests[i], stored)
      else if isSucceed == 1 then Out(s', SUCCESS, if stored then Some(NoSuchId) else None)
      else if isSucceed == 2 then Out(s', SUCCESS, if stored then Some(MobileDiffers) else None)
      else Out(s', SUCCESS, None)
  }

  /** The state in which a chargeable message is paid for. */
  function Prepared(s: State, e: Event): State {
    match e
    case Reg(mobile, id, newCode, _) =>
      var k := KeyOf(mobile, id);
      if Pending(s, k) then s else WithRow(s, k, Fresh(s, newCode))
    case SetLimit(mobile, id, limit, _) =>
      var k := KeyOf(mobile, id);
      if k in s.table then WithRow(s, k, s.table[k].(limit := limit)) else s
    case ZeroToday(mobile, id, _) =>
      var k := KeyOf(mobile, id);
      if k in s.table then WithRow(s, k, s.table[k].(today := 0)) else s
    case _ => s
  }

  function Cleared(table: map<Key, Row>): map<Key, Row> {
    map k | k in table :: table[k].(today := 0)
  }

  function Step(s: State, e: Event): Out {
    match e
    case Reg(mobile, id, _, pay) =>
      var k := KeyOf(mobile, id);
      SendChecked(Prepared(s, e), k, pay, CodeIs(Prepared(s, e).table[k].code))
    case Check(mobile, id, code) =>
      var k := KeyOf(mobile, id);
      if !Pending(s, k) then Out(s, CMD_NO_VALIDCODE, None)
      else if code != s.table[k].code then Out(s, CMD_ERR, None)
      else Out(WithRow(s, k, s.table[k].(code := "")), CMD_OK, None)
    case Unreg(mobile, id) => Out(s.(table := s.table - {KeyOf(mobile, id)}), CMD_OK, None)
    case BindReply(sn, isSucceed, stored) => Answered(s, sn, isSucceed, stored)
    case Send(mobile, id, pay) =>
      if Sendable(s, KeyOf(mobile, id)) then SendChecked(s, KeyOf(mobile, id), pay, UserText)
      else Out(s, CMD_SMS_VALIDATE_FAILED, None)
    case UserRequest(mobile, id, bind, sendOk) =>
      Out(s.(requests := s.requests + [BindRequest(s.serial, mobile, id, bind)], serial := s.serial + 1),
          if sendOk then SUCCESS else ERROR, None)
    case SetLimit(mobile, id, limit, pay) =>
      CommandSent(SendChecked(Prepared(s, e), KeyOf(mobile, id), pay, LimitSet(limit)))
    case ZeroToday(mobile, id, pay) =>
      CommandSent(SendChecked(Prepared(s, e), KeyOf(mobile, id), pay, TodayZeroed))
    case GetLimit(mobile, id, pay) =>
      var k := KeyOf(mobile, id);
      if k in s.table then CommandSent(SendChecked(s, k, pay, LimitIs(s.table[k].limit))) else Out(s, FAILED, None)
    case GetToday(mobile, id, pay) =>
      var k := KeyOf(mobile, id);
      if k in s.table then CommandSent(SendChecked(s, k, pay, TodayIs(s.table[k].today))) else Out(s, FAILED, None)
    case Deliver(sendOk) => Out(s.(serial := s.serial + 1), if sendOk then SUCCESS else ERROR, None)
    case DailyClear => Out(s.(table := Cleared(s.table)), SUCCESS, None)
  }

  // ---- runs ------------------------------------------------------------------------------------------

  function Initial(defaultLimit: int): State {
    State(map[], [], 0, defaultLimit)
  }

  /** The state after the events, starting from an empty table. */
  function After(d: int, es: seq<Event>): State {
    if es == [] then Initial(d) else Step(After(d, es[..|es| - 1]), es[|es| - 1]).state
  }

  // ---- who may send ------------------------------------------------------------------------------------

  /** A REG that issues a new code, because the key has no row or a validated one. */
  predicate IssuesCode(s: State, e: Event, k: Key) {
    e.Reg? && KeyOf(e.mobile, e.id) == k && !Pending(s, k)
  }

  /** The request that a reply accepts. */
  function AcceptedRequest(s: State, e: Event): Option<BindRequest> {
    if e.BindReply? && e.isSucceed == 0 && Position(s.requests, e.serial) < |s.requests|
    then Some(s.requests[Position(s.requests, e.serial)]) else None
  }

  predicate Binds(s: State, e: Event, k: Key) {
    var p := AcceptedRequest(s, e);
    p.Some? && p.value.bind && KeyOf(p.value.mobile, p.value.id) == k && k !in s.table
  }

  predicate Unbinds(s: State, e: Event, k: Key) {
    var p := AcceptedRequest(s, e);
    p.Some? && !p.value.bind && KeyOf(p.value.mobile, p.value.id) == k
  }

  predicate Validates(s: State, e: Event, k: Key) {
    e.Check? && KeyOf(e.mobile, e.id) == k && Pending(s, k) && e.code == s.table[k].code
  }

  predicate Removes(s: State, e: Event, k: Key) {
    (e.Unreg? && KeyOf(e.mobile, e.id) == k) || Unbinds(s, e, k)
  }

  predicate Grants(s: State, e: Event, k: Key) {
    Validates(s, e, k) || Binds(s, e, k)
  }

  predicate Revokes(s: State, e: Event, k: Key) {
    IssuesCode(s, e, k) || Removes(s, e, k)
  }

  /** Paying only touches the day's total. */
  lemma PayingKeepsTheRest(s: State, k: Key, pay: Payment, text: Text)
    ensures var s' := SendChecked(s, k, pay, text).state;
      && s'.requests == s.requests && s'.serial == s.serial && s'.defaultLimit == s.defaultLimit
      && s'.table.Keys == s.table.Keys
      && forall k' | k' in s.table :: s'.table[k'].code == s.table[k'].code && s'.table[k'].limit == s.table[k'].limit
  {
  }

  lemma PreparedRows(s: State, e: Event, k: Key)
    ensures k in Prepared(s, e).table <==> k in s.table || IssuesCode(s, e, k)
    ensures k in Prepared(s, e).table ==>
      Prepared(s, e).table[k].code == if IssuesCode(s, e, k) then e.newCode else s.table[k].code
  {
  }

  /** The effect of one event on who is validated, and on who is still to be. */
  lemma StepSendable(s: State, e: Event, k: Key)
    ensures Sendable(Step(s, e).state, k) <==> Grants(s, e, k) || (Sendable(s, k) && !Revokes(s, e, k))
    ensures Pending(Step(s, e).state, k) <==>
      IssuesCode(s, e, k) || (Pending(s, k) && !Removes(s, e, k) && !Validates(s, e, k))
    ensures Pending(Step(s, e).state, k) ==>
      Step(s, e).state.table[k].code == if IssuesCode(s, e, k) then e.newCode else s.table[k].code
  {
    if e.BindReply? {
      hide KeyOf;
    } else {
      hide SendChecked, Prepared, Answered, KeyOf;
      forall key, pay, text
        ensures SendChecked(Prepared(s, e), key, pay, text).state.table.Keys == Prepared(s, e).table.Keys
        ensures (k in Prepared(s, e).table ==>
          SendChecked(Prepared(s, e), key, pay, text).state.table[k].code == Prepared(s, e).table[k].code)
      {
        PayingKeepsTheRest(Prepared(s, e), key, pay, text);
      }
      PreparedRows(s, e, k);
      if e.Send? || e.GetLimit? || e.GetToday? {
        assert Prepared(s, e) == s by { PreparedIsSame(s, e); }
      }
    }
  }

  lemma PreparedIsSame(s: State, e: Event)
    requires !e.Reg? && !e.SetLimit? && !e.ZeroToday?
    ensures Prepared(s, e) == s
  {
  }

  /** Positions of a run at which something happened to a key. */
  predicate GrantedAt(d: int, es: seq<Event>, k: Key, p: nat) {
    p < |es| && Grants(After(d, es[..p]), es[p], k)
  }

  predicate RevokedAt(d: int, es: seq<Event>, k: Key, p: nat) {
    p < |es| && Revokes(After(d, es[..p]), es[p], k)
  }

  predicate IssuedAt(d: int, es: seq<Event>, k: Key, p: nat) {
    p < |es| && IssuesCode(After(d, es[..p]), es[p], k)
  }

  predicate UsedUpAt(d: int, es: seq<Event>, k: Key, p: nat) {
    p < |es| && (Removes(After(d, es[..p]), es[p], k) || Validates(After(d, es[..p]), es[p], k))
  }

  /** The key was validated or bound at `p` and has not lost that since. */
  predicate GrantedSince(d: int, es: seq<Event>, k: Key, p: nat) {
    GrantedAt(d, es, k, p) && forall q | p < q < |es| :: !RevokedAt(d, es, k, q)
  }

  /** The code issued at `p` has neither been used nor removed since. */
  predicate IssuedSince(d: int, es: seq<Event>, k: Key, p: nat) {
    IssuedAt(d, es, k, p) && forall q | p < q < |es| :: !UsedUpAt(d, es, k, q)
  }

  lemma AtPrefix(d: int, es: seq<Event>, k: Key, p: nat)
    requires p + 1 < |es|
    ensures var init := es[..|es| - 1];
      && GrantedAt(d, es, k, p) == GrantedAt(d, init, k, p) && RevokedAt(d, es, k, p) == RevokedAt(d, init, k, p)
      && IssuedAt(d, es, k, p) == IssuedAt(d, init, k, p) && UsedUpAt(d, es, k, p) == UsedUpAt(d, init, k, p)
  {
    hide Grants, Revokes, IssuesCode, Removes, Validates, After;
    assert es[..|es| - 1][..p] == es[..p];
  }

  /** Since-predicates over one more event. */
  lemma SinceSnoc(d: int, es: seq<Event>, k: Key, p: nat)
    requires es != []
    ensures var init, n := es[..|es| - 1], |es| - 1;
      && (p < n ==> GrantedSince(d, es, k, p) == (GrantedSince(d, init, k, p) && !RevokedAt(d, es, k, n)))
      && (p == n ==> GrantedSince(d, es, k, p) == GrantedAt(d, es, k, n))
      && (p < n ==> IssuedSince(d, es, k, p) == (IssuedSince(d, init, k, p) && !UsedUpAt(d, es, k, n)))
      && (p == n ==> IssuedSince(d, es, k, p) == IssuedAt(d, es, k, n))
  {
    hide GrantedAt, RevokedAt, IssuedAt, UsedUpAt;
    var init, n := es[..|es| - 1], |es| - 1;
    if p < n {
      AtPrefix(d, es, k, p);
    }
    forall q: nat | p < q < n ensures RevokedAt(d, es, k, q) == RevokedAt(d, init, k, q) {
      AtPrefix(d, es, k, q);
    }
    forall q: nat | p < q < n ensures UsedUpAt(d, es, k, q) == UsedUpAt(d, init, k, q) {
      AtPrefix(d, es, k, q);
    }
  }

  /** In every run from an empty table: a key may send exactly when it was validated or bound at some
      point and no new code, UNREG or unbind has come since. */
  lemma {:induction false} WhoMaySend(d: int, es: seq<Event>, k: Key)
    ensures Sendable(After(d, es), k) <==> exists p: nat :: p < |es| && GrantedSince(d, es, k, p)
  {
    hide Step, Sendable, Grants, Revokes, GrantedSince;
    if es == [] {
      NobodyYet(d, k);
    } else {
      var init, n := es[..|es| - 1], |es| - 1;
      WhoMaySend(d, init, k);
      StepSendable(After(d, init), es[n], k);
      GrantExcludesRevoke(After(d, init), es[n], k);
      if Grants(After(d, init), es[n], k) {
        SinceSnoc(d, es, k, n);
        assert GrantedSince(d, es, k, n);
      } else if p: nat :| p < n && GrantedSince(d, init, k, p) && Sendable(After(d, es), k) {
        SinceSnoc(d, es, k, p);
        assert GrantedSince(d, es, k, p);
      } else {
        forall p: nat | p < |es| ensures !GrantedSince(d, es, k, p) {
          SinceSnoc(d, es, k, p);
        }
      }
    }
  }

  lemma NobodyYet(d: int, k: Key)
    ensures !Sendable(After(d, []), k) && !Pending(After(d, []), k)
  {
  }

  lemma IssuedIsReg(d: int, es: seq<Event>, k: Key, p: nat)
    ensures IssuedSince(d, es, k, p) ==> p < |es| && es[p].Reg?
  {
    hide After;
  }

  lemma IssueExcludesUse(s: State, e: Event, k: Key)
    ensures IssuesCode(s, e, k) ==> !Pending(s, k) && !Removes(s, e, k) && !Validates(s, e, k)
  {
  }

  lemma GrantExcludesRevoke(s: State, e: Event, k: Key)
    ensures !(Grants(s, e, k) && Revokes(s, e, k))
  {
  }

  /** A key is waiting for exactly the code last issued to it. */
  lemma {:induction false} WaitsForLastCode(d: int, es: seq<Event>, k: Key, c: string)
    ensures Pending(After(d, es), k) && After(d, es).table[k].code == c
      <==> exists p: nat :: p < |es| && es[p].Reg? && es[p].newCode == c && IssuedSince(d, es, k, p)
  {
    hide Step, Pending, IssuesCode, Removes, Validates, IssuedSince;
    if es == [] {
      NobodyYet(d, k);
    } else {
      var init, n := es[..|es| - 1], |es| - 1;
      WaitsForLastCode(d, init, k, c);
      StepSendable(After(d, init), es[n], k);
      IssueExcludesUse(After(d, init), es[n], k);
      forall p: nat | p < n ensures es[p].Reg? && IssuedSince(d, init, k, p) ==> Pending(After(d, init), k) {
        if es[p].Reg? {
          WaitsForLastCode(d, init, k, es[p].newCode);
        }
      }
      forall p: nat | p < |es| ensures IssuedSince(d, es, k, p) ==> es[p].Reg? {
        IssuedIsReg(d, es, k, p);
        SinceSnoc(d, es, k, p);
      }
      if IssuesCode(After(d, init), es[n], k) {
        SinceSnoc(d, es, k, n);
        assert IssuedSince(d, es, k, n);
        forall p: nat | p < n ensures !IssuedSince(d, es, k, p) {
          SinceSnoc(d, es, k, p);
        }
      } else if p: nat :|
          p < n && init[p].Reg? && init[p].newCode == c && IssuedSince(d, init, k, p) && !UsedUpAt(d, es, k, n) {
        SinceSnoc(d, es, k, p);
        assert IssuedSince(d, es, k, p) && es[p].newCode == c;
      } else {
        forall p: nat | p < |es| && es[p].Reg? && es[p].newCode == c ensures !IssuedSince(d, es, k, p) {
          SinceSnoc(d, es, k, p);
          assert p < n ==> init[p] == es[p];
        }
      }
    }
  }

  /** A message from the BBS passes the registration check exactly when its number and id have a standing grant. */
  lemma SendNeedsGrant(d: int, es: seq<Event>, mobile: string, id: string, pay: Payment)
    ensures Step(After(d, es), Send(mobile, id, pay)).reply != CMD_SMS_VALIDATE_FAILED
      <==> exists p: nat :: p < |es| && GrantedSince(d, es, KeyOf(mobile, id), p)
  {
    hide After, GrantedSince, KeyOf;
    WhoMaySend(d, es, KeyOf(mobile, id));
  }

  /** CHECK succeeds with exactly the code that was issued last and is still unused. */
  lemma CheckNeedsLastCode(d: int, es: seq<Event>, mobile: string, id: string, code: string)
    ensures Step(After(d, es), Check(mobile, id, code)).reply == CMD_OK
      <==> exists p: nat :: p < |es| && es[p].Reg? && es[p].newCode == code && IssuedSince(d, es, KeyOf(mobile, id), p)
  {
    hide After, IssuedSince, KeyOf;
    WaitsForLastCode(d, es, KeyOf(mobile, id), code);
  }

  /** A reply to a bind request never makes a pending row sendable. */
  lemma BindDoesNotValidate(s: State, e: Event, k: Key)
    requires Pending(s, k) && e.BindReply?
    ensures !Sendable(Step(s, e).state, k)
  {
    StepSendable(s, e, k);
  }

  /** The code sent to the phone is the one, and the only one, that CHECK then accepts. */
  lemma MessageCarriesTheCode(s: State, e: Event, sent: string, code: string)
    requires e.Reg? && Step(s, e).sms == Some(CodeIs(sent))
    ensures Step(Step(s, e).state, Check(e.mobile, e.id, code)).reply == CMD_OK <==> code == sent
  {
    hide KeyOf;
  }

  /** Accepted bind requests are answered truthfully: "done" exactly when the row was made or taken
      away, and otherwise nothing has changed. */
  lemma BindAnswersAreTrue(s: State, e: Event, k: Key)
    requires e.BindReply? && e.stored && AcceptedRequest(s, e).Some?
    requires k == KeyOf(AcceptedRequest(s, e).value.mobile, AcceptedRequest(s, e).value.id)
    ensures var o := Step(s, e);
      && o.sms.Some?
      && (o.sms.value == BindDone <==> Binds(s, e, k))
      && (o.sms.value == BindDone ==> Sendable(o.state, k))
      && (o.sms.value == UnbindDone <==> Unbinds(s, e, k) && k in s.table)
      && (o.sms.value == UnbindDone ==> k !in o.state.table)
      && (o.sms.value != BindDone && o.sms.value != UnbindDone ==> o.state.table == s.table)
  {
    hide KeyOf;
  }

  // ---- the money ---------------------------------------------------------------------------------------

  /** The row starts a new total. */
  predicate Resets(s: State, e: Event, k: Key) {
    IssuesCode(s, e, k) || Binds(s, e, k) || e.DailyClear? || (e.ZeroToday? && KeyOf(e.mobile, e.id) == k)
  }

  /** Who pays for the message that an event would store, if anyone. */
  function Payer(s: State, e: Event): Option<(Key, Payment)> {
    match e
    case Reg(mobile, id, _, pay) => Some((KeyOf(mobile, id), pay))
    case Send(mobile, id, pay) => if Sendable(s, KeyOf(mobile, id)) then Some((KeyOf(mobile, id), pay)) else None
    case SetLimit(mobile, id, _, pay) => Some((KeyOf(mobile, id), pay))
    case ZeroToday(mobile, id, pay) => Some((KeyOf(mobile, id), pay))
    case GetLimit(mobile, id, pay) => if KeyOf(mobile, id) in s.table then Some((KeyOf(mobile, id), pay)) else None
    case GetToday(mobile, id, pay) => if KeyOf(mobile, id) in s.table then Some((KeyOf(mobile, id), pay)) else None
    case _ => None
  }

  /** The event charges `k`. */
  predicate Pays(s: State, e: Event, k: Key) {
    var p := Payer(s, e);
    p.Some? && p.value.0 == k && p.value.1.fee.Some? && Affordable(Prepared(s, e), k, p.value.1.fee.value)
  }

  function Charge(s: State, e: Event, k: Key): nat {
    if Pays(s, e, k) then Payer(s, e).value.1.fee.value else 0
  }

  lemma SendCheckedToday(s: State, k: Key, pay: Payment, text: Text, k': Key)
    requires k' in s.table
    ensures var row := SendChecked(s, k, pay, text).state.table[k'];
      var paid := k' == k && pay.fee.Some? && Affordable(s, k, pay.fee.value);
      && row.today == s.table[k'].today + (if paid then pay.fee.value else 0)
      && (paid ==> row.today <= row.limit)
  {
  }

  lemma PreparedToday(s: State, e: Event, k: Key)
    requires k in Prepared(s, e).table && !e.DailyClear? && !e.BindReply?
    ensures Resets(s, e, k) || k in s.table
    ensures Prepared(s, e).table[k].today == if Resets(s, e, k) then 0 else s.table[k].today
  {
  }

  lemma StepIsSendChecked(s: State, e: Event)
    requires Payer(s, e).Some?
    ensures exists text ::
      Step(s, e).state == SendChecked(Prepared(s, e), Payer(s, e).value.0, Payer(s, e).value.1, text).state
  {
    hide KeyOf, SendChecked;
    match e
    case Reg(mobile, id, _, pay) =>
      var t := CodeIs(Prepared(s, e).table[KeyOf(mobile, id)].code);
      assert Step(s, e).state == SendChecked(Prepared(s, e), KeyOf(mobile, id), pay, t).state;
    case Send(mobile, id, pay) =>
      assert Step(s, e).state == SendChecked(Prepared(s, e), KeyOf(mobile, id), pay, UserText).state;
    case SetLimit(mobile, id, limit, pay) =>
      assert Step(s, e).state == SendChecked(Prepared(s, e), KeyOf(mobile, id), pay, LimitSet(limit)).state;
    case ZeroToday(mobile, id, pay) =>
      assert Step(s, e).state == SendChecked(Prepared(s, e), KeyOf(mobile, id), pay, TodayZeroed).state;
    case GetLimit(mobile, id, pay) =>
      var t := LimitIs(s.table[KeyOf(mobile, id)].limit);
      assert Step(s, e).state == SendChecked(Prepared(s, e), KeyOf(mobile, id), pay, t).state;
    case GetToday(mobile, id, pay) =>
      var t := TodayIs(s.table[KeyOf(mobile, id)].today);
      assert Step(s, e).state == SendChecked(Prepared(s, e), KeyOf(mobile, id), pay, t).state;
  }

  /** One event adds its charge to the total, after starting a new one if it does; and a charge
      leaves the total within the limit of the row. */
  lemma StepToday(s: State, e: Event, k: Key)
    requires k in Step(s, e).state.table
    ensures Resets(s, e, k) || k in s.table
    ensures Step(s, e).state.table[k].today == (if Resets(s, e, k) then 0 else s.table[k].today) + Charge(s, e, k)
    ensures Pays(s, e, k) ==> Step(s, e).state.table[k].today <= Step(s, e).state.table[k].limit
  {
    if Payer(s, e).Some? {
      hide Payer, Prepared, SendChecked, Resets, Step, Affordable, KeyOf;
      var (key, pay) := Payer(s, e).value;
      PayerPays(s, e);
      StepIsSendChecked(s, e);
      var text :| Step(s, e).state == SendChecked(Prepared(s, e), key, pay, text).state;
      PayingKeepsTheRest(Prepared(s, e), key, pay, text);
      PreparedToday(s, e, k);
      SendCheckedToday(Prepared(s, e), key, pay, text, k);
    } else {
      hide KeyOf;
    }
  }

  lemma PayerPays(s: State, e: Event)
    requires Payer(s, e).Some?
    ensures !e.DailyClear? && !e.BindReply?
  {
  }

  /** A message that is not the answer to a bind request is stored exactly when it has been paid for
      and the spool accepts it. */
  lemma StoredIsPaid(s: State, e: Event)
    requires !e.BindReply?
    ensures Step(s, e).sms.Some? <==> Payer(s, e).Some? && Payer(s, e).value.1.stored && Pays(s, e, Payer(s, e).value.0)
  {
    hide KeyOf;
  }

  /** The charges to a key since its total was last reset. */
  function SumSince(d: int, es: seq<Event>, k: Key): nat {
    if es == [] then 0
    else
      var s, e := After(d, es[..|es| - 1]), es[|es| - 1];
      (if Resets(s, e, k) then 0 else SumSince(d, es[..|es| - 1], k)) + Charge(s, e, k)
  }

  /** The largest limit of a key since its total was last reset, or 0. */
  function PeakSince(d: int, es: seq<Event>, k: Key): nat {
    if es == [] then 0
    else
      var s, e := After(d, es[..|es| - 1]), es[|es| - 1];
      var peak := if Resets(s, e, k) then 0 else PeakSince(d, es[..|es| - 1], k);
      var s' := Step(s, e).state;
      if k in s'.table && s'.table[k].limit > peak then s'.table[k].limit else peak
  }

  /** In every run from an empty table the day's total of a row is the sum of what was charged since
      the last reset, and never exceeds the largest limit the row has had since. */
  lemma {:induction false} TodayIsTheSum(d: int, es: seq<Event>, k: Key)
    requires k in After(d, es).table
    ensures After(d, es).table[k].today == SumSince(d, es, k)
    ensures 0 <= After(d, es).table[k].today <= PeakSince(d, es, k)
  {
    hide Step, Resets, Charge, Pays;
    if es != [] {
      var init, e := es[..|es| - 1], es[|es| - 1];
      StepToday(After(d, init), e, k);
      NoChargeUnlessPaid(After(d, init), e, k);
      if !Resets(After(d, init), e, k) {
        TodayIsTheSum(d, init, k);
      }
    } else {
      NoRows(d, k);
    }
  }

  /** So a total that is not zero was within a limit the row had at some moment since its last reset. */
  lemma {:induction false} TodayWasWithinALimit(d: int, es: seq<Event>, k: Key) returns (q: nat)
    requires k in After(d, es).table && After(d, es).table[k].today != 0
    ensures q <= |es| && k in After(d, es[..q]).table
    ensures After(d, es).table[k].today <= After(d, es[..q]).table[k].limit
    ensures forall r | q <= r < |es| :: !Resets(After(d, es[..r]), es[r], k)
    decreases |es|
  {
    hide Step, Resets, Charge, Pays;
    q := |es|;
    assert es[..|es|] == es;
    if es == [] {
      NoRows(d, k);
    } else {
      var init, n := es[..|es| - 1], |es| - 1;
      StepToday(After(d, init), es[n], k);
      NoChargeUnlessPaid(After(d, init), es[n], k);
      if !Pays(After(d, init), es[n], k) {
        q := TodayWasWithinALimit(d, init, k);
        assert init[..q] == es[..q];
        forall r | q <= r < |es| ensures !Resets(After(d, es[..r]), es[r], k) {
          if r < n {
            assert init[..r] == es[..r] && init[r] == es[r];
          }
        }
      }
    }
  }

  lemma NoRows(d: int, k: Key)
    ensures k !in After(d, []).table
  {
  }

  lemma NoChargeUnlessPaid(s: State, e: Event, k: Key)
    ensures !Pays(s, e, k) ==> Charge(s, e, k) == 0
  {
    hide Pays;
  }

  /** What GetToday reports is the sum of the charges so far. */
  lemma ReportedTotalIsTheSum(d: int, es: seq<Event>, e: Event, total: int)
    requires e.GetToday? && Step(After(d, es), e).sms == Some(TodayIs(total))
    ensures total == SumSince(d, es, KeyOf(e.mobile, e.id))
  {
    hide After, SumSince, KeyOf;
    TodayIsTheSum(d, es, KeyOf(e.mobile, e.id));
  }

  /** The limit last set for a key since its row was made, or the default one. */
  function LastLimit(d: int, es: seq<Event>, k: Key): int {
    if es == [] then d
    else
      var s, e := After(d, es[..|es| - 1]), es[|es| - 1];
      if e.SetLimit? && KeyOf(e.mobile, e.id) == k && k in s.table then e.limit
      else if IssuesCode(s, e, k) || Binds(s, e, k) then d
      else LastLimit(d, es[..|es| - 1], k)
  }

  lemma PreparedLimit(s: State, e: Event, k: Key)
    requires k in Prepared(s, e).table
    ensures Prepared(s, e).table[k].limit
      == if e.SetLimit? && KeyOf(e.mobile, e.id) == k then e.limit
         else if IssuesCode(s, e, k) then s.defaultLimit else s.table[k].limit
    ensures Prepared(s, e).defaultLimit == s.defaultLimit
  {
  }

  lemma StepLimit(s: State, e: Event, k: Key)
    requires k in Step(s, e).state.table
    ensures Step(s, e).state.table[k].limit
      == if e.SetLimit? && KeyOf(e.mobile, e.id) == k then e.limit
         else if IssuesCode(s, e, k) || Binds(s, e, k) then s.defaultLimit else s.table[k].limit
    ensures IssuesCode(s, e, k) || Binds(s, e, k) || k in s.table
  {
    if Payer(s, e).Some? {
      hide Payer, SendChecked, Step, KeyOf, Prepared;
      var (key, pay) := Payer(s, e).value;
      PayerPays(s, e);
      StepIsSendChecked(s, e);
      var text :| Step(s, e).state == SendChecked(Prepared(s, e), key, pay, text).state;
      PayingKeepsTheRest(Prepared(s, e), key, pay, text);
      PreparedRows(s, e, k);
      PreparedLimit(s, e, k);
    } else {
      hide KeyOf;
    }
  }

  lemma StepKeepsDefault(s: State, e: Event)
    ensures Step(s, e).state.defaultLimit == s.defaultLimit
  {
    hide KeyOf;
  }

  /** In every run the limit of a row is the one last set since the row was made, or the default. */
  lemma {:induction false} LimitIsTheLastSet(d: int, es: seq<Event>, k: Key)
    ensures After(d, es).defaultLimit == d
    ensures k in After(d, es).table ==> After(d, es).table[k].limit == LastLimit(d, es, k)
  {
    hide Step, IssuesCode, Binds, KeyOf;
    if es != [] {
      var init, e := es[..|es| - 1], es[|es| - 1];
      LimitIsTheLastSet(d, init, k);
      StepKeepsDefault(After(d, init), e);
      if k in After(d, es).table {
        StepLimit(After(d, init), e, k);
        SetLimitMakesNoRow(After(d, init), e, k);
      }
    } else {
      NoRows(d, k);
    }
  }

  lemma SetLimitMakesNoRow(s: State, e: Event, k: Key)
    ensures e.SetLimit? ==> !IssuesCode(s, e, k) && !Binds(s, e, k)
  {
  }

  /** What GetLimit reports is the limit last set. */
  lemma ReportedLimitIsTheLastSet(d: int, es: seq<Event>, e: Event, limit: int)
    requires e.GetLimit? && Step(After(d, es), e).sms == Some(LimitIs(limit))
    ensures limit == LastLimit(d, es, KeyOf(e.mobile, e.id))
  {
    hide After, LastLimit, KeyOf;
    LimitIsTheLastSet(d, es, KeyOf(e.mobile, e.id));
  }

  // ---- the outstanding bind requests -----------------------------------------------------------------

  /** Serial numbers rise and have all been given out. */
  predicate Ordered(requests: seq<BindRequest>, serial: nat) {
    && (forall i, j | 0 <= i < j < |requests| :: requests[i].sn < requests[j].sn)
    && (forall i | 0 <= i < |requests| :: requests[i].sn < serial)
  }

  predicate Finds(s: State, e: Event) {
    e.BindReply? && Position(s.requests, e.serial) < |s.requests|
  }

  function IssuedBy(s: State, e: Event): seq<BindRequest> {
    if e.UserRequest? then [BindRequest(s.serial, e.mobile, e.id, e.bind)] else []
  }

  function RepliedBy(s: State, e: Event): seq<BindRequest> {
    if Finds(s, e) then [s.requests[Position(s.requests, e.serial)]] else []
  }

  /** The requests sent to the BBS in a run, and those it has answered. */
  function Issued(d: int, es: seq<Event>): seq<BindRequest> {
    if es == [] then []
    else
      var s, e := After(d, es[..|es| - 1]), es[|es| - 1];
      Issued(d, es[..|es| - 1]) + IssuedBy(s, e)
  }

  function Replied(d: int, es: seq<Event>): seq<BindRequest> {
    if es == [] then []
    else
      var s, e := After(d, es[..|es| - 1]), es[|es| - 1];
      Replied(d, es[..|es| - 1]) + RepliedBy(s, e)
  }

  /** The list of requests after one event. */
  function RequestsAfter(s: State, e: Event): seq<BindRequest> {
    if e.UserRequest? then s.requests + [BindRequest(s.serial, e.mobile, e.id, e.bind)]
    else if Finds(s, e) then Erase(s.requests, Position(s.requests, e.serial))
    else s.requests
  }

  lemma StepRequests(s: State, e: Event)
    ensures Step(s, e).state.requests == RequestsAfter(s, e)
    ensures Step(s, e).state.serial == s.serial + if e.UserRequest? || e.Deliver? then 1 else 0
  {
    hide KeyOf;
    if Payer(s, e).Some? {
      StepIsSendChecked(s, e);
      var (k, pay) := Payer(s, e).value;
      var text :| Step(s, e).state == SendChecked(Prepared(s, e), k, pay, text).state;
      hide Step, SendChecked;
      PayingKeepsTheRest(Prepared(s, e), k, pay, text);
    }
  }

  /** A reply takes out its own request and no other, and one for an unknown serial does nothing at all. */
  lemma ReplyTakesItsRequest(s: State, e: Event)
    requires e.BindReply? && Ordered(s.requests, s.serial)
    ensures forall r :: r in Step(s, e).state.requests <==> r in s.requests && r.sn != e.serial
    ensures (forall r | r in s.requests :: r.sn != e.serial) ==> Step(s, e).state == s
    ensures Ordered(Step(s, e).state.requests, s.serial)
  {
    StepRequests(s, e);
    var i := Position(s.requests, e.serial);
    if i < |s.requests| {
      hide Step;
      assert s.requests[i] in s.requests;
      ErasedElements(s.requests, i);
    }
  }

  lemma ErasedElements(q: seq<BindRequest>, i: nat)
    requires i < |q| && forall j, k | 0 <= j < k < |q| :: q[j].sn < q[k].sn
    ensures forall r :: r in Erase(q, i) <==> r in q && r.sn != q[i].sn
    ensures forall j, k | 0 <= j < k < |q| - 1 :: Erase(q, i)[j].sn < Erase(q, i)[k].sn
  {
    var z := Erase(q, i);
    forall j | 0 <= j < |q| && j != i ensures q[j] in z {
      assert q[j] == z[if j < i then j else j - 1];
    }
  }

  lemma NothingOutstanding()
    ensures Ordered([], 0) && Balanced([], [], [])
  {
  }

  lemma OrderedSnoc(q: seq<BindRequest>, serial: nat, mobile: string, id: string, bind: bool)
    requires Ordered(q, serial)
    ensures Ordered(q + [BindRequest(serial, mobile, id, bind)], serial + 1)
  {
  }

  lemma OrderedLater(q: seq<BindRequest>, serial: nat)
    requires Ordered(q, serial)
    ensures Ordered(q, serial + 1)
  {
  }

  lemma OrderedErases(q: seq<BindRequest>, serial: nat, i: nat)
    requires Ordered(q, serial) && i < |q|
    ensures Ordered(Erase(q, i), serial)
    ensures multiset(q) == multiset(Erase(q, i)) + multiset([q[i]])
  {
    ErasedElements(q, i);
    assert q == q[..i] + [q[i]] + q[i + 1..];
  }

  lemma FindsOnlyReplies(s: State, e: Event)
    ensures Finds(s, e) ==> e.BindReply? && Position(s.requests, e.serial) < |s.requests|
  {
  }

  /** Every request issued has been answered or is outstanding, exactly once. */
  predicate Balanced(issued: seq<BindRequest>, replied: seq<BindRequest>, outstanding: seq<BindRequest>) {
    multiset(issued) == multiset(replied) + multiset(outstanding)
  }

  lemma BalancedSnoc(a: seq<BindRequest>, b: seq<BindRequest>, c: seq<BindRequest>, r: BindRequest)
    requires Balanced(a, b, c)
    ensures Balanced(a + [r], b, c + [r])
  {
  }

  lemma BalancedMove(a: seq<BindRequest>, b: seq<BindRequest>, c: seq<BindRequest>, i: nat)
    requires Balanced(a, b, c) && i < |c| && multiset(c) == multiset(Erase(c, i)) + multiset([c[i]])
    ensures Balanced(a, b + [c[i]], Erase(c, i))
  {
    hide Erase;
  }

  lemma StepAccounts(s: State, e: Event, issued: seq<BindRequest>, replied: seq<BindRequest>)
    requires Ordered(s.requests, s.serial) && Ordered(issued, s.serial) && Balanced(issued, replied, s.requests)
    ensures var s' := Step(s, e).state;
      && Ordered(s'.requests, s'.serial) && Ordered(issued + IssuedBy(s, e), s'.serial)
      && Balanced(issued + IssuedBy(s, e), replied + RepliedBy(s, e), s'.requests)
  {
    hide Step, Ordered, Finds, Erase, Balanced;
    StepRequests(s, e);
    FindsOnlyReplies(s, e);
    assert issued + [] == issued && replied + [] == replied;
    if e.UserRequest? {
      OrderedSnoc(s.requests, s.serial, e.mobile, e.id, e.bind);
      OrderedSnoc(issued, s.serial, e.mobile, e.id, e.bind);
      BalancedSnoc(issued, replied, s.requests, BindRequest(s.serial, e.mobile, e.id, e.bind));
    } else if Finds(s, e) {
      var i := Position(s.requests, e.serial);
      OrderedErases(s.requests, s.serial, i);
      BalancedMove(issued, replied, s.requests, i);
    } else {
      OrderedLater(s.requests, s.serial);
      OrderedLater(issued, s.serial);
    }
  }

  lemma {:induction false} AccountsHold(d: int, es: seq<Event>)
    ensures Ordered(After(d, es).requests, After(d, es).serial)
    ensures Ordered(Issued(d, es), After(d, es).serial)
    ensures Balanced(Issued(d, es), Replied(d, es), After(d, es).requests)
  {
    hide Step, Ordered, Finds, Erase, Balanced, RequestsAfter;
    if es == [] {
      NothingOutstanding();
    } else {
      var init, e := es[..|es| - 1], es[|es| - 1];
      var s := After(d, init);
      AccountsHold(d, init);
      StepRequests(s, e);
      StepAccounts(s, e, Issued(d, init), Replied(d, init));
    }
  }

  /** In every run: the outstanding serials rise and are below the next one; every request issued is
      either answered or outstanding, once; and no serial is ever issued twice, so that each
      request is answered at most once. */
  lemma RequestsAreAccountedFor(d: int, es: seq<Event>)
    ensures var outstanding := After(d, es).requests;
      && (forall i, j | 0 <= i < j < |outstanding| :: outstanding[i].sn < outstanding[j].sn)
      && (forall i | 0 <= i < |outstanding| :: outstanding[i].sn < After(d, es).serial)
      && multiset(Issued(d, es)) == multiset(Replied(d, es)) + multiset(outstanding)
    ensures forall i, j | 0 <= i < j < |Issued(d, es)| :: Issued(d, es)[i].sn < Issued(d, es)[j].sn
  {
    hide After, Issued, Replied;
    AccountsHold(d, es);
  }

  lemma {:induction false} AtMostOnce(q: seq<BindRequest>, r: BindRequest)
    requires forall i, j | 0 <= i < j < |q| :: q[i].sn < q[j].sn
    ensures multiset(q)[r] <= 1
    ensures r in multiset(q) ==> exists i :: 0 <= i < |q| && q[i] == r
  {
    if q != [] {
      var init, last := q[..|q| - 1], q[|q| - 1];
      AtMostOnce(init, r);
      assert q == init + [last];
    }
  }

  lemma SerialsApart(all: seq<BindRequest>, a: seq<BindRequest>, b: seq<BindRequest>, serial: nat,
                     r: BindRequest, t: BindRequest)
    requires Ordered(all, serial) && Balanced(all, a, b) && r in a && t in b
    ensures r.sn != t.sn
  {
    AtMostOnce(all, r);
    assert r in multiset(a) && t in multiset(b);
    if r != t {
      assert r in multiset(all) && t in multiset(all);
      var i :| 0 <= i < |all| && all[i] == r;
      var j :| 0 <= j < |all| && all[j] == t;
      assert i != j;
    }
  }

  lemma IssuedWhen(d: int, es: seq<Event>, r: BindRequest) returns (q: nat)
    requires r in Issued(d, es)
    ensures q < |es| && es[q].UserRequest? && After(d, es[..q]).serial == r.sn
    ensures es[q].mobile == r.mobile && es[q].id == r.id && es[q].bind == r.bind
    decreases |es|
  {
    hide Step;
    var init, n := es[..|es| - 1], |es| - 1;
    if r in Issued(d, init) {
      q := IssuedWhen(d, init, r);
      assert init[..q] == es[..q];
    } else {
      q := n;
    }
  }

  /** An outstanding request was sent by a user in this run. */
  lemma OutstandingWhen(d: int, es: seq<Event>, r: BindRequest) returns (q: nat)
    requires r in After(d, es).requests
    ensures q < |es| && es[q].UserRequest? && After(d, es[..q]).serial == r.sn
    ensures es[q].mobile == r.mobile && es[q].id == r.id && es[q].bind == r.bind
  {
    hide After, Issued, Ordered;
    AccountsHold(d, es);
    assert r in multiset(After(d, es).requests);
    assert r in multiset(Issued(d, es));
    q := IssuedWhen(d, es, r);
  }

  lemma StillGranted(d: int, es: seq<Event>, k: Key, p: nat, r: nat)
    requires p < r < |es| && GrantedSince(d, es, k, p)
    ensures Sendable(After(d, es[..r]), k) && !Revokes(After(d, es[..r]), es[r], k)
  {
    hide After, Grants, Revokes, Sendable;
    assert !RevokedAt(d, es, k, r);
    var pre := es[..r];
    assert pre[..p] == es[..p];
    forall q | p < q < r ensures !RevokedAt(d, pre, k, q) {
      assert pre[..q] == es[..q];
      assert !RevokedAt(d, es, k, q);
    }
    assert GrantedSince(d, pre, k, p);
    WhoMaySend(d, pre, k);
  }

  /** What stands behind a message that passes the registration check, in terms of the events alone:
      a CHECK for this very mobile number and id with a code that an earlier REG for them issued, or
      an accepted reply to a bind request they sent themselves; and since then no UNREG for them and
      no REG. */
  lemma AcceptedSendHasReason(d: int, es: seq<Event>, mobile: string, id: string, pay: Payment)
    returns (p: nat, q: nat)
    requires Step(After(d, es), Send(mobile, id, pay)).reply != CMD_SMS_VALIDATE_FAILED
    ensures q < p < |es|
    ensures
      || (&& es[p].Check? && es[p].mobile == mobile && SameId(es[p].id, id)
          && es[q].Reg? && es[q].mobile == mobile && SameId(es[q].id, id) && es[q].newCode == es[p].code)
      || (&& es[p].BindReply? && es[p].isSucceed == 0 && es[p].serial == After(d, es[..q]).serial
          && es[q].UserRequest? && es[q].bind && es[q].mobile == mobile && SameId(es[q].id, id))
    ensures forall r | p < r < |es| ::
      !((es[r].Unreg? || es[r].Reg?) && es[r].mobile == mobile && SameId(es[r].id, id))
  {
    var k := KeyOf(mobile, id);
    hide After, KeyOf, SameId;
    SendNeedsGrant(d, es, mobile, id, pay);
    p :| p < |es| && GrantedSince(d, es, k, p);
    var pre, e := es[..p], es[p];
    if Validates(After(d, pre), e, k) {
      SameKey(e.mobile, e.id, mobile, id);
      WaitsForLastCode(d, pre, k, e.code);
      q :| q < p && pre[q].Reg? && pre[q].newCode == e.code && IssuedSince(d, pre, k, q);
      SameKey(es[q].mobile, es[q].id, mobile, id);
    } else {
      var request := AcceptedRequest(After(d, pre), e).value;
      SameKey(request.mobile, request.id, mobile, id);
      q := OutstandingWhen(d, pre, request);
      assert pre[..q] == es[..q];
    }
    forall r | p < r < |es|
      ensures !((es[r].Unreg? || es[r].Reg?) && es[r].mobile == mobile && SameId(es[r].id, id))
    {
      StillGranted(d, es, k, p, r);
      if es[r].Unreg? || es[r].Reg? {
        SameKey(es[r].mobile, es[r].id, mobile, id);
      }
    }
  }

  /** And a number that is registered, validated with the code it was sent, may send at once, under
      any spelling of its id. */
  lemma RegisteredMaySend(s: State, reg: Event, check: Event, send: Event, code: string)
    requires reg.Reg? && Step(s, reg).sms == Some(CodeIs(code))
    requires check.Check? && check.mobile == reg.mobile && SameId(check.id, reg.id) && check.code == code
    requires send.Send? && send.mobile == reg.mobile && SameId(send.id, reg.id)
    ensures Step(Step(Step(s, reg).state, check).state, send).reply != CMD_SMS_VALIDATE_FAILED
  {
    hide KeyOf, SameId;
    SameKey(check.mobile, check.id, reg.mobile, reg.id);
    SameKey(send.mobile, send.id, reg.mobile, reg.id);
  }

  /** Once a request is answered its serial is unknown: another reply to it changes nothing. */
  lemma AnsweredForGood(d: int, es: seq<Event>, r: BindRequest, isSucceed: nat, stored: bool)
    requires r in Replied(d, es)
    ensures Step(After(d, es), BindReply(r.sn, isSucceed, stored)).state == After(d, es)
  {
    var s := After(d, es);
    AccountsHold(d, es);
    hide After, Replied, Issued, Answered, Step, IssuedBy;
    forall t | t in s.requests ensures t.sn != r.sn {
      SerialsApart(Issued(d, es), Replied(d, es), s.requests, s.serial, r, t);
    }
    ReplyTakesItsRequest(s, BindReply(r.sn, isSucceed, stored));
  }

  // ---- the gateway process ---------------------------------------------------------------------------------

  /** CSMSBBSChildProtocol with its database table. */
  class Gateway {
    var table: map<Key, Row>
    var serial: nat
    var requestList: seq<BindRequest>
    const defaultMoneyLimit: int

    function View(): State
      reads this
    {
      State(table, requestList, serial, defaultMoneyLimit)
    }

    constructor (defaultMoneyLimit: int)
      ensures View() == Initial(defaultMoneyLimit)
      ensures table == map[] && requestList == [] && serial == 0
    {
      table, serial, requestList := map[], 0, [];
      this.defaultMoneyLimit := defaultMoneyLimit;
    }

    method GetSerial() returns (n: nat)
      modifies `serial
      ensures n == old(serial) && serial == n + 1
    {
      n := serial;
      serial := serial + 1;
    }

    method CountMoney(k: Key, feeMoney: nat) returns (reply: Reply)
      modifies `table
      ensures reply == if Affordable(old(View()), k, feeMoney) then CMD_OK else CMD_EXCEEDMONEY_LIMIT
      ensures View() == if reply == CMD_OK then Charged(old(View()), k, feeMoney) else old(View())
      ensures reply == CMD_OK <==> k in old(table) && old(table)[k].today + feeMoney <= old(table)[k].limit
      ensures reply == CMD_OK || (reply == CMD_EXCEEDMONEY_LIMIT && table == old(table))
      ensures reply == CMD_OK ==> table == old(table)[k := old(table)[k].(today := old(table)[k].today + feeMoney)]
    {
      if k in table && table[k].today + feeMoney <= table[k].limit {
        table := table[k := table[k].(today := table[k].today + feeMoney)];
        return CMD_OK;
      }
      return CMD_EXCEEDMONEY_LIMIT;
    }

    /** sendSMS with the check on; the message is stored last. */
    method SendSMS(k: Key, pay: Payment, text: Text) returns (reply: Reply, sms: Option<Text>)
      modifies `table
      ensures Out(View(), reply, sms) == SendChecked(old(View()), k, pay, text)
      ensures reply == CMD_DB_ERROR <==> pay.fee.None?
      ensures reply in {CMD_DB_ERROR, CMD_EXCEEDMONEY_LIMIT} ==> table == old(table)
      ensures reply in {CMD_OK, CMD_ERR} <==>
        pay.fee.Some? && k in old(table) && old(table)[k].today + pay.fee.value <= old(table)[k].limit
      ensures reply in {CMD_OK, CMD_ERR} ==>
        table == old(table)[k := old(table)[k].(today := old(table)[k].today + pay.fee.value)]
      ensures reply in {CMD_OK, CMD_ERR} ==> (reply == CMD_OK <==> pay.stored)
      ensures sms == if reply == CMD_OK then Some(text) else None
      ensures reply in {CMD_OK, CMD_ERR, CMD_DB_ERROR, CMD_EXCEEDMONEY_LIMIT}
    {
      if pay.fee.None? {
        return CMD_DB_ERROR, None;
      }
      reply := CountMoney(k, pay.fee.value);
      if reply != CMD_OK {
        return reply, None;
      }
      if pay.stored {
        return CMD_OK, Some(text);
      }
      return CMD_ERR, None;
    }

    /** getValidateNum: an unused code is given out again, otherwise the row is replaced. */
    method GetValidateNum(k: Key, generated: NewCode) returns (code: ValidateNo)
      modifies `table
      ensures k in table && code == table[k].code
      ensures table == if k in old(table) && old(table)[k].code != "" then old(table)
        else old(table)[k := Row(generated, defaultMoneyLimit, 0)]
      ensures View() == if Pending(old(View()), k) then old(View())
        else WithRow(old(View()), k, Fresh(old(View()), generated))
    {
      if k in table && table[k].code != "" {
        return table[k].code;
      }
      table := table[k := Row(generated, defaultMoneyLimit, 0)];
      return generated;
    }

    method DoSendRegisterSMS(mobile: string, id: string, generated: NewCode, pay: Payment)
      returns (reply: Reply, sms: Option<Text>)
      modifies `table
      ensures Out(View(), reply, sms) == Step(old(View()), Reg(mobile, id, generated, pay))
      ensures var k := KeyOf(mobile, id);
        var row := if k in old(table) && old(table)[k].code != "" then old(table)[k]
                   else Row(generated, defaultMoneyLimit, 0);
        var paid := pay.fee.Some? && row.today + pay.fee.value <= row.limit;
        && table == old(table)[k := if paid then row.(today := row.today + pay.fee.value) else row]
        && (sms.Some? <==> paid && pay.stored) && (sms.Some? ==> sms.value == CodeIs(row.code))
    {
      hide KeyOf, SendChecked;
      var code := GetValidateNum(KeyOf(mobile, id), generated);
      reply, sms := SendSMS(KeyOf(mobile, id), pay, CodeIs(code));
    }

    method DoRegisterValidation(mobile: string, id: string, code: string) returns (reply: Reply)
      modifies `table
      ensures Out(View(), reply, None) == Step(old(View()), Check(mobile, id, code))
      ensures var k := KeyOf(mobile, id);
        if k !in old(table) || old(table)[k].code == "" then reply == CMD_NO_VALIDCODE && table == old(table)
        else if code != old(table)[k].code then reply == CMD_ERR && table == old(table)
        else reply == CMD_OK && table == old(table)[k := old(table)[k].(code := "")]
    {
      var k := KeyOf(mobile, id);
      hide KeyOf;
      if k in table && table[k].code != "" {
        if code != table[k].code {
          return CMD_ERR;
        }
        table := table[k := table[k].(code := "")];
        return CMD_OK;
      }
      return CMD_NO_VALIDCODE;
    }

    method DoUnregister(mobile: string, id: string) returns (reply: Reply)
      modifies `table
      ensures Out(View(), reply, None) == Step(old(View()), Unreg(mobile, id))
      ensures reply == CMD_OK && table == old(table) - {KeyOf(mobile, id)}
    {
      var k := KeyOf(mobile, id);
      hide KeyOf;
      if k in table {
        table := table - {k};
      }
      return CMD_OK;
    }

    method DoRegisterSMS(k: Key) returns (inserted: bool)
      modifies `table
      ensures inserted <==> k !in old(table)
      ensures View() == if inserted then WithRow(old(View()), k, Fresh(old(View()), "")) else old(View())
      ensures table == if inserted then old(table)[k := Row("", defaultMoneyLimit, 0)] else old(table)
    {
      if k in table {
        return false;
      }
      table := table[k := Row("", defaultMoneyLimit, 0)];
      return true;
    }

    method DoUnregisterSMS(k: Key) returns (deleted: bool)
      modifies `table
      ensures deleted <==> k in old(table)
      ensures table == old(table) - {k}
    {
      if k in table {
        table := table - {k};
        return true;
      }
      return false;
    }

    /** The search and removal in doReplyRegisterRequest. */
    method TakeRequest(sn: nat) returns (p: Option<BindRequest>)
      modifies `requestList
      ensures p.Some? <==> Position(old(requestList), sn) < |old(requestList)|
      ensures p.Some? ==> p.value == old(requestList)[Position(old(requestList), sn)]
      ensures requestList
        == if p.Some? then Erase(old(requestList), Position(old(requestList), sn)) else old(requestList)
      ensures p.None? <==> forall i | 0 <= i < |old(requestList)| :: old(requestList)[i].sn != sn
      ensures p.Some? ==> p.value.sn == sn && exists i ::
        && 0 <= i < |old(requestList)| && old(requestList)[i] == p.value
        && requestList == old(requestList)[..i] + old(requestList)[i + 1..]
    {
      var i := 0;
      while i < |requestList| && requestList[i].sn != sn
        invariant i <= |requestList| && forall j | 0 <= j < i :: requestList[j].sn != sn
      {
        i := i + 1;
      }
      assert i == Position(requestList, sn);
      if i == |requestList| {
        return None;
      }
      p := Some(requestList[i]);
      requestList := requestList[..i] + requestList[i + 1..];
    }

    method DoReplyRegisterRequest(sn: nat, isSucceed: nat, stored: bool) returns (sms: Option<Text>)
      modifies `table, `requestList
      ensures Out(View(), SUCCESS, sms) == Step(old(View()), BindReply(sn, isSucceed, stored))
      ensures var i := Position(old(requestList), sn);
        if i == |old(requestList)| then table == old(table) && sms == None
        else
          var p := old(requestList)[i];
          var k := KeyOf(p.mobile, p.id);
          if isSucceed == 0 && p.bind then
            && table == (if k in old(table) then old(table) else old(table)[k := Row("", defaultMoneyLimit, 0)])
            && sms == if !stored then None else if k in old(table) then Some(AlreadyBound) else Some(BindDone)
          else if isSucceed == 0 then
            && table == old(table) - {k}
            && sms == if !stored then None else if k in old(table) then Some(UnbindDone) else Some(NotBound)
          else
            && table == old(table)
            && sms == if isSucceed > 2 || !stored then None
                      else if isSucceed == 1 then Some(NoSuchId) else Some(MobileDiffers)
    {
      hide Erase;
      var found := TakeRequest(sn);
      if found.None? {
        return None;
      }
      var p := found.value;
      var k := KeyOf(p.mobile, p.id);
      hide KeyOf;
      var text: Text;
      if isSucceed == 0 {
        if p.bind {
          var inserted := DoRegisterSMS(k);
          text := if inserted then BindDone else AlreadyBound;
        } else {
          var deleted := DoUnregisterSMS(k);
          text := if deleted then UnbindDone else NotBound;
        }
      } else if isSucceed == 1 {
        text := NoSuchId;
      } else if isSucceed == 2 {
        text := MobileDiffers;
      } else {
        return None;
      }
      return if stored then Some(text) else None;
    }

    method DoSend(mobile: string, id: string, pay: Payment) returns (reply: Reply, sms: Option<Text>)
      modifies `table
      ensures Out(View(), reply, sms) == Step(old(View()), Send(mobile, id, pay))
      ensures var k := KeyOf(mobile, id);
        && (reply == CMD_SMS_VALIDATE_FAILED <==> k !in old(table) || old(table)[k].code != "")
        && (reply == CMD_SMS_VALIDATE_FAILED ==> table == old(table) && sms == None)
        && (reply in {CMD_OK, CMD_ERR} <==>
              && k in old(table) && old(table)[k].code == "" && pay.fee.Some?
              && old(table)[k].today + pay.fee.value <= old(table)[k].limit)
        && (reply in {CMD_OK, CMD_ERR} ==>
              table == old(table)[k := old(table)[k].(today := old(table)[k].today + pay.fee.value)])
        && (sms.Some? <==> reply == CMD_OK)
    {
      hide KeyOf, SendChecked;
      var k := KeyOf(mobile, id);
      if k !in table || table[k].code != "" {
        return CMD_SMS_VALIDATE_FAILED, None;
      }
      reply, sms := SendSMS(k, pay, UserText);
    }

    method DoSendRegisterMsg(mobile: string, id: string, bind: bool, sendOk: bool) returns (reply: Reply)
      modifies `requestList, `serial
      ensures Out(View(), reply, None) == Step(old(View()), UserRequest(mobile, id, bind, sendOk))
      ensures requestList == old(requestList) + [BindRequest(old(serial), mobile, id, bind)]
      ensures serial == old(serial) + 1 && reply == if sendOk then SUCCESS else ERROR
    {
      var sn := GetSerial();
      requestList := requestList + [BindRequest(sn, mobile, id, bind)];
      return if sendOk then SUCCESS else ERROR;
    }

    method DoSetMoneyLimitCommand(mobile: string, id: string, limit: int, pay: Payment)
      returns (reply: Reply, sms: Option<Text>)
      modifies `table
      ensures Out(View(), reply, sms) == Step(old(View()), SetLimit(mobile, id, limit, pay))
      ensures var k := KeyOf(mobile, id);
        if k !in old(table) then table == old(table) && sms == None && reply == ERROR
        else
          var row := old(table)[k].(limit := limit);
          var paid := pay.fee.Some? && row.today + pay.fee.value <= limit;
          && table == old(table)[k := if paid then row.(today := row.today + pay.fee.value) else row]
          && sms == (if paid && pay.stored then Some(LimitSet(limit)) else None)
          && reply == if paid && pay.stored then SUCCESS else ERROR
    {
      hide KeyOf, SendChecked;
      var k := KeyOf(mobile, id);
      if k in table {
        table := table[k := table[k].(limit := limit)];
      }
      reply, sms := SendSMS(k, pay, LimitSet(limit));
      reply := if reply == CMD_OK then SUCCESS else ERROR;
    }

    method DoZeroTodayTotalCommand(mobile: string, id: string, pay: Payment) returns (reply: Reply, sms: Option<Text>)
      modifies `table
      ensures Out(View(), reply, sms) == Step(old(View()), ZeroToday(mobile, id, pay))
      ensures var k := KeyOf(mobile, id);
        if k !in old(table) then table == old(table) && sms == None && reply == ERROR
        else
          var paid := pay.fee.Some? && pay.fee.value <= old(table)[k].limit;
          && table == old(table)[k := old(table)[k].(today := if paid then pay.fee.value else 0)]
          && sms == (if paid && pay.stored then Some(TodayZeroed) else None)
          && reply == if paid && pay.stored then SUCCESS else ERROR
    {
      hide KeyOf, SendChecked;
      var k := KeyOf(mobile, id);
      if k in table {
        table := table[k := table[k].(today := 0)];
      }
      reply, sms := SendSMS(k, pay, TodayZeroed);
      reply := if reply == CMD_OK then SUCCESS else ERROR;
    }

    method DoGetMoneyLimitCommand(mobile: string, id: string, pay: Payment) returns (reply: Reply, sms: Option<Text>)
      modifies `table
      ensures Out(View(), reply, sms) == Step(old(View()), GetLimit(mobile, id, pay))
      ensures reply == FAILED <==> KeyOf(mobile, id) !in old(table)
      ensures reply == SUCCESS <==> sms.Some?
      ensures sms.Some? ==> sms.value == LimitIs(old(table)[KeyOf(mobile, id)].limit)
      ensures var k := KeyOf(mobile, id);
        var paid := k in old(table) && pay.fee.Some? && old(table)[k].today + pay.fee.value <= old(table)[k].limit;
        && (reply == SUCCESS <==> paid && pay.stored)
        && table == if paid then old(table)[k := old(table)[k].(today := old(table)[k].today + pay.fee.value)]
                    else old(table)
    {
      hide KeyOf, SendChecked;
      var k := KeyOf(mobile, id);
      if k !in table {
        return FAILED, None;
      }
      reply, sms := SendSMS(k, pay, LimitIs(table[k].limit));
      reply := if reply == CMD_OK then SUCCESS else ERROR;
    }

    method DoGetTodayTotalCommand(mobile: string, id: string, pay: Payment) returns (reply: Reply, sms: Option<Text>)
      modifies `table
      ensures Out(View(), reply, sms) == Step(old(View()), GetToday(mobile, id, pay))
      ensures reply == FAILED <==> KeyOf(mobile, id) !in old(table)
      ensures reply == SUCCESS <==> sms.Some?
      ensures sms.Some? ==> sms.value == TodayIs(old(table)[KeyOf(mobile, id)].today)
      ensures var k := KeyOf(mobile, id);
        var paid := k in old(table) && pay.fee.Some? && old(table)[k].today + pay.fee.value <= old(table)[k].limit;
        && (reply == SUCCESS <==> paid && pay.stored)
        && table == if paid then old(table)[k := old(table)[k].(today := old(table)[k].today + pay.fee.value)]
                    else old(table)
    {
      hide KeyOf, SendChecked;
      var k := KeyOf(mobile, id);
      if k !in table {
        return FAILED, None;
      }
      reply, sms := SendSMS(k, pay, TodayIs(table[k].today));
      reply := if reply == CMD_OK then SUCCESS else ERROR;
    }

    /** deliverSMS takes a serial for the packet it sends to the BBS. */
    method DeliverSMS(sendOk: bool) returns (reply: Reply)
      modifies `serial
      ensures Out(View(), reply, None) == Step(old(View()), Deliver(sendOk))
      ensures serial == old(serial) + 1 && reply == if sendOk then SUCCESS else ERROR
    {
      var sn := GetSerial();
      return if sendOk then SUCCESS else ERROR;
    }

    /** The nightly job, run beside the gateway on the same table. */
    method ClearMoney()
      modifies `table
      ensures View() == Step(old(View()), DailyClear).state
      ensures table.Keys == old(table).Keys
      ensures forall k | k in table :: table[k] == old(table)[k].(today := 0)
    {
      table := map k | k in table :: table[k].(today := 0);
    }
  }
}
