/** The link test of the CMPP client: Run and dispatchMsg with their counter and time stamps. */
module CmppLink {
  import opened Options

  /** Constants C, T and N of section 6.1 of CMPP 2.0. */
  const LINK_C: int := 180
  const LINK_T: int := 60
  const LINK_N: int := 3

  datatype Command =
    | ConnectResp | Terminate | TerminateResp | SubmitResp | Deliver | CancelResp
    | ActiveTest | ActiveTestResp | Unknown

  /** What one turn of the receive loop meets: a wait that timed out at `now`, with the outcome
      of sending a test should one be due; a receive error; or a message, with the outcome of
      its length check, of reading its body and of sending the reply it asks for. */
  datatype Event =
    | Timeout(now: int, sendOk: bool)
    | Broken
    | Message(command: Command, lengthOk: bool, bodyOk: bool, status: int, replyOk: bool)

  datatype Link = Link(connected: bool, linkTest: int, lastTest: int, lastSend: int)

  // ---- the loop as a state machine -----------------------------------------------------

  predicate Due(l: Link, now: int) {
    now - l.lastSend > LINK_C || (l.linkTest != 0 && now - l.lastTest > LINK_T)
  }

  /** None stands for leaving the loop, which closes the connection. */
  function Dispatched(l: Link, e: Event): Option<Link>
    requires e.Message?
  {
    match e.command
    case Terminate => None
    case TerminateResp => None
    case Unknown => None
    case ActiveTest => if e.replyOk then Some(l) else None
    case Deliver => if e.bodyOk then Some(l) else None
    case ConnectResp =>
      if !e.lengthOk || !e.bodyOk then None
      else Some(if e.status == 0 then l.(connected := true) else l)
    case SubmitResp => if e.lengthOk && e.bodyOk then Some(l) else None
    case CancelResp => if e.lengthOk && e.bodyOk then Some(l.(linkTest := 0)) else None
    case ActiveTestResp => if e.lengthOk && e.bodyOk then Some(l.(linkTest := 0)) else None
  }

  function TimedOut(l: Link, now: int, sendOk: bool): Option<Link> {
    if !l.connected then None
    else if !Due(l, now) then Some(l)
    else if l.linkTest + 1 > LINK_N || !sendOk then None
    else Some(Link(true, l.linkTest + 1, now, now))
  }

  function Step(l: Link, e: Event): Option<Link> {
    match e
    case Broken => None
    case Timeout(now, ok) => TimedOut(l, now, ok)
    case Message(_, _, _, _, _) => Dispatched(l, e)
  }

  /** The link right after a login request was sent. */
  function LoggedIn(now: int, lastTest: int): Link {
    Link(false, 0, lastTest, now)
  }

  // ---- what the tests look like in every run ---------------------------------------------

  /** A test packet: when it was sent, and whether the counter was zero then. */
  datatype Test = Test(time: int, first: bool)

  predicate SendsTest(l: Link, e: Event) {
    e.Timeout? && l.connected && Due(l, e.now) && l.linkTest < LINK_N && e.sendOk
  }

  predicate Answers(e: Event) {
    e.Message? && (e.command == ActiveTestResp || e.command == CancelResp)
  }

  /** The tests sent by a run of events. */
  function Tests(l: Link, es: seq<Event>): seq<Test>
    decreases |es|
  {
    if es == [] then []
    else
      var sent := if SendsTest(l, es[0]) then [Test(es[0].now, l.linkTest == 0)] else [];
      match Step(l, es[0])
      case None => sent
      case Some(l') => sent + Tests(l', es[1..])
  }

  /** The link after a run of events, None once it is closed. */
  function After(l: Link, es: seq<Event>): Option<Link>
    decreases |es|
  {
    if es == [] then Some(l)
    else
      match Step(l, es[0])
      case None => None
      case Some(l') => After(l', es[1..])
  }

  /** The number of tests since the last answer, counting from `n`. */
  function Unanswered(l: Link, es: seq<Event>, n: int): int
    decreases |es|
  {
    if es == [] then n
    else
      var n' := if SendsTest(l, es[0]) then n + 1 else if Answers(es[0]) then 0 else n;
      match Step(l, es[0])
      case None => n'
      case Some(l') => Unanswered(l', es[1..], n')
  }

  /** One event of a run. */
  lemma Unfold(l: Link, es: seq<Event>, i: nat)
    requires i < |es|
    ensures After(l, es[i..]) ==
      match Step(l, es[i]) case None => None case Some(l') => After(l', es[i + 1..])
    ensures Tests(l, es[i..]) ==
      (if SendsTest(l, es[i]) then [Test(es[i].now, l.linkTest == 0)] else []) +
      match Step(l, es[i]) case None => [] case Some(l') => Tests(l', es[i + 1..])
  {
    hide Step, SendsTest;
    assert es[i..][1..] == es[i + 1..] && es[i..][0] == es[i];
  }

  lemma AtTheEnd(l: Link)
    ensures After(l, []) == Some(l) && Tests(l, []) == []
  {
  }

  predicate Consistent(l: Link) {
    && 0 <= l.linkTest <= LINK_N
    && (l.linkTest > 0 ==> l.connected && l.lastTest == l.lastSend)
  }

  /** As long as the link is open the counter is the number of tests since the last answer, and at most N. */
  lemma {:induction false} CounterCountsUnanswered(l: Link, es: seq<Event>)
    requires Consistent(l)
    ensures var r := After(l, es);
            r.Some? ==> Consistent(r.value) && r.value.linkTest == Unanswered(l, es, l.linkTest) <= 3
    decreases |es|
  {
    if es != [] {
      match Step(l, es[0])
      case None =>
      case Some(l') => CounterCountsUnanswered(l', es[1..]);
    }
  }

  /** A test that would be number N + 1 is not sent: the link is closed instead, and by nothing
      else than that, a failed send or a missing login does a time-out close it. */
  lemma TimeoutCloses(l: Link, now: int, sendOk: bool)
    requires Consistent(l)
    ensures Step(l, Timeout(now, sendOk)).None? <==>
            || !l.connected
            || ((now - l.lastSend > 180 || (l.linkTest != 0 && now - l.lastTest > 60))
                && (l.linkTest == 3 || !sendOk))
  {
  }

  function Gap(t: Test): int {
    if t.first then LINK_C else LINK_T
  }

  /** When the test before number `i` was sent, `since` standing in for the one before the first. */
  function Before(tests: seq<Test>, since: int, i: int): int
    requires 0 <= i < |tests|
  {
    if i == 0 then since else tests[i - 1].time
  }

  predicate Spaced(tests: seq<Test>, since: int) {
    forall i | 0 <= i < |tests| :: tests[i].time - Before(tests, since, i) > Gap(tests[i])
  }

  /** Consecutive tests are more than T apart, and more than C apart when the counter was cleared
      in between; the first test comes more than C after the login. */
  lemma {:induction false} TestsAreSpaced(l: Link, es: seq<Event>)
    requires Consistent(l)
    ensures var tests := Tests(l, es);
      forall i | 0 <= i < |tests| ::
        tests[i].time - (if i == 0 then l.lastSend else tests[i - 1].time) > if tests[i].first then 180 else 60
  {
    SpacedTests(l, es);
    hide Tests;
    var tests := Tests(l, es);
    forall i | 0 <= i < |tests|
      ensures tests[i].time - (if i == 0 then l.lastSend else tests[i - 1].time) > if tests[i].first then 180 else 60
    {
      assert tests[i].time - Before(tests, l.lastSend, i) > Gap(tests[i]);
    }
  }

  lemma {:induction false} SpacedTests(l: Link, es: seq<Event>)
    requires Consistent(l)
    ensures Spaced(Tests(l, es), l.lastSend)
    decreases |es|
  {
    if es != [] {
      match Step(l, es[0])
      case None =>
      case Some(l') =>
        SpacedTests(l', es[1..]);
        SpacedCons(l, es[0], l', Tests(l', es[1..]));
    }
  }

  lemma SpacedCons(l: Link, e: Event, l': Link, rest: seq<Test>)
    requires Consistent(l) && Step(l, e) == Some(l') && Spaced(rest, l'.lastSend)
    ensures Spaced((if SendsTest(l, e) then [Test(e.now, l.linkTest == 0)] else []) + rest, l.lastSend)
  {
    if SendsTest(l, e) {
      var all := [Test(e.now, l.linkTest == 0)] + rest;
      forall i | 0 <= i < |all|
        ensures all[i].time - Before(all, l.lastSend, i) > Gap(all[i])
      {
        if i > 0 {
          assert all[i] == rest[i - 1];
          assert Before(all, l.lastSend, i) == Before(rest, l'.lastSend, i - 1);
        }
      }
    } else {
      assert [] + rest == rest;
    }
  }

  // ---- logging in ----------------------------------------------------------------------------

  /** In every run an open link counts as logged in exactly when a login reply with status 0 has come. */
  lemma {:induction false} LoggedInExactly(l: Link, es: seq<Event>)
    requires After(l, es).Some?
    ensures After(l, es).value.connected <==>
      l.connected
      || exists p :: 0 <= p < |es| && es[p].Message? && es[p].command == ConnectResp && es[p].status == 0
    decreases |es|
  {
    if es != [] {
      LoggedInExactly(Step(l, es[0]).value, es[1..]);
      assert forall p | 1 <= p < |es| :: es[p] == es[1..][p - 1];
      assert forall p | 0 <= p < |es| - 1 :: es[1..][p] == es[p + 1];
    }
  }

  /** Which messages end the session; a receive error always does. */
  lemma MessageCloses(l: Link, e: Event)
    requires !e.Timeout?
    ensures Step(l, e).None? <==>
      || e.Broken?
      || e.command in {Terminate, TerminateResp, Unknown}
      || (e.command == ActiveTest && !e.replyOk)
      || (e.command !in {Terminate, TerminateResp, Unknown, ActiveTest} && !e.bodyOk)
      || (e.command in {ConnectResp, SubmitResp, CancelResp, ActiveTestResp} && !e.lengthOk)
  {
  }

  // ---- a silent peer -----------------------------------------------------------------------

  /** Only time-outs: each comes within `w` of the one before it, the first of the moment `from`. */
  predicate Regular(es: seq<Event>, from: int, w: int) {
    && (forall i | 0 <= i < |es| :: es[i].Timeout?)
    && (es != [] ==> 0 <= es[0].now - from <= w)
    && (forall i | 1 <= i < |es| :: 0 <= es[i].now - es[i - 1].now <= w)
  }

  function Max(a: int, b: int): int {
    if a > b then a else b
  }

  /** By when the link is closed if nothing arrives after `from`. */
  function Deadline(l: Link, from: int, w: int): int {
    w + (LINK_N - l.linkTest) * (LINK_T + w) +
    if l.linkTest == 0 then Max(from, l.lastSend + LINK_C) else Max(from, l.lastTest + LINK_T)
  }

  /** The time-out number `k` closes the link, by the deadline. */
  lemma {:induction false} DroppedByDeadline(l: Link, es: seq<Event>, from: int, w: int) returns (k: nat)
    requires Consistent(l) && l.connected && w >= 0
    requires Regular(es, from, w)
    requires es != [] && es[|es| - 1].now > Deadline(l, from, w)
    ensures k < |es| && After(l, es[..k + 1]) == None && es[k].now <= Deadline(l, from, w)
    decreases |es|
  {
    var now, tail := es[0].now, es[1..];
    hide Step, Consistent, Deadline;
    match Step(l, es[0])
    case None =>
      DeadlineIsAhead(l, from, w);
      assert es[..1] == [es[0]];
      k := 0;
    case Some(l') =>
      DeadlineHolds(l, l', now, es[0].sendOk, from, w);
      RegularTail(es, from, w);
      assert |es| > 1;
      assert tail[|tail| - 1] == es[|es| - 1];
      var j := DroppedByDeadline(l', tail, now, w);
      k := j + 1;
      assert tail[j] == es[k];
      assert es[..k + 1] == [es[0]] + tail[..j + 1];
      AfterCons(l, es[0], tail[..j + 1]);
  }

  lemma AfterCons(l: Link, e: Event, rest: seq<Event>)
    ensures After(l, [e] + rest) == match Step(l, e) case None => None case Some(l') => After(l', rest)
  {
    assert ([e] + rest)[1..] == rest;
  }

  lemma DeadlineIsAhead(l: Link, from: int, w: int)
    requires Consistent(l) && w >= 0
    ensures Deadline(l, from, w) >= from + w
  {
    assert (LINK_N - l.linkTest) * (LINK_T + w) >= 0;
  }

  lemma RegularTail(es: seq<Event>, from: int, w: int)
    requires Regular(es, from, w) && es != []
    ensures Regular(es[1..], es[0].now, w)
  {
    var tail := es[1..];
    assert forall i | 0 <= i < |tail| :: tail[i] == es[i + 1];
    forall i | 1 <= i < |tail| ensures 0 <= tail[i].now - tail[i - 1].now <= w {
      assert tail[i] == es[i + 1] && tail[i - 1] == es[i];
    }
  }

  /** A check that does not close the link does not move the deadline back. */
  lemma DeadlineHolds(l: Link, l': Link, now: int, sendOk: bool, from: int, w: int)
    requires Consistent(l) && l.connected && w >= 0 && from <= now <= from + w
    requires Step(l, Timeout(now, sendOk)) == Some(l')
    ensures l'.connected && Consistent(l') && Deadline(l', now, w) <= Deadline(l, from, w)
    ensures now <= Deadline(l, from, w)
  {
    var k := LINK_N - l.linkTest;
    assert (k - 1) * (LINK_T + w) == k * (LINK_T + w) - (LINK_T + w);
    assert k >= 0 && k * (LINK_T + w) >= 0;
  }

  /** A peer that is silent after its last message at time `r` is dropped by r + C + N * T + (N + 1) * W,
      that is r + 180 + 3 * 60 + 4 * W, when the clock is checked at least every W. */
  lemma SilentPeerIsDropped(l: Link, es: seq<Event>, r: int, w: int) returns (k: nat)
    requires Consistent(l) && l.connected && l.lastSend <= r && w >= 0
    requires forall i | 0 <= i < |es| :: es[i].Timeout?
    requires es != [] && 0 <= es[0].now - r <= w
    requires forall i | 1 <= i < |es| :: 0 <= es[i].now - es[i - 1].now <= w
    requires es[|es| - 1].now > r + 360 + 4 * w
    ensures k < |es| && After(l, es[..k + 1]) == None && es[k].now <= r + 360 + 4 * w
  {
    k := DroppedByDeadline(l, es, r, w);
  }

  /** And not before C + N * T after the last test or login, as long as the tests go out. */
  lemma {:induction false} NotDroppedEarly(l: Link, es: seq<Event>)
    requires Consistent(l) && l.connected && es != []
    requires forall i | 0 <= i < |es| :: es[i].Timeout? && es[i].sendOk
    requires forall k | 0 <= k < |es| :: After(l, es[..k]).Some?
    requires After(l, es) == None
    ensures es[|es| - 1].now > l.lastSend + (if l.linkTest == 0 then 180 else 60) + (3 - l.linkTest) * 60
    decreases |es|
  {
    assert es[..1] == [es[0]];
    if |es| > 1 {
      assert After(l, es[..1]).Some?;
      var l' := Step(l, es[0]).value;
      forall k | 0 <= k < |es| - 1 ensures After(l', es[1..][..k]).Some? {
        assert es[..k + 1][1..] == es[1..][..k];
        assert After(l, es[..k + 1]).Some?;
      }
      NotDroppedEarly(l', es[1..]);
    }
  }

  // ---- the client -----------------------------------------------------------------------------

  class CmppClient {
    var connected: bool
    var linkTest: int
    var lastTestTime: int
    var lastSendTime: int

    ghost function View(): Link
      reads this
    {
      Link(connected, linkTest, lastTestTime, lastSendTime)
    }

    constructor ()
      ensures !connected && linkTest == 0
    {
      connected, linkTest, lastTestTime, lastSendTime := false, 0, 0, 0;
    }

    /** A login request went out: the start of the receive loop. */
    method StartSession(now: int)
      modifies this
      ensures View() == LoggedIn(now, old(lastTestTime)) && Consistent(View())
      ensures !connected && linkTest == 0 && lastSendTime == now && lastTestTime == old(lastTestTime)
    {
      connected := false;
      lastSendTime := now;
      linkTest := 0;
    }

    /** dispatchMsg: true stands for SUCCESS. */
    method Dispatch(e: Event) returns (ok: bool)
      requires e.Message?
      modifies this
      ensures match Dispatched(old(View()), e)
              case None => !ok && View() == old(View())
              case Some(l) => ok && View() == l
      ensures ok <==>
        || (e.command == ActiveTest && e.replyOk) || (e.command == Deliver && e.bodyOk)
        || (e.command in {ConnectResp, SubmitResp, CancelResp, ActiveTestResp} && e.lengthOk && e.bodyOk)
      ensures connected == (old(connected) || (ok && e.command == ConnectResp && e.status == 0))
      ensures linkTest == if ok && e.command in {CancelResp, ActiveTestResp} then 0 else old(linkTest)
      ensures lastTestTime == old(lastTestTime) && lastSendTime == old(lastSendTime)
    {
      match e.command {
        case Terminate => return false;
        case TerminateResp => return false;
        case Unknown => return false;
        case ActiveTest => return e.replyOk;
        case Deliver =>
        case ConnectResp => if !e.lengthOk { return false; }
        case SubmitResp => if !e.lengthOk { return false; }
        case CancelResp => if !e.lengthOk { return false; }
        case ActiveTestResp => if !e.lengthOk { return false; }
      }
      if !e.bodyOk {
        return false;
      }
      match e.command {
        case ConnectResp => if e.status == 0 { connected := true; }
        case CancelResp => linkTest := 0;
        case ActiveTestResp => linkTest := 0;
        case _ =>
      }
      ok := true;
    }

    /** The time-out branch of Run: `open` when the loop goes on, `sent` when a test went out. */
    method CheckLink(now: int, sendOk: bool) returns (open: bool, sent: bool)
      modifies this
      ensures sent <==> SendsTest(old(View()), Timeout(now, sendOk))
      ensures var due := now - old(lastSendTime) > 180 || (old(linkTest) != 0 && now - old(lastTestTime) > 60);
        && (open <==> old(connected) && (due ==> old(linkTest) < 3 && sendOk))
        && (sent <==> old(connected) && due && old(linkTest) < 3 && sendOk)
        && (open && !due ==> View() == old(View()))
        && (open && due ==> connected && linkTest == old(linkTest) + 1 && lastTestTime == lastSendTime == now)
      ensures open <==> TimedOut(old(View()), now, sendOk).Some?
      ensures open ==> View() == TimedOut(old(View()), now, sendOk).value
    {
      sent := false;
      if !connected {
        return false, false;
      }
      if now - lastSendTime > LINK_C || (linkTest != 0 && now - lastTestTime > LINK_T) {
        lastTestTime := now;
        lastSendTime := now;
        linkTest := linkTest + 1;
        if linkTest > LINK_N {
          return false, false;
        }
        if !sendOk {
          return false, false;
        }
        sent := true;
      }
      open := true;
    }

    /** One turn of the receive loop, with the test it sends. */
    method Turn(e: Event) returns (open: bool, sent: seq<Test>)
      modifies this
      ensures open <==> Step(old(View()), e).Some?
      ensures open ==> View() == Step(old(View()), e).value
      ensures !open ==> !connected
      ensures sent == if SendsTest(old(View()), e) then [Test(e.now, old(linkTest) == 0)] else []
    {
      hide Dispatched, TimedOut, Due;
      sent := [];
      match e {
        case Broken => open := false;
        case Timeout(now, sendOk) =>
          var first := linkTest == 0;
          var goesOut: bool;
          open, goesOut := CheckLink(now, sendOk);
          if goesOut {
            sent := [Test(now, first)];
          }
        case Message(_, _, _, _, _) => open := Dispatch(e);
      }
      if !open {
        connected := false;
      }
    }

    /** The receive loop of Run over the events of one session; it ends with the connection closed
        or with the events. */
    method Session(es: seq<Event>) returns (open: bool, tests: seq<Test>)
      requires Consistent(View())
      modifies this
      ensures open <==> After(old(View()), es).Some?
      ensures open ==> View() == After(old(View()), es).value
      ensures open ==> linkTest == Unanswered(old(View()), es, old(linkTest)) <= 3
      ensures tests == Tests(old(View()), es)
      ensures !open ==> !connected
    {
      hide After, Tests, Unanswered, Step, SendsTest, Consistent;
      ghost var start := View();
      CounterCountsUnanswered(start, es);
      var i := 0;
      open, tests := true, [];
      assert es[i..] == es && tests + Tests(start, es) == Tests(start, es);
      while i < |es| && open
        invariant i <= |es|
        invariant open ==> After(start, es) == After(View(), es[i..])
        invariant !open ==> After(start, es).None? && !connected
        invariant open ==> Tests(start, es) == tests + Tests(View(), es[i..])
        invariant !open ==> Tests(start, es) == tests
      {
        Unfold(View(), es, i);
        var sent: seq<Test>;
        open, sent := Turn(es[i]);
        assert open ==> tests + (sent + Tests(View(), es[i + 1..])) == tests + sent + Tests(View(), es[i + 1..]);
        assert tests + (sent + []) == tests + sent;
        tests := tests + sent;
        i := i + 1;
      }
      assert es[i..] == [] || !open;
      AtTheEnd(View());
    }
  }
}
