/** The word filter in front of the outgoing spool: which messages writeSMStoStorage lets pass. */
module FilterGate {
  import opened CBytes
  import opened MgrepSpec
  import opened MgrepImage
  import opened MgrepSearch
  import opened MgrepLimits

  const FILTERINTERVAL: int := 600

  /** A word list the matcher handles as promised: no blank line, words of 2 to 255 bytes. */
  ghost predicate GoodList(words: seq<byte>) {
    && |words| <= MAXPATFILE && |Lines(words)| <= 191
    && forall p | p in Patterns(words) :: 2 <= |p| <= 255
  }

  /** The message holds a word of the list. */
  ghost predicate Bad(words: seq<byte>, msg: seq<byte>) {
    Naive(msg, 0, |msg| - 1, Patterns(words))
  }

  /** A word starts inside the message and runs on into the bytes beyond it. */
  ghost predicate Spills(words: seq<byte>, msg: seq<byte>, beyond: seq<byte>) {
    RunsOver(msg + beyond, 0, |msg| - 1, Patterns(words), LeastLength(Patterns(words)))
  }

  /** What the search counts. */
  ghost predicate Counts(words: seq<byte>, msg: seq<byte>, beyond: seq<byte>) {
    Bad(words, msg) || Spills(words, msg, beyond)
  }

  // ---- the gate as a state machine ---------------------------------------------------

  /** One call of writeSMStoStorage: the clock, the word list on disk, the message, and what follows
      it in memory. */
  datatype Call = Call(now: int, words: seq<byte>, msg: seq<byte>, beyond: seq<byte>)

  /** The time stamp, the list in force, and the matcher's counter. */
  datatype Gate = Gate(stamp: int, words: seq<byte>, hits: nat)

  ghost function Tally(words: seq<byte>, msg: seq<byte>, beyond: seq<byte>): nat {
    if Counts(words, msg, beyond) then 1 else 0
  }

  /** The list is read again, and the counter cleared, when the last call is long ago. */
  ghost function Step(g: Gate, c: Call): Gate {
    if c.now - g.stamp > FILTERINTERVAL then Gate(c.now, c.words, Tally(c.words, c.msg, c.beyond))
    else Gate(c.now, g.words, g.hits + Tally(g.words, c.msg, c.beyond))
  }

  /** The gate after the first `n` calls. */
  ghost function After(calls: seq<Call>, n: nat): Gate
    requires n <= |calls|
  {
    if n == 0 then Gate(0, [], 0) else Step(After(calls, n - 1), calls[n - 1])
  }

  // ---- what passes ---------------------------------------------------------------------

  /** Call `i` comes more than ten minutes after the call before it. */
  predicate Reloads(calls: seq<Call>, i: nat)
    requires i < |calls|
  {
    calls[i].now - (if i == 0 then 0 else calls[i - 1].now) > FILTERINTERVAL
  }

  /** The latest such call up to `n`. */
  function LoadPoint(calls: seq<Call>, n: nat): (i: nat)
    requires n < |calls|
    ensures i <= n && (i > 0 ==> Reloads(calls, i))
    ensures forall k | i < k <= n :: !Reloads(calls, k)
  {
    if n == 0 || Reloads(calls, n) then n else LoadPoint(calls, n - 1)
  }

  /** No message since the last reload, that of call `n` included, counts against the list read then. */
  ghost predicate Passes(calls: seq<Call>, n: nat)
    requires n < |calls|
  {
    forall k | LoadPoint(calls, n) <= k <= n :: !Counts(calls[LoadPoint(calls, n)].words, calls[k].msg, calls[k].beyond)
  }

  lemma PassesStep(calls: seq<Call>, n: nat)
    requires n < |calls|
    ensures Passes(calls, n) <==>
      && (n == 0 || Reloads(calls, n) || Passes(calls, n - 1))
      && !Counts(calls[LoadPoint(calls, n)].words, calls[n].msg, calls[n].beyond)
  {
    hide Counts, Reloads;
  }

  /** In every run that starts with a load, the counter is zero after a call exactly when the
      message passes. */
  lemma {:induction false} CounterIsExact(calls: seq<Call>, n: nat)
    requires n < |calls| && Reloads(calls, 0)
    ensures var g := After(calls, n + 1);
            && g.stamp == calls[n].now
            && g.words == calls[LoadPoint(calls, n)].words
            && (g.hits == 0 <==> Passes(calls, n))
  {
    hide Counts;
    if n > 0 {
      CounterIsExact(calls, n - 1);
    }
    PassesStep(calls, n);
  }

  /** After a bad message every later one is refused, clean or not, until two calls in a row lie
      more than ten minutes apart - however old the loaded list is. */
  lemma OneBadMessageShutsTheGate(calls: seq<Call>, i: nat, n: nat)
    requires i <= n < |calls| && Reloads(calls, 0)
    requires Counts(calls[LoadPoint(calls, i)].words, calls[i].msg, calls[i].beyond)
    requires forall k | i < k <= n :: calls[k].now - calls[k - 1].now <= 600
    ensures After(calls, n + 1).hits > 0
  {
    CounterIsExact(calls, n);
    SameLoad(calls, i, n);
  }

  lemma {:induction false} SameLoad(calls: seq<Call>, i: nat, n: nat)
    requires i <= n < |calls|
    requires forall k | i < k <= n :: !Reloads(calls, k)
    ensures LoadPoint(calls, n) == LoadPoint(calls, i)
  {
    if i < n {
      SameLoad(calls, i, n - 1);
    }
  }

  // ---- the class -----------------------------------------------------------------------------

  /** The filter part of CSMSStorage, with the counter of the matcher. */
  class MessageFilter {
    var filterBuf: PatternImage?
    var ft: int
    const matcher: Matcher
    ghost var gate: Gate

    ghost predicate Valid()
      reads this, matcher
    {
      ft == gate.stamp && matcher.numOfMatched == gate.hits
    }

    constructor ()
      ensures Valid() && gate == Gate(0, [], 0) && filterBuf == null && fresh(matcher)
    {
      matcher := new Matcher();
      filterBuf := null;
      ft := 0;
      gate := Gate(0, [], 0);
    }

    /** default_setting and prepf, whose result the source does not look at. */
    method Reload(words: seq<byte>) returns (loaded: bool)
      modifies this`filterBuf, matcher
      ensures matcher.numOfMatched == 0 && filterBuf != null
      ensures loaded <==> |words| <= 2600 && |Lines(words)| < 200
      ensures loaded ==> filterBuf.Compiled(words)
    {
      matcher.numOfMatched := 0;
      var img;
      img, loaded := Prepf(words);
      filterBuf := img;
    }

    /** mgrep_str over the message, the first `size` bytes of `buf`. */
    method Screen(buf: array<byte>, size: nat, ghost list: seq<byte>) returns (clean: bool)
      requires filterBuf != null && filterBuf.Compiled(list) && GoodList(list) && size <= buf.Length
      modifies matcher
      ensures filterBuf.Compiled(list)
      ensures matcher.numOfMatched == old(matcher.numOfMatched) + Tally(list, buf[..size], buf[size..])
      ensures matcher.numOfMatched > old(matcher.numOfMatched) <==>
        exists i, s ::
          && 0 <= i < |Patterns(list)| && 0 <= s && s + LeastLength(Patterns(list)) <= size
          && WordAt(buf[..], s, Patterns(list)[i])
      ensures clean == (matcher.numOfMatched == 0)
    {
      hide PatternImage.Compiled, PatternImage.Valid, GoodList, Counts, Patterns, WordAt;
      GoodIsSpeltOut(filterBuf, list, buf[..], size);
      GoodIsValid(filterBuf, list);
      FoundIsCounted(filterBuf, list, buf[..size], buf[size..]);
      assert buf[..] == buf[..size] + buf[size..];
      var matches := matcher.MgrepStr(buf, size, filterBuf);
      clean := matches == 0;
    }

    /** The list in force and ready, unless none was ever loaded. */
    ghost predicate Loaded()
      reads this, filterBuf, if filterBuf == null then {} else filterBuf.Arrays()
    {
      filterBuf != null && GoodList(gate.words) && filterBuf.Compiled(gate.words)
    }

    /** initFilter: reads the list again when the last call is long ago. */
    method InitFilter(now: int, words: seq<byte>)
      requires GoodList(words) && (Loaded() || now - ft > 600)
      modifies `filterBuf, `ft, matcher
      ensures ft == now && filterBuf != null
      ensures matcher.numOfMatched == if now - old(ft) > 600 then 0 else old(matcher.numOfMatched)
      ensures filterBuf.Compiled(if now - old(ft) > 600 then words else gate.words)
    {
      GoodListLoads(words);
      hide GoodList, PatternImage.Compiled, Lines;
      var tm := ft;
      ft := now;
      if now - tm <= FILTERINTERVAL {
        return;
      }
      var loaded := Reload(words);
    }

    /** The message is the first `size` bytes of `buf`; true stands for SUCCESS. */
    method WriteAllowed(now: int, words: seq<byte>, buf: array<byte>, size: nat) returns (ok: bool)
      requires Valid() && GoodList(words) && size <= buf.Length && (Loaded() || now - ft > 600)
      modifies this, matcher
      ensures Valid() && Loaded()
      ensures gate == Step(old(gate), Call(now, words, buf[..size], buf[size..]))
      ensures ok <==> gate.hits == 0
    {
      hide Tally, GoodList, PatternImage.Compiled;
      ghost var list := if now - ft > FILTERINTERVAL then words else gate.words;
      InitFilter(now, words);
      ok := Screen(buf, size, list);
      gate := Step(gate, Call(now, words, buf[..size], buf[size..]));
    }
  }

  lemma GoodListLoads(words: seq<byte>)
    requires GoodList(words)
    ensures |words| <= MAXPATFILE && |Lines(words)| < MAX_NUM
  {
  }

  lemma GoodIsValid(img: PatternImage, words: seq<byte>)
    requires img.Compiled(words) && GoodList(words)
    ensures img.Valid()
  {
    hide Lines, Patterns, Chained, ShiftsExact;
    LeastIsTwo(img, words);
    ShortListHasZeroSlot(img, words);
    CompiledIsValid(img, words);
  }

  /** What the search finds is what counts. */
  lemma FoundIsCounted(img: PatternImage, words: seq<byte>, msg: seq<byte>, beyond: seq<byte>)
    requires img.Compiled(words) && GoodList(words)
    ensures img.View().Found(msg + beyond, 0, |msg| - 1) <==> Counts(words, msg, beyond)
  {
    hide Naive, RunsOver, Patterns, Lines, Chained, ShiftsExact;
    WordsArePlain(words, msg + beyond, |msg| - 1);
    SearchIsExactly(img, words, msg + beyond, 0, |msg| - 1);
    LeastLengthIs(img.pSize, Patterns(words));
    NaiveInside(msg, beyond, Patterns(words));
  }

  lemma GoodIsSpeltOut(img: PatternImage, words: seq<byte>, memory: seq<byte>, size: nat)
    requires img.Compiled(words) && GoodList(words) && size <= |memory|
    ensures img.View().Found(memory, 0, size - 1) <==>
      exists i, s ::
        && 0 <= i < |Patterns(words)| && 0 <= s && s + LeastLength(Patterns(words)) <= size
        && WordAt(memory, s, Patterns(words)[i])
  {
    hide Naive, RunsOver, Patterns, Lines, Chained, ShiftsExact, WordAt;
    WordsArePlain(words, memory, size - 1);
    SearchIsExactly(img, words, memory, 0, size - 1);
    LeastLengthIs(img.pSize, Patterns(words));
    assert forall i | 0 <= i < |Patterns(words)| :: Patterns(words)[i] in Patterns(words);
  }

  lemma WordsArePlain(words: seq<byte>, text: seq<byte>, end: int)
    requires GoodList(words) && end < |text|
    ensures PlainWords(words, text, 0, end)
  {
    hide Patterns;
  }

  /** Naive search inside the message does not see what lies beyond it. */
  lemma NaiveInside(msg: seq<byte>, beyond: seq<byte>, pats: seq<seq<byte>>)
    ensures Naive(msg + beyond, 0, |msg| - 1, pats) <==> Naive(msg, 0, |msg| - 1, pats)
  {
    var text, end := msg + beyond, |msg| - 1;
    forall i, s
      ensures Occurrence(text, 0, end, pats, i, s) <==> Occurrence(msg, 0, end, pats, i, s)
    {
      if 0 <= i < |pats| && 0 <= s && s + |pats[i]| <= |msg| {
        MatchInside(msg, beyond, s, pats[i]);
      }
    }
  }

  lemma MatchInside(msg: seq<byte>, beyond: seq<byte>, s: nat, p: seq<byte>)
    requires s + |p| <= |msg|
    ensures WordAt(msg + beyond, s, p) <==> WordAt(msg, s, p)
  {
    hide SameUpToCase;
    assert forall k | s <= k < s + |p| :: (msg + beyond)[k] == msg[k];
  }

  /** A message is closed when nothing or a newline follows it. */
  predicate Closed(beyond: seq<byte>) {
    beyond != [] ==> beyond[0] == NEWLINE
  }

  /** Then it counts exactly when it holds a word. */
  lemma ClosedCountsWhenBad(words: seq<byte>, msg: seq<byte>, beyond: seq<byte>)
    requires GoodList(words) && Closed(beyond)
    ensures Counts(words, msg, beyond) <==> Bad(words, msg)
  {
    hide Lines, Patterns, Bad;
    var ps, text, end := Patterns(words), msg + beyond, |msg| - 1;
    var m := LeastLength(ps);
    forall i, s
      ensures !Overrun(text, 0, end, ps, m, i, s)
    {
      if Overrun(text, 0, end, ps, m, i, s) {
        assert SameUpToCase(text[s + (end + 1 - s)], ps[i][end + 1 - s]);
        WordHasNoNewline(words, i, end + 1 - s);
      }
    }
  }

  lemma WordHasNoNewline(words: seq<byte>, i: nat, k: nat)
    requires i < |Patterns(words)| && k < |Patterns(words)[i]|
    ensures Patterns(words)[i][k] != NEWLINE
  {
    hide Lines;
    LinesRejoin(words);
    CutLine(Lines(words)[i]);
  }

  /** In every run of closed messages that starts with a load, the counter is zero after a call
      exactly when no message since the last reload holds a word of the list read then. */
  lemma CounterIsExactForClosed(calls: seq<Call>, n: nat)
    requires n < |calls| && Reloads(calls, 0)
    requires forall k | 0 <= k <= n :: GoodList(calls[k].words) && Closed(calls[k].beyond)
    ensures var pats := Patterns(calls[LoadPoint(calls, n)].words);
      After(calls, n + 1).hits == 0 <==>
        forall k, i, s | LoadPoint(calls, n) <= k <= n && 0 <= i < |pats| && 0 <= s ::
          !WordAt(calls[k].msg, s, pats[i])
  {
    hide GoodList, Bad, Counts, After, Reloads, Patterns, WordAt;
    CounterIsExact(calls, n);
    var l := LoadPoint(calls, n);
    forall k | l <= k <= n
      ensures Counts(calls[l].words, calls[k].msg, calls[k].beyond)
        <==> Bad(calls[l].words, calls[k].msg)
    {
      ClosedCountsWhenBad(calls[l].words, calls[k].msg, calls[k].beyond);
    }
    forall k | l <= k <= n
      ensures Bad(calls[l].words, calls[k].msg) <==>
        exists i, s ::
          0 <= i < |Patterns(calls[l].words)| && 0 <= s && WordAt(calls[k].msg, s, Patterns(calls[l].words)[i])
    {
      BadMeansAWordStandsThere(calls[l].words, calls[k].msg);
    }
  }

  lemma BadMeansAWordStandsThere(words: seq<byte>, msg: seq<byte>)
    requires GoodList(words)
    ensures Bad(words, msg) <==>
      exists i, s :: 0 <= i < |Patterns(words)| && 0 <= s && WordAt(msg, s, Patterns(words)[i])
  {
    hide Patterns, Naive;
    var ps := Patterns(words);
    NaiveIsWordSearch(msg, 0, |msg| - 1, ps);
    assert forall i | 0 <= i < |ps| :: ps[i] in ps;
  }

  /** Without that the gate refuses clean messages: with the words "xy" and "abc" the message "ab"
      counts when a "c" follows it in memory. */
  lemma CleanMessageMayCount()
    ensures GoodList(XY_ABC) && !Bad(XY_ABC, ABC[..2]) && Counts(XY_ABC, ABC[..2], ABC[2..])
  {
    hide Naive, RunsOver, Lines, Patterns;
    WordsOfXyAbc();
    var ps := Patterns(XY_ABC);
    assert |ps[0]| == 2 && |ps[1]| == 3;
    forall p | p in ps ensures 2 <= |p| <= 255 {
      assert p == ps[0] || p == ps[1];
    }
    LeastLengthIs(2, ps);
    XyAbcRunsOver();
    assert ABC[..2] + ABC[2..] == ABC;
    NaiveInside(ABC[..2], ABC[2..], ps);
  }

  lemma LeastIsTwo(img: PatternImage, words: seq<byte>)
    requires img.Compiled(words) && GoodList(words)
    ensures img.pSize >= 2 && img.numPat <= 191
  {
    var ps := Patterns(words);
    assert forall i | 0 <= i < |ps| :: ps[i] in ps;
  }
}
