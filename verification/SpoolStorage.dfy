/** The disk spool: OnNotify draining a directory of message files, and the storage it drives. */
module SpoolStorage {
  import opened CBytes
  import opened Options

  type Name = string
  type Files = map<Name, seq<byte>>

  /** What Send answers: any code but SUCCESS and ERROR leaves the file alone. */
  datatype Code = SUCCESS | ERROR | OTHER

  /** One call of Send. */
  datatype Sending = Sending(name: Name, data: seq<byte>, code: Code)

  /** The incoming, backup and error directories. */
  datatype Store = Store(incoming: Files, backup: Files, error: Files)

  // ---- what one run does --------------------------------------------------------------------

  predicate Distinct(names: seq<Name>) {
    forall i, j | 0 <= i < j < |names| :: names[i] != names[j]
  }

  /** The files of a directory listing that reach Send: the run ends at the first message file
      that cannot be read, and empty files are passed over. */
  function Queue(listing: seq<Name>, incoming: Files, unreadable: set<Name>): (names: seq<Name>)
    ensures forall n | n in names :: n in listing && n in incoming && incoming[n] != []
  {
    if listing == [] then []
    else if listing[0] in incoming && listing[0] in unreadable then []
    else
      var rest := Queue(listing[1..], incoming, unreadable);
      if listing[0] in incoming && incoming[listing[0]] != [] then [listing[0]] + rest else rest
  }

  function Answer(script: seq<Code>, k: nat): Code {
    if k < |script| then script[k] else OTHER
  }

  function Sends(incoming: Files, names: seq<Name>, script: seq<Code>): seq<Sending>
    requires forall n | n in names :: n in incoming
  {
    seq(|names|, k requires 0 <= k < |names| => Sending(names[k], incoming[names[k]], Answer(script, k)))
  }

  predicate Answered(sent: seq<Sending>, name: Name, code: Code) {
    exists s :: s in sent && s.name == name && s.code == code
  }

  function With(incoming: Files, sent: seq<Sending>, code: Code): Files {
    map n | n in incoming && Answered(sent, n, code) :: incoming[n]
  }

  /** Where the files are after a run: a file already in the target directory wins over a moved one. */
  function Settled(st: Store, sent: seq<Sending>): Store {
    Store(st.incoming - With(st.incoming, sent, SUCCESS).Keys - With(st.incoming, sent, ERROR).Keys,
          With(st.incoming, sent, SUCCESS) + st.backup,
          With(st.incoming, sent, ERROR) + st.error)
  }

  /** A run sends exactly the non-empty message files listed before the first unreadable one, each once. */
  lemma {:induction false} QueueIsExact(listing: seq<Name>, incoming: Files, unreadable: set<Name>)
    requires Distinct(listing)
    ensures Distinct(Queue(listing, incoming, unreadable))
    ensures forall k | 0 <= k < |listing| ::
      listing[k] in Queue(listing, incoming, unreadable) <==>
        listing[k] in incoming && incoming[listing[k]] != []
        && forall j | 0 <= j <= k :: listing[j] in incoming ==> listing[j] !in unreadable
  {
    if listing != [] {
      var rest := listing[1..];
      QueueIsExact(rest, incoming, unreadable);
      assert forall k | 0 < k < |listing| :: listing[k] == rest[k - 1];
      assert listing[0] !in rest;
    }
  }

  // ---- all runs ---------------------------------------------------------------------------------

  /** A message file is written to the spool, or the daemon is told to drain it. */
  datatype Event =
    | Arrive(name: Name, data: seq<byte>)
    | Drain(listing: Option<seq<Name>>, unreadable: set<Name>, script: seq<Code>)

  /** The store, with every message that ever arrived and every call of Send. */
  datatype World = World(store: Store, arrived: Files, log: seq<Sending>)

  const EMPTY_WORLD := World(Store(map[], map[], map[]), map[], [])

  function Drained(st: Store, e: Event): seq<Sending>
    requires e.Drain?
  {
    if e.listing.None? then [] else Sends(st.incoming, Queue(e.listing.value, st.incoming, e.unreadable), e.script)
  }

  /** File names are never reused and a listing names a file once. */
  predicate Possible(w: World, e: Event) {
    match e
    case Arrive(name, _) => name !in w.arrived
    case Drain(listing, _, _) => listing.Some? ==> Distinct(listing.value)
  }

  function Step(w: World, e: Event): World {
    match e
    case Arrive(name, data) =>
      World(w.store.(incoming := w.store.incoming[name := data]), w.arrived[name := data], w.log)
    case Drain(_, _, _) => World(Settled(w.store, Drained(w.store, e)), w.arrived, w.log + Drained(w.store, e))
  }

  function Run(es: seq<Event>): World {
    if es == [] then EMPTY_WORLD else Step(Run(es[..|es| - 1]), es[|es| - 1])
  }

  predicate AllPossible(es: seq<Event>) {
    forall k | 0 <= k < |es| :: Possible(Run(es[..k]), es[k])
  }

  ghost predicate Apart(st: Store) {
    forall n :: (n in st.incoming ==> n !in st.backup && n !in st.error) && (n in st.backup ==> n !in st.error)
  }

  ghost predicate AllStored(st: Store, arrived: Files) {
    && (forall n :: n in arrived <==> n in st.incoming || n in st.backup || n in st.error)
    && (forall n | n in st.incoming :: st.incoming[n] == arrived[n])
    && (forall n | n in st.backup :: st.backup[n] == arrived[n])
    && (forall n | n in st.error :: st.error[n] == arrived[n])
  }

  ghost predicate Filed(st: Store, log: seq<Sending>) {
    && (forall n :: n in st.backup <==> Answered(log, n, SUCCESS))
    && (forall n :: n in st.error <==> Answered(log, n, ERROR))
  }

  predicate Faithful(log: seq<Sending>, arrived: Files) {
    forall s | s in log :: s.name in arrived && s.data == arrived[s.name] && s.data != []
  }

  /** A message is only sent again after an answer that is neither SUCCESS nor ERROR. */
  predicate OnlyRetried(log: seq<Sending>) {
    forall i, j | 0 <= i < j < |log| :: log[i].name == log[j].name ==> log[i].code == OTHER
  }

  /** In every run each message is in exactly one directory with its bytes; it is in the backup or
      error directory exactly when it was sent with that outcome; Send only ever gets whole
      messages, and none of them again once it has succeeded or failed for good. */
  ghost predicate Conserved(w: World) {
    && Apart(w.store) && AllStored(w.store, w.arrived)
    && Filed(w.store, w.log) && Faithful(w.log, w.arrived) && OnlyRetried(w.log)
  }

  lemma AnsweredConcat(a: seq<Sending>, b: seq<Sending>, n: Name, code: Code)
    ensures Answered(a + b, n, code) <==> Answered(a, n, code) || Answered(b, n, code)
  {
    if Answered(a, n, code) {
      var s :| s in a && s.name == n && s.code == code;
      assert s in a + b;
    }
    if Answered(b, n, code) {
      var s :| s in b && s.name == n && s.code == code;
      assert s in a + b;
    }
  }

  /** The calls of one run: files of the incoming directory, each once. */
  predicate Batch(incoming: Files, sent: seq<Sending>) {
    && (forall s | s in sent :: s.name in incoming && s.data == incoming[s.name] && s.data != [])
    && (forall i, j | 0 <= i < j < |sent| :: sent[i].name != sent[j].name)
  }

  lemma OneOutcome(incoming: Files, sent: seq<Sending>, n: Name)
    requires Batch(incoming, sent)
    ensures !(Answered(sent, n, SUCCESS) && Answered(sent, n, ERROR))
    ensures forall c | Answered(sent, n, c) :: n in incoming
  {
  }

  lemma BatchIsApart(st: Store, sent: seq<Sending>)
    requires Apart(st) && Batch(st.incoming, sent)
    ensures Apart(Settled(st, sent))
  {
    hide Batch, Answered;
    forall n ensures !(Answered(sent, n, SUCCESS) && Answered(sent, n, ERROR)) {
      OneOutcome(st.incoming, sent, n);
    }
  }

  lemma BatchIsStored(st: Store, arrived: Files, sent: seq<Sending>)
    requires Apart(st) && AllStored(st, arrived)
    ensures AllStored(Settled(st, sent), arrived)
  {
    hide Answered;
    var st' := Settled(st, sent);
    forall n ensures n in arrived <==> n in st'.incoming || n in st'.backup || n in st'.error {
      assert n in st.incoming ==> st.incoming[n] == arrived[n];
    }
  }

  lemma BatchIsFiled(st: Store, log: seq<Sending>, sent: seq<Sending>)
    requires Filed(st, log) && Batch(st.incoming, sent)
    ensures Filed(Settled(st, sent), log + sent)
  {
    hide Batch, Answered;
    forall n, c ensures Answered(log + sent, n, c) <==> Answered(log, n, c) || Answered(sent, n, c) {
      AnsweredConcat(log, sent, n, c);
    }
    forall n, c | Answered(sent, n, c) ensures n in st.incoming {
      OneOutcome(st.incoming, sent, n);
    }
  }

  /** Whatever is still in the incoming directory has only had other answers. */
  lemma BatchIsNew(w: World, sent: seq<Sending>)
    requires Conserved(w) && Batch(w.store.incoming, sent)
    ensures forall i, j | 0 <= i < |w.log| && 0 <= j < |sent| ::
      w.log[i].name == sent[j].name ==> w.log[i].code == OTHER
  {
    hide AllStored, Faithful, OnlyRetried;
    forall i, j | 0 <= i < |w.log| && 0 <= j < |sent| && w.log[i].name == sent[j].name
      ensures w.log[i].code == OTHER
    {
      assert w.log[i] in w.log && sent[j] in sent;
      assert Answered(w.log, w.log[i].name, w.log[i].code);
    }
  }

  lemma BatchSettles(w: World, sent: seq<Sending>)
    requires Conserved(w) && Batch(w.store.incoming, sent)
    ensures Conserved(World(Settled(w.store, sent), w.arrived, w.log + sent))
  {
    hide Apart, Filed, Answered, Settled;
    BatchIsApart(w.store, sent);
    BatchIsStored(w.store, w.arrived, sent);
    BatchIsFiled(w.store, w.log, sent);
    BatchIsNew(w, sent);
  }

  lemma {:induction false} RunsConserve(es: seq<Event>)
    requires AllPossible(es)
    ensures Conserved(Run(es))
  {
    hide Step, Conserved, Possible;
    if es == [] {
      NothingIsConserved();
    } else {
      var before, e := es[..|es| - 1], es[|es| - 1];
      assert AllPossible(before) by {
        assert forall k | 0 <= k < |before| :: before[..k] == es[..k] && before[k] == es[k];
      }
      RunsConserve(before);
      assert Possible(Run(before), e);
      StepConserves(Run(before), e);
    }
  }

  lemma NothingIsConserved()
    ensures Conserved(EMPTY_WORLD)
  {
  }

  lemma ArrivalConserves(w: World, name: Name, data: seq<byte>)
    requires Conserved(w) && name !in w.arrived
    ensures Conserved(Step(w, Arrive(name, data)))
  {
    hide OnlyRetried, Answered;
  }

  lemma StepConserves(w: World, e: Event)
    requires Conserved(w) && Possible(w, e)
    ensures Conserved(Step(w, e))
  {
    hide Conserved, OnlyRetried, Settled;
    match e
    case Arrive(name, data) => ArrivalConserves(w, name, data);
    case Drain(listing, unreadable, _) =>
      if listing.Some? {
        QueueIsExact(listing.value, w.store.incoming, unreadable);
      }
      BatchSettles(w, Drained(w.store, e));
  }

  /** Names must be fresh: a move keeps the message exactly when the name is free in the directory
      it goes to, or stands there for the same bytes. */
  lemma MoveKeepsTheMessage(st: Store, sent: seq<Sending>, n: Name, code: Code)
    requires n in st.incoming && code != OTHER
    requires exists k :: 0 <= k < |sent| && sent[k].name == n && sent[k].code == code
    ensures var st' := Settled(st, sent);
      var before, after := if code == SUCCESS then st.backup else st.error,
                           if code == SUCCESS then st'.backup else st'.error;
      && n !in st'.incoming && n in after
      && (after[n] == st.incoming[n] <==> n !in before || before[n] == st.incoming[n])
  {
    var k :| 0 <= k < |sent| && sent[k].name == n && sent[k].code == code;
    assert sent[k] in sent;
    assert Answered(sent, n, code);
  }

  lemma AnsweredAt(sent: seq<Sending>, n: Name, code: Code)
    ensures Answered(sent, n, code) <==> exists k :: 0 <= k < |sent| && sent[k].name == n && sent[k].code == code
  {
    if k :| 0 <= k < |sent| && sent[k].name == n && sent[k].code == code {
      assert sent[k] in sent;
    }
  }

  /** What one drain does: each call of Send gets a whole message from the incoming directory and the
      next answer; a message goes to the backup after a success, to the error directory after an
      error, and stays otherwise; nothing else moves. */
  lemma DrainOutcome(st: Store, listing: seq<Name>, unreadable: set<Name>, script: seq<Code>)
    ensures var sent := Drained(st, Drain(Some(listing), unreadable, script));
      forall k | 0 <= k < |sent| ::
        && sent[k].name in listing && sent[k].name in st.incoming && sent[k].data == st.incoming[sent[k].name] != []
        && sent[k].code == if k < |script| then script[k] else OTHER
    ensures var sent := Drained(st, Drain(Some(listing), unreadable, script));
      var st' := Settled(st, sent);
      && (forall n :: n in st'.incoming <==>
           n in st.incoming && forall k | 0 <= k < |sent| :: sent[k].name == n ==> sent[k].code == OTHER)
      && (forall n :: n in st'.backup <==>
           n in st.backup || exists k :: 0 <= k < |sent| && sent[k].name == n && sent[k].code == SUCCESS)
      && (forall n :: n in st'.error <==>
           n in st.error || exists k :: 0 <= k < |sent| && sent[k].name == n && sent[k].code == ERROR)
    ensures var st' := Settled(st, Drained(st, Drain(Some(listing), unreadable, script)));
      && (forall n | n in st'.incoming :: st'.incoming[n] == st.incoming[n])
      && (forall n | n in st'.backup :: st'.backup[n] == if n in st.backup then st.backup[n] else st.incoming[n])
      && (forall n | n in st'.error :: st'.error[n] == if n in st.error then st.error[n] else st.incoming[n])
  {
    hide Queue, Answered;
    var sent := Drained(st, Drain(Some(listing), unreadable, script));
    forall n, code
      ensures Answered(sent, n, code) <==> exists k :: 0 <= k < |sent| && sent[k].name == n && sent[k].code == code
    {
      AnsweredAt(sent, n, code);
    }
  }

  /** The calls of Send in a run are those of its drains. */
  lemma {:induction false} LogIsWhatDrainsSent(es: seq<Event>, s: Sending)
    ensures s in Run(es).log <==>
      exists q :: 0 <= q < |es| && es[q].Drain? && s in Drained(Run(es[..q]).store, es[q])
  {
    hide Drained, Settled, Run;
    if es == [] {
      assert Run(es).log == [] by { NothingHappened(); }
    } else {
      var n := |es| - 1;
      var before := es[..n];
      LogIsWhatDrainsSent(before, s);
      RunSnoc(es);
      forall q | 0 <= q < n ensures before[q] == es[q] && before[..q] == es[..q] {}
      if s in Run(before).log {
        var q :| 0 <= q < n && before[q].Drain? && s in Drained(Run(before[..q]).store, before[q]);
        assert es[q].Drain? && s in Drained(Run(es[..q]).store, es[q]);
      }
    }
  }

  lemma NothingHappened()
    ensures Run([]) == EMPTY_WORLD
  {
  }

  lemma RunSnoc(es: seq<Event>)
    requires es != []
    ensures Run(es) == Step(Run(es[..|es| - 1]), es[|es| - 1])
  {
  }

  lemma {:induction false} ArrivedAre(es: seq<Event>)
    requires NamesAreFresh(es)
    ensures forall n | n in Run(es).arrived :: exists p :: 0 <= p < |es| && es[p].Arrive? && es[p].name == n
    ensures forall p | 0 <= p < |es| && es[p].Arrive? ::
      es[p].name in Run(es).arrived && Run(es).arrived[es[p].name] == es[p].data
  {
    hide Drained, Settled;
    if es != [] {
      var before, last := es[..|es| - 1], es[|es| - 1];
      assert forall p | 0 <= p < |before| :: before[p] == es[p];
      ArrivedAre(before);
      assert Run(es) == Step(Run(before), last);
      forall n | n in Run(es).arrived ensures exists p :: 0 <= p < |es| && es[p].Arrive? && es[p].name == n {
        if n in Run(before).arrived {
          var p :| 0 <= p < |before| && before[p].Arrive? && before[p].name == n;
          assert es[p].name == n;
        } else {
          assert es[|es| - 1].name == n;
        }
      }
    }
  }

  /** No file name is used twice. */
  predicate NamesAreFresh(es: seq<Event>) {
    forall i, j | 0 <= i < j < |es| && es[i].Arrive? && es[j].Arrive? :: es[i].name != es[j].name
  }

  lemma FreshNamesArePossible(es: seq<Event>)
    requires NamesAreFresh(es)
    requires forall q | 0 <= q < |es| && es[q].Drain? && es[q].listing.Some? :: Distinct(es[q].listing.value)
    ensures AllPossible(es)
  {
    hide Run, Distinct;
    forall k | 0 <= k < |es| ensures Possible(Run(es[..k]), es[k]) {
      var before := es[..k];
      assert forall p | 0 <= p < k :: before[p] == es[p];
      ArrivedAre(before);
    }
  }

  /** In every run in which file names are not reused, message number `p` is in exactly one directory
      with its bytes: in the backup or the error directory exactly when a call of Send with it was
      answered by SUCCESS or ERROR. Every call gets the whole message, and none follows such an answer. */
  lemma MessagesAreConserved(es: seq<Event>, p: nat)
    requires p < |es| && es[p].Arrive?
    requires forall i, j | 0 <= i < j < |es| && es[i].Arrive? && es[j].Arrive? :: es[i].name != es[j].name
    requires forall q | 0 <= q < |es| && es[q].Drain? && es[q].listing.Some? :: Distinct(es[q].listing.value)
    ensures var st, n, data := Run(es).store, es[p].name, es[p].data;
      || (n in st.incoming && n !in st.backup && n !in st.error && st.incoming[n] == data)
      || (n !in st.incoming && n in st.backup && n !in st.error && st.backup[n] == data)
      || (n !in st.incoming && n !in st.backup && n in st.error && st.error[n] == data)
    ensures var st, n, log := Run(es).store, es[p].name, Run(es).log;
      && (n in st.backup <==> exists k :: 0 <= k < |log| && log[k].name == n && log[k].code == SUCCESS)
      && (n in st.error <==> exists k :: 0 <= k < |log| && log[k].name == n && log[k].code == ERROR)
    ensures var n, data, log := es[p].name, es[p].data, Run(es).log;
      && (forall k | 0 <= k < |log| && log[k].name == n :: log[k].data == data != [])
      && (forall i, j | 0 <= i < j < |log| && log[i].name == n == log[j].name :: log[i].code == OTHER)
  {
    hide Run, AllPossible, Distinct, Answered;
    FreshNamesArePossible(es);
    RunsConserve(es);
    ArrivedAre(es);
    AnsweredAt(Run(es).log, es[p].name, SUCCESS);
    AnsweredAt(Run(es).log, es[p].name, ERROR);
  }

  /** And the directories hold nothing but messages that arrived. */
  lemma NothingElseIsStored(es: seq<Event>, n: Name)
    requires forall i, j | 0 <= i < j < |es| && es[i].Arrive? && es[j].Arrive? :: es[i].name != es[j].name
    requires forall q | 0 <= q < |es| && es[q].Drain? && es[q].listing.Some? :: Distinct(es[q].listing.value)
    requires n in Run(es).store.incoming || n in Run(es).store.backup || n in Run(es).store.error
    ensures exists p :: 0 <= p < |es| && es[p].Arrive? && es[p].name == n
  {
    hide Run, AllPossible, Distinct, Filed, Faithful, OnlyRetried;
    FreshNamesArePossible(es);
    RunsConserve(es);
    ArrivedAre(es);
  }

  /** Files are sent in the order of the listing. */
  lemma {:induction false} QueueKeepsOrder(listing: seq<Name>, incoming: Files, unreadable: set<Name>, i: nat, j: nat)
    returns (a: nat, b: nat)
    requires i < j < |Queue(listing, incoming, unreadable)|
    ensures a < b < |listing|
    ensures var q := Queue(listing, incoming, unreadable); listing[a] == q[i] && listing[b] == q[j]
  {
    var q, rest := Queue(listing, incoming, unreadable), Queue(listing[1..], incoming, unreadable);
    if listing[0] in incoming && incoming[listing[0]] != [] {
      if i == 0 {
        assert q[j] == rest[j - 1] && rest[j - 1] in rest;
        var k :| 0 <= k < |listing[1..]| && listing[1..][k] == q[j];
        a, b := 0, k + 1;
      } else {
        a, b := QueueKeepsOrder(listing[1..], incoming, unreadable, i - 1, j - 1);
        a, b := a + 1, b + 1;
      }
    } else {
      a, b := QueueKeepsOrder(listing[1..], incoming, unreadable, i, j);
      a, b := a + 1, b + 1;
    }
  }

  // ---- the storage and its drain loop -------------------------------------------------------------

  /** The names sent, in order. */
  function Names(sent: seq<Sending>): (names: seq<Name>)
    ensures |names| == |sent| && forall k | 0 <= k < |sent| :: names[k] == sent[k].name
  {
    seq(|sent|, k requires 0 <= k < |sent| => sent[k].name)
  }

  /** How many entries readdir passes over before a message file or the end of the directory. */
  function Skipped(dir: seq<Name>, incoming: Files): (k: nat)
    ensures k <= |dir| && (k < |dir| ==> dir[k] in incoming)
    ensures forall j | 0 <= j < k :: dir[j] !in incoming
  {
    if dir == [] || dir[0] in incoming then 0 else 1 + Skipped(dir[1..], incoming)
  }

  lemma {:induction false} SkippingKeepsTheQueue(dir: seq<Name>, now: Files, incoming: Files, unreadable: set<Name>)
    requires forall n | n in dir :: n in now <==> n in incoming
    ensures Queue(dir, incoming, unreadable) == Queue(dir[Skipped(dir, now)..], incoming, unreadable)
  {
    if dir == [] || dir[0] in now {
      assert dir[Skipped(dir, now)..] == dir;
    } else {
      SkippingKeepsTheQueue(dir[1..], now, incoming, unreadable);
      assert dir[1..][Skipped(dir[1..], now)..] == dir[Skipped(dir, now)..];
    }
  }

  function Taken(incoming: Files, names: seq<Name>): Files {
    map n | n in incoming && n in names :: incoming[n]
  }

  function Left(incoming: Files, names: seq<Name>): Files {
    map n | n in incoming && n !in names :: incoming[n]
  }

  lemma LeftKeeps(incoming: Files, names: seq<Name>)
    ensures forall n | n in Left(incoming, names) :: n in incoming && Left(incoming, names)[n] == incoming[n]
    ensures Left(incoming, []) == incoming && Taken(incoming, []) == map[]
  {
  }

  lemma ClearOne(incoming: Files, backup: Files, names: seq<Name>, last: Name)
    ensures Left(incoming, names + [last]) == Left(incoming, names) - {last}
    ensures Taken(incoming, names + [last]) + backup
      == var b := Taken(incoming, names) + backup;
         if last in Left(incoming, names) && last !in b then b[last := incoming[last]] else b
  {
    assert forall n :: n in names + [last] <==> n in names || n == last;
  }

  function Ahead(more: bool, current: Name, rest: seq<Name>): seq<Name> {
    if more then [current] + rest else []
  }

  lemma Reached(dir: seq<Name>, now: Files, incoming: Files, unreadable: set<Name>)
    requires Distinct(dir) && forall n | n in dir :: n in now <==> n in incoming
    ensures var rest := dir[Skipped(dir, now)..];
      && Distinct(rest) && (forall n | n in rest :: n in dir)
      && Queue(dir, incoming, unreadable) == Queue(rest, incoming, unreadable)
  {
    hide Queue;
    SkippingKeepsTheQueue(dir, now, incoming, unreadable);
  }

  lemma QueueStep(name: Name, rest: seq<Name>, incoming: Files, unreadable: set<Name>)
    requires name in incoming
    ensures Queue([name] + rest, incoming, unreadable)
      == if name in unreadable then []
         else (if incoming[name] != [] then [name] else []) + Queue(rest, incoming, unreadable)
  {
    var all := [name] + rest;
    assert all[0] == name && all[1..] == rest;
  }

  lemma DistinctTail(name: Name, rest: seq<Name>)
    requires Distinct([name] + rest)
    ensures Distinct(rest) && name !in rest
  {
    var all := [name] + rest;
    forall k | 0 <= k < |rest| ensures rest[k] == all[k + 1] != all[0] {}
  }

  /** A run in progress: failed files have moved, successful ones are recorded and still there. */
  ghost predicate Partway(st: Store, now: Store, recorded: seq<Name>, sent: seq<Sending>, script: seq<Code>) {
    && now == Store(st.incoming - With(st.incoming, sent, ERROR).Keys, st.backup,
                    With(st.incoming, sent, ERROR) + st.error)
    && (forall n :: n in recorded <==> Answered(sent, n, SUCCESS))
    && Distinct(Names(sent))
    && (forall n | n in Names(sent) :: n in st.incoming)
    && sent == Sends(st.incoming, Names(sent), script)
  }

  /** The store after one more answer. */
  function Answering(now: Store, name: Name, data: seq<byte>, code: Code): Store {
    if code == ERROR then Store(now.incoming - {name}, now.backup, map[name := data] + now.error) else now
  }

  lemma AnsweredSnoc(sent: seq<Sending>, s: Sending, n: Name, c: Code)
    ensures Answered(sent + [s], n, c) <==> Answered(sent, n, c) || (s.name == n && s.code == c)
  {
    AnsweredConcat(sent, [s], n, c);
    assert Answered([s], n, c) <==> s.name == n && s.code == c by {
      assert s in [s];
    }
  }

  lemma NotSentNotAnswered(sent: seq<Sending>, n: Name)
    ensures n !in Names(sent) <==> forall c :: !Answered(sent, n, c)
  {
    if k :| 0 <= k < |sent| && sent[k].name == n {
      assert Names(sent)[k] == n;
      assert sent[k] in sent;
      assert Answered(sent, n, sent[k].code);
    }
  }

  lemma NamesSnoc(sent: seq<Sending>, s: Sending)
    requires Distinct(Names(sent)) && s.name !in Names(sent)
    ensures Names(sent + [s]) == Names(sent) + [s.name]
    ensures Distinct(Names(sent + [s]))
  {
  }

  lemma StillThere(st: Store, now: Store, recorded: seq<Name>, sent: seq<Sending>, script: seq<Code>, n: Name)
    requires Partway(st, now, recorded, sent, script) && n !in Names(sent)
    ensures n in now.incoming <==> n in st.incoming
    ensures n in now.incoming ==> now.incoming[n] == st.incoming[n]
  {
    NotSentNotAnswered(sent, n);
  }

  lemma NotAmong(incoming: Files, sent: seq<Sending>, n: Name, c: Code)
    requires n !in Names(sent)
    ensures n !in With(incoming, sent, c)
  {
    NotSentNotAnswered(sent, n);
  }

  lemma WithSnoc(incoming: Files, sent: seq<Sending>, s: Sending, c: Code)
    requires s.name in incoming
    ensures With(incoming, sent + [s], c)
      == if s.code == c then With(incoming, sent, c)[s.name := incoming[s.name]] else With(incoming, sent, c)
  {
    hide Answered;
    forall n ensures Answered(sent + [s], n, c) <==> Answered(sent, n, c) || (s.name == n && s.code == c) {
      AnsweredSnoc(sent, s, n, c);
    }
  }

  lemma PartwaySnoc(st: Store, now: Store, recorded: seq<Name>, sent: seq<Sending>, script: seq<Code>, name: Name)
    requires Partway(st, now, recorded, sent, script) && name !in Names(sent) && name in st.incoming
    ensures var s := Sending(name, st.incoming[name], Answer(script, |sent|));
      Partway(st, Answering(now, name, s.data, s.code), if s.code == SUCCESS then recorded + [name] else recorded,
              sent + [s], script)
  {
    hide Answered, Distinct, With;
    var s := Sending(name, st.incoming[name], Answer(script, |sent|));
    WithSnoc(st.incoming, sent, s, ERROR);
    NotAmong(st.incoming, sent, name, ERROR);
    forall n
      ensures Answered(sent + [s], n, SUCCESS) <==> Answered(sent, n, SUCCESS) || (name == n && s.code == SUCCESS)
    {
      AnsweredSnoc(sent, s, n, SUCCESS);
    }
    NamesSnoc(sent, s);
  }

  /** Clearing the storage completes the run. */
  lemma PartwayClears(st: Store, now: Store, recorded: seq<Name>, sent: seq<Sending>, script: seq<Code>)
    requires Partway(st, now, recorded, sent, script)
    ensures Settled(st, sent)
      == Store(Left(now.incoming, recorded), Taken(now.incoming, recorded) + now.backup, now.error)
  {
    hide Answered, Distinct;
    forall n ensures !(Answered(sent, n, SUCCESS) && Answered(sent, n, ERROR)) {
      DistinctAnswers(sent, n);
    }
    assert With(st.incoming, sent, SUCCESS) == Taken(now.incoming, recorded);
  }

  lemma DistinctAnswers(sent: seq<Sending>, n: Name)
    requires Distinct(Names(sent))
    ensures !(Answered(sent, n, SUCCESS) && Answered(sent, n, ERROR))
  {
    var names := Names(sent);
    forall i, j | 0 <= i < |sent| && 0 <= j < |sent| && sent[i].name == sent[j].name ensures i == j {
      assert sent[i].name == names[i] && sent[j].name == names[j];
    }
  }

  /** What was sent and what is ahead make up the queue. */
  predicate OnCourse(incoming: Files, listing: seq<Name>, unreadable: set<Name>, sent: seq<Sending>, ahead: seq<Name>) {
    && Queue(listing, incoming, unreadable) == Names(sent) + Queue(ahead, incoming, unreadable)
    && Distinct(ahead)
    && forall n | n in ahead :: n !in Names(sent)
  }

  lemma NothingSent(st: Store, script: seq<Code>)
    ensures Partway(st, st, [], [], script)
    ensures forall listing, unreadable | Distinct(listing) :: OnCourse(st.incoming, listing, unreadable, [], listing)
  {
    hide Queue, Distinct;
    assert Names([]) == [];
    assert Distinct([]) by {
      DistinctNone();
    }
  }

  lemma DistinctNone()
    ensures Distinct([])
  {
  }

  /** The current file is untouched, and sent unless it is empty. */
  lemma OnePassed(st: Store, now: Store, recorded: seq<Name>, sent: seq<Sending>, script: seq<Code>,
                  listing: seq<Name>, unreadable: set<Name>, name: Name, rest: seq<Name>)
    requires Partway(st, now, recorded, sent, script)
    requires OnCourse(st.incoming, listing, unreadable, sent, [name] + rest)
    requires name in now.incoming && name !in unreadable
    ensures name !in Names(sent) && name in st.incoming && now.incoming[name] == st.incoming[name]
    ensures OnCourse(st.incoming, listing, unreadable,
      if st.incoming[name] != [] then sent + [Sending(name, st.incoming[name], Answer(script, |sent|))] else sent, rest)
  {
    hide Queue, Distinct;
    assert name in [name] + rest && forall n | n in rest :: n in [name] + rest;
    StillThere(st, now, recorded, sent, script, name);
    QueueStep(name, rest, st.incoming, unreadable);
    DistinctTail(name, rest);
    if st.incoming[name] != [] {
      NamesSnoc(sent, Sending(name, st.incoming[name], Answer(script, |sent|)));
      assert Names(sent) + ([name] + Queue(rest, st.incoming, unreadable))
        == Names(sent) + [name] + Queue(rest, st.incoming, unreadable);
    }
  }

  /** The scan for the next message file leaves the run on course. */
  lemma NextOnCourse(st: Store, now: Store, recorded: seq<Name>, sent: seq<Sending>, script: seq<Code>,
                     listing: seq<Name>, unreadable: set<Name>, rest: seq<Name>)
    requires Partway(st, now, recorded, sent, script)
    requires OnCourse(st.incoming, listing, unreadable, sent, rest)
    ensures OnCourse(st.incoming, listing, unreadable, sent, rest[Skipped(rest, now.incoming)..])
  {
    hide Queue, Distinct, Partway;
    forall n | n in rest ensures n in now.incoming <==> n in st.incoming {
      StillThere(st, now, recorded, sent, script, n);
    }
    Reached(rest, now.incoming, st.incoming, unreadable);
  }

  lemma RunEnds(st: Store, now: Store, recorded: seq<Name>, sent: seq<Sending>, script: seq<Code>,
                listing: seq<Name>, unreadable: set<Name>, ahead: seq<Name>)
    requires Partway(st, now, recorded, sent, script)
    requires OnCourse(st.incoming, listing, unreadable, sent, ahead)
    requires ahead != [] ==> ahead[0] in now.incoming && ahead[0] in unreadable
    ensures sent == Sends(st.incoming, Queue(listing, st.incoming, unreadable), script)
  {
    hide Distinct;
    if ahead != [] {
      StillThere(st, now, recorded, sent, script, ahead[0]);
    }
    assert Queue(ahead, st.incoming, unreadable) == [];
  }

  class DiskStorage {
    /** The three directories. */
    var incoming: Files
    var backup: Files
    var error: Files
    /** The directory entries still to be read, None while the directory is closed. */
    var dir: Option<seq<Name>>
    var currFilename: Name
    var readedFileList: seq<Name>
    var dataBuf: array<byte>
    var dataSize: nat

    ghost function View(): Store
      reads this
    {
      Store(incoming, backup, error)
    }

    /** Between two runs. */
    ghost predicate Idle()
      reads this
    {
      dir.None? && readedFileList == [] && dataSize <= dataBuf.Length
    }

    constructor (spool: Files)
      ensures Idle() && View() == Store(spool, map[], map[]) && fresh(dataBuf)
    {
      incoming, backup, error := spool, map[], map[];
      dir, currFilename, readedFileList := None, "", [];
      dataBuf := new byte[0];
      dataSize := 0;
    }

    /** getNextSMSFromStorage: `more` is false at the end of the directory, `ok` when reading throws. */
    method GetNext(unreadable: set<Name>) returns (more: bool, ok: bool)
      requires dir.Some? && dataSize <= dataBuf.Length
      modifies `dir, `currFilename, `dataBuf, `dataSize, dataBuf
      ensures dir.Some? && dataSize <= dataBuf.Length && (dataBuf == old(dataBuf) || fresh(dataBuf))
      ensures more ==> currFilename in incoming
      ensures Ahead(more, currFilename, dir.value) == old(dir.value)[Skipped(old(dir.value), incoming)..]
      ensures ok <==> more ==> currFilename !in unreadable
      ensures more && ok ==> dataBuf[..dataSize] == incoming[currFilename]
    {
      var entries := dir.value;
      ghost var all := entries;
      while entries != [] && entries[0] !in incoming
        invariant |entries| <= |all| && entries == all[|all| - |entries|..]
        invariant Skipped(all, incoming) == |all| - |entries| + Skipped(entries, incoming)
      {
        entries := entries[1..];
      }
      if entries == [] {
        dir := Some([]);
        return false, true;
      }
      currFilename := entries[0];
      dir := Some(entries[1..]);
      var file := incoming[currFilename];
      if dataBuf.Length < |file| {
        dataBuf := new byte[|file|];
      }
      dataSize := |file|;
      if currFilename in unreadable {
        return true, false;
      }
      for k := 0 to |file|
        invariant forall j | 0 <= j < k :: dataBuf[j] == file[j]
        modifies dataBuf
      {
        dataBuf[k] := file[k];
      }
      return true, true;
    }

    /** readGettedSMS: a buffer that is too small is left alone and the size needed returned. */
    method ReadGetted(buf: array<byte>, bufSize: nat) returns (size: nat)
      requires dataSize <= dataBuf.Length && bufSize <= buf.Length && buf != dataBuf
      modifies buf
      ensures size == dataSize
      ensures size <= bufSize ==> buf[..size] == dataBuf[..size]
      ensures size > bufSize ==> buf[..] == old(buf[..])
    {
      if bufSize < dataSize {
        return dataSize;
      }
      for k := 0 to dataSize
        invariant forall j | 0 <= j < k :: buf[j] == dataBuf[j]
        modifies buf
      {
        buf[k] := dataBuf[k];
      }
      return dataSize;
    }

    method RecordSended()
      modifies `readedFileList
      ensures readedFileList == old(readedFileList) + [currFilename]
    {
      readedFileList := readedFileList + [currFilename];
    }

    /** link and unlink: a file of that name in the error directory stays, the incoming one goes. */
    method BackupError()
      requires currFilename in incoming
      modifies `incoming, `error
      ensures incoming == old(incoming) - {currFilename}
      ensures error == map[currFilename := old(incoming)[currFilename]] + old(error)
    {
      if currFilename !in error {
        error := error[currFilename := incoming[currFilename]];
      }
      incoming := incoming - {currFilename};
    }

    /** clearStorage */
    method ClearStorage()
      modifies `incoming, `backup, `dir, `readedFileList
      ensures incoming == Left(old(incoming), old(readedFileList))
      ensures backup == Taken(old(incoming), old(readedFileList)) + old(backup)
      ensures readedFileList == [] && dir.None?
    {
      hide Taken, Left;
      LeftKeeps(incoming, []);
      for k := 0 to |readedFileList|
        invariant incoming == Left(old(incoming), readedFileList[..k])
        invariant backup == Taken(old(incoming), readedFileList[..k]) + old(backup)
        modifies `incoming, `backup
      {
        var name := readedFileList[k];
        LeftKeeps(old(incoming), readedFileList[..k]);
        ClearOne(old(incoming), old(backup), readedFileList[..k], name);
        assert readedFileList[..k] + [name] == readedFileList[..k + 1];
        if name in incoming && name !in backup {
          backup := backup[name := incoming[name]];
        }
        incoming := incoming - {name};
      }
      assert readedFileList[..|readedFileList|] == readedFileList;
      readedFileList := [];
      dir := None;
    }

    /** The growth of the caller's buffer: ask for the size, reallocate, read again. */
    method Fetch(buf: array<byte>) returns (grown: array<byte>, dataLen: nat)
      requires dataSize <= dataBuf.Length && buf != dataBuf
      modifies buf
      ensures (grown == buf || fresh(grown)) && grown != dataBuf
      ensures dataLen <= grown.Length && grown[..dataLen] == dataBuf[..dataSize]
    {
      grown := buf;
      dataLen := ReadGetted(grown, grown.Length);
      if dataLen > grown.Length {
        grown := new byte[dataLen];
        dataLen := ReadGetted(grown, grown.Length);
      }
    }

    /** One turn of the loop: `code` is the answer of Send, which only sees a non-empty file. */
    method SendCurrent(buf: array<byte>, code: Code) returns (grown: array<byte>, handed: seq<byte>)
      requires dataSize <= dataBuf.Length && buf != dataBuf && currFilename in incoming
      requires dataBuf[..dataSize] == incoming[currFilename]
      modifies `incoming, `error, `readedFileList, buf
      ensures (grown == buf || fresh(grown)) && grown != dataBuf
      ensures handed == old(incoming[currFilename])
      ensures View() == if handed == [] then old(View()) else Answering(old(View()), currFilename, handed, code)
      ensures readedFileList
        == if handed != [] && code == SUCCESS then old(readedFileList) + [currFilename] else old(readedFileList)
    {
      var dataLen: nat;
      grown, dataLen := Fetch(buf);
      handed := grown[..dataLen];
      if grown.Length != 0 && dataLen != 0 {
        if code == ERROR {
          BackupError();
        } else if code == SUCCESS {
          RecordSended();
        }
      }
    }

    /** OnNotify. The directory has the entries `listing` (None when it cannot be opened), reading
        the files in `unreadable` throws, and `script` is what Send answers to its successive calls. */
    method OnNotify(listing: Option<seq<Name>>, unreadable: set<Name>, script: seq<Code>) returns (sent: seq<Sending>)
      requires Idle() && (listing.Some? ==> Distinct(listing.value))
      modifies this, dataBuf
      ensures Idle() && (dataBuf == old(dataBuf) || fresh(dataBuf))
      ensures sent == Drained(old(View()), Drain(listing, unreadable, script))
      ensures View() == Settled(old(View()), sent)
    {
      hide Settled, Queue, Sends, Distinct, Answered, Taken, Left, With, Partway, OnCourse, Skipped, Answering, Answer;
      ghost var st := View();
      sent := [];
      NothingSent(st, script);
      if listing.Some? {
        dir := listing;
        NextOnCourse(st, st, [], [], script, listing.value, unreadable, listing.value);
        var more, ok := GetNext(unreadable);
        var buf := new byte[0];
        while more && ok
          invariant dir.Some? && dataSize <= dataBuf.Length
          invariant dataBuf == old(dataBuf) || fresh(dataBuf)
          invariant fresh(buf) && buf != dataBuf
          invariant Partway(st, View(), readedFileList, sent, script)
          invariant OnCourse(st.incoming, listing.value, unreadable, sent, Ahead(more, currFilename, dir.value))
          invariant ok <==> more ==> currFilename !in unreadable
          invariant more ==> currFilename in incoming
          invariant more && ok ==> dataBuf[..dataSize] == incoming[currFilename]
          decreases |Ahead(more, currFilename, dir.value)|
        {
          OnePassed(st, View(), readedFileList, sent, script, listing.value, unreadable, currFilename, dir.value);
          PartwaySnoc(st, View(), readedFileList, sent, script, currFilename);
          var code := Answer(script, |sent|);
          var handed: seq<byte>;
          buf, handed := SendCurrent(buf, code);
          if handed != [] {
            sent := sent + [Sending(currFilename, handed, code)];
          }
          NextOnCourse(st, View(), readedFileList, sent, script, listing.value, unreadable, dir.value);
          more, ok := GetNext(unreadable);
        }
        ghost var ahead := Ahead(more, currFilename, dir.value);
        RunEnds(st, View(), readedFileList, sent, script, listing.value, unreadable, ahead);
      }
      PartwayClears(st, View(), readedFileList, sent, script);
      ClearStorage();
    }
  }
}
