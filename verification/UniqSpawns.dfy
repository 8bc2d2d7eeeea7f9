/** `UniqSpawns`: functions run one at a time by one goroutine, and callers that wait for
    theirs on a channel borrowed from a pool. Every atomic step is one `Action`. */
module UniqSpawns {
  import opened Options
  import opened Sequences

  const QUEUE_CAP: nat := 1000

  /** How far a call has got: its wait channel fetched, sent, its function running, run to
      the end, answered on the channel, the answer received, or its function panicked. */
  datatype Phase = Fetched | Sent | Running | Ran | Answered | Received | Panicked | Over

  datatype Call = Call(phase: Phase, waitChan: Option<nat>)

  datatype State = State(
    calls: map<nat, Call>,
    dataChan: seq<nat>,
    running: Option<nat>,
    pool: set<nat>,
    /** The channels that hold an answer, and whose it is. */
    answers: map<nat, nat>,
    /** The context is done and the goroutine has seen it. */
    stopped: bool,
    /** History: to which call each channel was last lent. */
    lent: map<nat, nat>,
    /** History: the calls in the order they were sent, and those the goroutine is done with. */
    sent: seq<nat>,
    done: seq<nat>)

  datatype Action =
    | Fetch(call: nat, waitChan: Option<nat>)
    | Send(call: nat)
    | Take
    | Stop
    | Return
    | Panic
    | Answer
    | Receive(call: nat)
    | Put(call: nat)
    | Forget(pooled: nat)

  const Init := State(map[], [], None, {}, map[], false, map[], [], [])

  predicate Waits(s: State, j: nat) {
    j in s.calls && s.calls[j].waitChan.Some? && s.calls[j].phase !in {Fetched, Received, Over}
  }

  predicate In(s: State, j: nat, phase: Phase) {
    j in s.calls && s.calls[j].phase == phase
  }

  predicate Unused(s: State, c: nat) {
    c !in s.pool && c !in s.answers && forall j <- s.calls :: s.calls[j].waitChan != Some(c)
  }

  predicate Enabled(s: State, a: Action) {
    match a
    case Fetch(j, c) => j !in s.calls && (c.Some? ==> c.value in s.pool || Unused(s, c.value))
    case Send(j) => In(s, j, Fetched) && |s.dataChan| < QUEUE_CAP
    case Take => s.running.None? && s.dataChan != [] && !s.stopped
    case Stop => s.running.None?
    case Return => s.running.Some? && In(s, s.running.value, Running)
    case Panic => s.running.Some? && In(s, s.running.value, Running)
    case Answer => s.running.Some? && In(s, s.running.value, Ran) && s.calls[s.running.value].waitChan.Some? &&
      s.calls[s.running.value].waitChan.value !in s.answers
    case Receive(j) => Waits(s, j) && s.calls[j].waitChan.value in s.answers
    case Put(j) => In(s, j, Received) && s.calls[j].waitChan.Some?
    case Forget(c) => c in s.pool
  }

  function Moved(s: State, j: nat, phase: Phase): map<nat, Call>
    requires j in s.calls
  {
    s.calls[j := s.calls[j].(phase := phase)]
  }

  function Do(s: State, a: Action): State
    requires Enabled(s, a)
  {
    match a
    case Fetch(j, None) =>
      s.(calls := s.calls[j := Call(Fetched, None)])
    case Fetch(j, Some(c)) =>
      // Whatever an earlier user left in the channel is thrown away.
      s.(calls := s.calls[j := Call(Fetched, Some(c))], pool := s.pool - {c}, answers := s.answers - {c},
        lent := s.lent[c := j])
    case Send(j) =>
      s.(calls := Moved(s, j, Sent), dataChan := s.dataChan + [j], sent := s.sent + [j])
    case Take =>
      s.(calls := if s.dataChan[0] in s.calls then Moved(s, s.dataChan[0], Running) else s.calls,
         dataChan := s.dataChan[1..], running := Some(s.dataChan[0]))
    case Stop =>
      s.(stopped := true)
    case Return =>
      var j := s.running.value;
      if s.calls[j].waitChan.None? then
        s.(calls := Moved(s, j, Over), running := None, done := s.done + [j])
      else
        s.(calls := Moved(s, j, Ran))
    case Panic =>
      // The recovered goroutine goes on with the next function.
      s.(calls := Moved(s, s.running.value, Panicked), running := None, done := s.done + [s.running.value])
    case Answer =>
      var j := s.running.value;
      s.(calls := Moved(s, j, Answered), answers := s.answers[s.calls[j].waitChan.value := j], running := None,
        done := s.done + [j])
    case Receive(j) =>
      s.(calls := Moved(s, j, Received), answers := s.answers - {s.calls[j].waitChan.value})
    case Put(j) =>
      s.(calls := Moved(s, j, Over), pool := s.pool + {s.calls[j].waitChan.value})
    case Forget(c) =>
      s.(pool := s.pool - {c})
  }

  predicate CanRun(s: State, actions: seq<Action>)
    decreases |actions|
  {
    actions == [] || (Enabled(s, actions[0]) && CanRun(Do(s, actions[0]), actions[1..]))
  }

  function Run(s: State, actions: seq<Action>): State
    requires CanRun(s, actions)
    decreases |actions|
  {
    if actions == [] then s else Run(Do(s, actions[0]), actions[1..])
  }

  function Current(s: State): seq<nat> {
    if s.running.Some? then [s.running.value] else []
  }

  /** Functions are run one at a time, in the order they were sent. */
  ghost predicate InOrder(s: State) {
    && s.sent == s.done + Current(s) + s.dataChan
    && (forall i, k | 0 <= i < k < |s.sent| :: s.sent[i] != s.sent[k])
  }

  /** A call is in the queue, or with the goroutine, exactly while its phase says so. */
  ghost predicate Located(s: State, j: nat) {
    && (j in s.sent ==> j in s.calls && s.calls[j].phase != Fetched)
    && (j in s.dataChan <==> In(s, j, Sent))
    && (s.running == Some(j) <==> In(s, j, Running) || In(s, j, Ran))
    && (In(s, j, Ran) ==> s.calls[j].waitChan.Some?)
  }

  /** Does the call have its channel to itself? */
  predicate Holds(s: State, j: nat) {
    j in s.calls && s.calls[j].waitChan.Some? && s.calls[j].phase != Over
  }

  /** A channel that a call has is lent to it and not pooled, and holds an answer exactly if
      the call was answered. */
  ghost predicate OwnsChannel(s: State, j: nat) {
    && (Holds(s, j) ==> var c := s.calls[j].waitChan.value; c in s.lent && s.lent[c] == j && c !in s.pool)
    && (In(s, j, Answered) ==>
          s.calls[j].waitChan.Some? && var c := s.calls[j].waitChan.value; c in s.answers && s.answers[c] == j)
  }

  ghost predicate OwnChannels(s: State) {
    && (forall j: nat :: OwnsChannel(s, j))
    && (forall c <- s.answers :: In(s, s.answers[c], Answered) && s.calls[s.answers[c]].waitChan == Some(c))
  }

  ghost predicate Inv(s: State) {
    InOrder(s) && OwnChannels(s) && forall j: nat :: Located(s, j)
  }

  /** What lies in a call's channel is its own answer, there is none in a pooled channel, and
      the goroutine finds the channel free. */
  lemma ReceivesOwn(s: State, j: nat)
    requires OwnChannels(s)
    ensures Enabled(s, Receive(j)) <==> In(s, j, Answered)
    ensures In(s, j, Ran) && s.calls[j].waitChan.Some? ==> s.calls[j].waitChan.value !in s.answers
    ensures forall c <- s.pool :: c !in s.answers
  {
    assert OwnsChannel(s, j);
    if Holds(s, j) && s.calls[j].waitChan.value in s.answers {
      assert OwnsChannel(s, s.answers[s.calls[j].waitChan.value]);
    }
    forall c <- s.pool
      ensures c !in s.answers
    {
      assert c in s.answers ==> OwnsChannel(s, s.answers[c]);
    }
  }

  lemma TakenIsNew(s: State)
    requires InOrder(s) && s.dataChan != []
    ensures s.dataChan[0] !in s.dataChan[1..] && s.dataChan == [s.dataChan[0]] + s.dataChan[1..]
  {
    var n := |s.done| + |Current(s)|;
    forall i | 1 <= i < |s.dataChan|
      ensures s.dataChan[i] != s.dataChan[0]
    {
      assert s.sent[n] == s.dataChan[0] && s.sent[n + i] == s.dataChan[i];
    }
  }

  lemma SendKeepsOrder(s: State, j: nat)
    requires InOrder(s) && Enabled(s, Send(j)) && Located(s, j)
    ensures InOrder(Do(s, Send(j)))
  {
    assert j !in s.sent;
  }

  lemma StepKeepsOrder(s: State, a: Action)
    requires InOrder(s) && Enabled(s, a) && !a.Send?
    ensures InOrder(Do(s, a))
  {
    var t := Do(s, a);
    assert t.sent == s.sent;
    assert t.done + Current(t) + t.dataChan == s.done + Current(s) + s.dataChan;
  }

  /** The steps of callers and of the pool; the others are the goroutine's. */
  predicate ByCaller(a: Action) {
    a.Fetch? || a.Send? || a.Receive? || a.Put? || a.Forget?
  }

  /** The call whose channel or phase a step changes. */
  function Mover(s: State, a: Action): nat
    requires Enabled(s, a)
  {
    match a
    case Fetch(j, _) => j
    case Send(j) => j
    case Receive(j) => j
    case Put(j) => j
    case Take => s.dataChan[0]
    case Stop => 0
    case Forget(_) => 0
    case _ => s.running.value
  }

  lemma CallerKeepsLocated(s: State, a: Action, j: nat)
    requires Enabled(s, a) && ByCaller(a) && OwnChannels(s) && Located(s, j) && Located(s, Mover(s, a))
    ensures Located(Do(s, a), j)
  {
    ReceivesOwn(s, Mover(s, a));
  }

  lemma GoroutineKeepsLocated(s: State, a: Action, j: nat)
    requires Enabled(s, a) && !ByCaller(a) && InOrder(s) && Located(s, j)
    requires Located(s, Mover(s, a)) && (s.running.Some? ==> Located(s, s.running.value))
    ensures Located(Do(s, a), j)
  {
    if a.Take? {
      TakenIsNew(s);
    }
  }

  lemma CallerKeepsChannel(s: State, a: Action, j: nat)
    requires OwnChannels(s) && Enabled(s, a) && ByCaller(a)
    ensures OwnsChannel(Do(s, a), j)
  {
    var mover := Mover(s, a);
    assert OwnsChannel(s, j) && OwnsChannel(s, mover);
    ReceivesOwn(s, mover);
  }

  lemma GoroutineKeepsChannel(s: State, a: Action, j: nat)
    requires InOrder(s) && OwnChannels(s) && Enabled(s, a) && !ByCaller(a) && Located(s, Mover(s, a))
    ensures OwnsChannel(Do(s, a), j)
  {
    var mover := Mover(s, a);
    assert OwnsChannel(s, j) && OwnsChannel(s, mover);
    ReceivesOwn(s, mover);
    if a.Take? {
      TakenIsNew(s);
    }
  }

  lemma StepKeepsChannels(s: State, a: Action)
    requires InOrder(s) && OwnChannels(s) && Enabled(s, a) && Located(s, Mover(s, a))
    ensures OwnChannels(Do(s, a))
  {
    forall j: nat
      ensures OwnsChannel(Do(s, a), j)
    {
      if ByCaller(a) {
        CallerKeepsChannel(s, a, j);
      } else {
        GoroutineKeepsChannel(s, a, j);
      }
    }
    ReceivesOwn(s, Mover(s, a));
    assert OwnsChannel(s, Mover(s, a));
    if a.Take? {
      TakenIsNew(s);
    }
  }

  lemma StepKeepsInv(s: State, a: Action)
    requires Inv(s) && Enabled(s, a)
    ensures Inv(Do(s, a))
  {
    assert Located(s, Mover(s, a));
    if a.Send? {
      SendKeepsOrder(s, a.call);
    } else {
      StepKeepsOrder(s, a);
    }
    StepKeepsChannels(s, a);
    forall j: nat
      ensures Located(Do(s, a), j)
    {
      assert Located(s, j);
      if ByCaller(a) {
        CallerKeepsLocated(s, a, j);
      } else {
        assert s.running.Some? ==> Located(s, s.running.value);
        GoroutineKeepsLocated(s, a, j);
      }
    }
  }

  lemma {:induction false} RunKeepsInv(s: State, actions: seq<Action>)
    requires Inv(s) && CanRun(s, actions)
    ensures Inv(Run(s, actions))
    decreases |actions|
  {
    if actions != [] {
      StepKeepsInv(s, actions[0]);
      RunKeepsInv(Do(s, actions[0]), actions[1..]);
    }
  }

  /** In every run a call can receive exactly when its own function has run to the end and
      been answered; the answer never blocks the goroutine; and a channel from the pool is
      empty, with nothing stale to throw away. */
  lemma WaitsForItsOwn(actions: seq<Action>, j: nat)
    requires CanRun(Init, actions)
    ensures var s := Run(Init, actions);
      && s.sent == s.done + Current(s) + s.dataChan
      && (Enabled(s, Receive(j)) <==> In(s, j, Answered))
      && (s.running == Some(j) && In(s, j, Ran) ==> Enabled(s, Answer))
      && (forall c <- s.pool :: c !in s.answers)
  {
    RunKeepsInv(Init, actions);
    ReceivesOwn(Run(Init, actions), j);
    assert Located(Run(Init, actions), j);
  }

  /** The calls that a run sends, in order, and how many it takes up. */
  function Sends(actions: seq<Action>): seq<nat> {
    if actions == [] then [] else SendOf(actions[0]) + Sends(actions[1..])
  }

  function SendOf(a: Action): seq<nat> {
    if a.Send? then [a.call] else []
  }

  function Takes(actions: seq<Action>): nat {
    if actions == [] then 0 else TakeOf(actions[0]) + Takes(actions[1..])
  }

  function TakeOf(a: Action): nat {
    if a.Take? then 1 else 0
  }

  lemma StepIsRest(s: State, a: Action)
    requires Enabled(s, a)
    ensures Do(s, a).sent == s.sent + SendOf(a)
    ensures TakeOf(a) <= |s.dataChan + SendOf(a)| && Do(s, a).dataChan == (s.dataChan + SendOf(a))[TakeOf(a)..]
  {
  }

  lemma {:induction false} QueueIsRest(s: State, actions: seq<Action>)
    requires CanRun(s, actions)
    ensures Run(s, actions).sent == s.sent + Sends(actions)
    ensures Takes(actions) <= |s.dataChan + Sends(actions)|
    ensures Run(s, actions).dataChan == (s.dataChan + Sends(actions))[Takes(actions)..]
    decreases |actions|
  {
    if actions != [] {
      var a, rest := actions[0], actions[1..];
      StepIsRest(s, a);
      QueueIsRest(Do(s, a), rest);
      Associative(s.sent, SendOf(a), Sends(rest));
      RestOfRest(s.dataChan, SendOf(a), TakeOf(a), Sends(rest), Takes(rest));
    }
  }

  /** In every run the functions begin one at a time, in the order in which they were sent. */
  lemma BeginsInOrder(actions: seq<Action>)
    requires CanRun(Init, actions)
    ensures var s, sends, k := Run(Init, actions), Sends(actions), Takes(actions);
      && s.sent == sends && k <= |sends| && s.dataChan == sends[k..]
      && (Enabled(s, Take) ==>
            && k < |sends| && s.running.None?
            && Do(s, Take).running == Some(sends[k]) && In(Do(s, Take), sends[k], Running))
  {
    QueueIsRest(Init, actions);
    RunKeepsInv(Init, actions);
    assert [] + Sends(actions) == Sends(actions);
    var s := Run(Init, actions);
    assert s.dataChan != [] ==> Located(s, s.dataChan[0]);
  }

  /** Some step of the run is the return of the call's function. */
  predicate Returns(s: State, actions: seq<Action>, j: nat)
    requires CanRun(s, actions)
    decreases |actions|
  {
    actions != [] &&
    ((actions[0].Return? && s.running == Some(j)) || Returns(Do(s, actions[0]), actions[1..], j))
  }

  predicate HasRun(s: State, j: nat) {
    In(s, j, Ran) || In(s, j, Answered) || In(s, j, Received)
  }

  lemma OnlyReturnCounts(s: State, a: Action, j: nat)
    requires Inv(s) && Enabled(s, a) && !HasRun(s, j) && HasRun(Do(s, a), j)
    ensures a.Return? && s.running == Some(j)
  {
    assert Located(s, j);
    ReceivesOwn(s, j);
  }

  /** Nobody is answered whose function has not run to its end. */
  lemma {:induction false} AnsweredHasReturned(s: State, actions: seq<Action>, j: nat)
    requires Inv(s) && CanRun(s, actions) && !HasRun(s, j) && HasRun(Run(s, actions), j)
    ensures Returns(s, actions, j)
    decreases |actions|
  {
    if actions != [] {
      StepKeepsInv(s, actions[0]);
      if HasRun(Do(s, actions[0]), j) {
        OnlyReturnCounts(s, actions[0], j);
      } else {
        AnsweredHasReturned(Do(s, actions[0]), actions[1..], j);
      }
    }
  }

  /** The channels that a run drops from the pool. */
  function Forgotten(actions: seq<Action>): set<nat> {
    if actions == [] then {} else (if actions[0].Forget? then {actions[0].pooled} else {}) + Forgotten(actions[1..])
  }

  /** A channel that was ever lent is in the pool, or still with the call it was last lent to,
      or dropped. */
  ghost predicate Kept(s: State, c: nat, dropped: set<nat>) {
    c in s.lent ==> c in s.pool || (Holds(s, s.lent[c]) && s.calls[s.lent[c]].waitChan == Some(c)) || c in dropped
  }

  lemma StepKeeps(s: State, a: Action, c: nat, dropped: set<nat>)
    requires Inv(s) && Enabled(s, a) && Kept(s, c, dropped)
    ensures Kept(Do(s, a), c, dropped + if a.Forget? then {a.pooled} else {})
  {
    assert Located(s, Mover(s, a)) && (s.running.Some? ==> Located(s, s.running.value));
    if c in s.lent {
      assert OwnsChannel(s, s.lent[c]) && OwnsChannel(s, Mover(s, a));
    }
  }

  lemma {:induction false} RunKeepsChannel(s: State, actions: seq<Action>, c: nat, dropped: set<nat>)
    requires Inv(s) && CanRun(s, actions) && Kept(s, c, dropped)
    ensures Kept(Run(s, actions), c, dropped + Forgotten(actions))
    decreases |actions|
  {
    if actions == [] {
      assert dropped + {} == dropped;
    } else {
      var more := if actions[0].Forget? then {actions[0].pooled} else {};
      StepKeepsInv(s, actions[0]);
      StepKeeps(s, actions[0], c, dropped);
      RunKeepsChannel(Do(s, actions[0]), actions[1..], c, dropped + more);
      assert dropped + more + Forgotten(actions[1..]) == dropped + (more + Forgotten(actions[1..]));
    }
  }

  /** In every run, no channel is lost: each goes back to the pool once its call is over, unless the
      pool drops it. */
  lemma NoChannelIsLost(actions: seq<Action>, c: nat)
    requires CanRun(Init, actions)
    ensures Kept(Run(Init, actions), c, Forgotten(actions))
  {
    RunKeepsChannel(Init, actions, c, {});
    assert {} + Forgotten(actions) == Forgotten(actions);
  }

  // When a call that waits for its function can go on. A function that is running is taken to
  // end at some time, by returning or by panicking.

  /** A call with a wait channel that has not received its answer yet, sent or not. */
  predicate Pending(s: State, j: nat) {
    j in s.calls && s.calls[j].waitChan.Some? && s.calls[j].phase != Received && s.calls[j].phase != Over
  }

  /** The goroutine has not begun the call's function. */
  predicate NotBegun(s: State, j: nat) {
    In(s, j, Fetched) || In(s, j, Sent)
  }

  /** The call's function panicked, or the goroutine ended before beginning it. */
  predicate Lost(s: State, j: nat) {
    In(s, j, Panicked) || (s.stopped && NotBegun(s, j))
  }

  lemma LostStays(s: State, a: Action, j: nat)
    requires Inv(s) && Lost(s, j) && Enabled(s, a)
    ensures Lost(Do(s, a), j) && a != Receive(j) && (In(s, j, Panicked) ==> In(Do(s, a), j, Panicked))
  {
    ReceivesOwn(s, j);
    assert Located(s, j) && Located(s, Mover(s, a));
  }

  /** Such a call waits for ever, whatever happens. */
  lemma {:induction false} LostWaitsForEver(s: State, actions: seq<Action>, j: nat)
    requires Inv(s) && Lost(s, j) && CanRun(s, actions)
    ensures Lost(Run(s, actions), j) && !In(Run(s, actions), j, Received)
    ensures In(s, j, Panicked) ==> In(Run(s, actions), j, Panicked)
    decreases |actions|
  {
    if actions != [] {
      StepKeepsInv(s, actions[0]);
      LostStays(s, actions[0], j);
      LostWaitsForEver(Do(s, actions[0]), actions[1..], j);
    }
  }

  /** In particular one whose function panicked. */
  lemma PanickedWaitsForEver(s: State, actions: seq<Action>, j: nat)
    requires Inv(s) && In(s, j, Panicked) && CanRun(s, actions)
    ensures In(Run(s, actions), j, Panicked) && !Enabled(Run(s, actions), Receive(j))
  {
    LostWaitsForEver(s, actions, j);
    RunKeepsInv(s, actions);
    ReceivesOwn(Run(s, actions), j);
  }

  /** How many steps the goroutine has left with its present call. */
  function Left(s: State): nat {
    if s.running.None? then 0 else if In(s, s.running.value, Running) then 2 else 1
  }

  /** How long until the call can have its answer. */
  function Rank(s: State, j: nat): nat {
    if In(s, j, Fetched) then 3 * |s.dataChan| + Left(s) + 4
    else if In(s, j, Sent) then 3 * |s.dataChan| + Left(s)
    else if In(s, j, Running) then 2
    else if In(s, j, Ran) then 1
    else 0
  }

  /** The next step towards it, no function panicking: the caller's own, or the goroutine's. */
  function NextStep(s: State, j: nat): Action {
    if In(s, j, Answered) then Receive(j)
    else if In(s, j, Fetched) && |s.dataChan| < QUEUE_CAP then Send(j)
    else if s.running.None? then Take
    else if In(s, s.running.value, Running) then Return
    else Answer
  }

  lemma PendingWhere(s: State, j: nat)
    requires Inv(s) && Pending(s, j) && !Lost(s, j)
    ensures NotBegun(s, j) || In(s, j, Answered) || (s.running == Some(j) && (In(s, j, Running) || In(s, j, Ran)))
    ensures In(s, j, Sent) ==> s.dataChan != []
    ensures s.running.Some? ==> var c := s.running.value;
      In(s, c, Running) || (In(s, c, Ran) && s.calls[c].waitChan.Some? && s.calls[c].waitChan.value !in s.answers)
  {
    assert Located(s, j);
    if s.running.Some? {
      assert Located(s, s.running.value);
      ReceivesOwn(s, s.running.value);
    }
  }

  lemma NextStepEnabled(s: State, j: nat)
    requires Inv(s) && Pending(s, j) && !Lost(s, j)
    ensures Enabled(s, NextStep(s, j))
  {
    PendingWhere(s, j);
    ReceivesOwn(s, j);
  }

  lemma NextStepNears(s: State, j: nat)
    requires Inv(s) && Pending(s, j) && !Lost(s, j) && !In(s, j, Answered)
    ensures Enabled(s, NextStep(s, j))
    ensures var t := Do(s, NextStep(s, j)); Pending(t, j) && !Lost(t, j) && Rank(t, j) < Rank(s, j)
  {
    NextStepEnabled(s, j);
    PendingWhere(s, j);
    assert Located(s, j) && Located(s, Mover(s, NextStep(s, j)));
  }

  lemma RunCons(s: State, a: Action, rest: seq<Action>)
    requires Enabled(s, a) && CanRun(Do(s, a), rest)
    ensures CanRun(s, [a] + rest) && Run(s, [a] + rest) == Run(Do(s, a), rest)
  {
    assert ([a] + rest)[1..] == rest;
  }

  /** If no function panics and the context is not done from here on, the goroutine's own steps
      bring the answer, and the caller goes on. */
  lemma {:induction false} WaitingGoesOn(s: State, j: nat) returns (actions: seq<Action>)
    requires Inv(s) && Pending(s, j) && !Lost(s, j)
    ensures CanRun(s, actions) && In(Run(s, actions), j, Received)
    ensures forall a <- actions :: a.Take? || a.Return? || a.Answer? || a == Send(j) || a == Receive(j)
    decreases Rank(s, j)
  {
    NextStepEnabled(s, j);
    var a := NextStep(s, j);
    var rest := [];
    if !In(s, j, Answered) {
      NextStepNears(s, j);
      StepKeepsInv(s, a);
      rest := WaitingGoesOn(Do(s, a), j);
    }
    RunCons(s, a, rest);
    actions := [a] + rest;
  }

  ghost predicate CanGoOn(s: State, j: nat) {
    exists actions :: CanRun(s, actions) && In(Run(s, actions), j, Received)
  }

  /** In every run: a call that waits for its function can still go on exactly if the function
      has not panicked and, once the context is done, was begun before. */
  lemma GoesOnIff(before: seq<Action>, j: nat)
    requires CanRun(Init, before) && Pending(Run(Init, before), j)
    ensures var s := Run(Init, before);
      CanGoOn(s, j) <==> !In(s, j, Panicked) && (s.stopped ==> !NotBegun(s, j))
  {
    var s := Run(Init, before);
    RunKeepsInv(Init, before);
    if Lost(s, j) {
      forall actions | CanRun(s, actions)
        ensures !In(Run(s, actions), j, Received)
      {
        LostWaitsForEver(s, actions, j);
      }
    } else {
      var actions := WaitingGoesOn(s, j);
    }
  }

  /** A call is sent, then the context is done: it waits for ever though nothing panicked. */
  lemma StopHappens() returns (actions: seq<Action>)
    ensures CanRun(Init, actions) && Waits(Run(Init, actions), 0) && !CanGoOn(Run(Init, actions), 0)
    ensures forall j :: !In(Run(Init, actions), j, Panicked)
  {
    var s1 := Do(Init, Fetch(0, Some(0)));
    var s2 := Do(s1, Send(0));
    RunCons(s2, Stop, []);
    RunCons(s1, Send(0), [Stop] + []);
    actions := [Send(0)] + ([Stop] + []);
    RunCons(Init, Fetch(0, Some(0)), actions);
    actions := [Fetch(0, Some(0))] + actions;
    GoesOnIff(actions, 0);
  }

  /** And it can come to that: a call whose function panics at once. */
  lemma PanicHappens() returns (actions: seq<Action>)
    ensures CanRun(Init, actions) && Waits(Run(Init, actions), 0) && In(Run(Init, actions), 0, Panicked)
  {
    var s1 := Do(Init, Fetch(0, Some(0)));
    var s2 := Do(s1, Send(0));
    var s3 := Do(s2, Take);
    RunCons(s3, Panic, []);
    RunCons(s2, Take, [Panic] + []);
    actions := [Take] + ([Panic] + []);
    RunCons(s1, Send(0), actions);
    actions := [Send(0)] + actions;
    RunCons(Init, Fetch(0, Some(0)), actions);
    actions := [Fetch(0, Some(0))] + actions;
  }
}
