/** `BatchSpawns`: a list under a mutex, a lossy signal channel of capacity 10, and one
    consumer. Every atomic step of every goroutine is one `Action`. */
module BatchSpawns {
  import opened Sequences

  const CHAN_CAP: nat := 10

  datatype Flag = Flush | Close

  /** Where the consumer is in its loop: at the select, draining signals, about to lock and
      swap, calling back with a batch in hand, or gone. */
  datatype Consumer<T> =
    | AtSelect
    | Draining(flag: Flag)
    | BeforeSwap(flag: Flag)
    | InHand(batch: seq<T>, flag: Flag)
    | Stopped

  datatype State<T> = State(
    batchSize: nat,
    datas: seq<T>,
    signals: seq<Flag>,
    consumer: Consumer<T>,
    /** Adders that made the list reach `batchSize` and have yet to try to signal. */
    signalling: nat,
    /** Batches handed to the callback, oldest first. */
    delivered: seq<seq<T>>,
    /** History: items in lock order, how many were added before the last swap, and the
        signals taken since the last callback. */
    added: seq<T>,
    swapped: nat,
    drained: seq<Flag>)

  datatype Action<T> =
    | Append(item: T)
    | Signal
    | Send(flag: Flag)
    | TakeSignal
    | DrainDone
    | Tick
    | Swap
    | Callback

  function Init<T>(batchSize: int): State<T> {
    State(if batchSize <= 0 then 10 else batchSize, [], [], AtSelect, 0, [], [], 0, [])
  }

  predicate Enabled<T>(s: State<T>, a: Action<T>) {
    match a
    case Append(_) => true
    case Signal => s.signalling > 0
    case Send(_) => |s.signals| < CHAN_CAP
    case TakeSignal => s.signals != [] && (s.consumer.AtSelect? || s.consumer.Draining?)
    case DrainDone => s.signals == [] && s.consumer.Draining?
    case Tick => s.consumer.AtSelect?
    case Swap => s.consumer.BeforeSwap?
    case Callback => s.consumer.InHand?
  }

  function Do<T>(s: State<T>, a: Action<T>): State<T>
    requires Enabled(s, a)
  {
    match a
    case Append(item) =>
      var datas := s.datas + [item];
      s.(datas := datas, added := s.added + [item],
         signalling := if |datas| == s.batchSize then s.signalling + 1 else s.signalling)
    case Signal =>
      s.(signalling := s.signalling - 1,
         signals := if |s.signals| < CHAN_CAP then s.signals + [Flush] else s.signals)
    case Send(flag) =>
      s.(signals := s.signals + [flag])
    case TakeSignal =>
      s.(signals := s.signals[1..], consumer := Draining(s.signals[0]), drained := s.drained + [s.signals[0]])
    case DrainDone =>
      s.(consumer := BeforeSwap(s.consumer.flag))
    case Tick =>
      s.(consumer := BeforeSwap(Flush))
    case Swap =>
      s.(consumer := InHand(s.datas, s.consumer.flag), datas := [], swapped := |s.added|)
    case Callback =>
      s.(consumer := if s.consumer.flag.Close? then Stopped else AtSelect,
         delivered := s.delivered + [s.consumer.batch], drained := if s.consumer.flag.Close? then s.drained else [])
  }

  /** A run: every action enabled where it happens. */
  predicate CanRun<T>(s: State<T>, actions: seq<Action<T>>)
    decreases |actions|
  {
    actions == [] || (Enabled(s, actions[0]) && CanRun(Do(s, actions[0]), actions[1..]))
  }

  function Run<T>(s: State<T>, actions: seq<Action<T>>): State<T>
    requires CanRun(s, actions)
    decreases |actions|
  {
    if actions == [] then s else Run(Do(s, actions[0]), actions[1..])
  }

  lemma RunCons<T>(s: State<T>, a: Action<T>, rest: seq<Action<T>>)
    requires Enabled(s, a) && CanRun(Do(s, a), rest)
    ensures CanRun(s, [a] + rest) && Run(s, [a] + rest) == Run(Do(s, a), rest)
  {
    assert ([a] + rest)[1..] == rest;
  }

  function Flatten<T>(batches: seq<seq<T>>): seq<T> {
    if batches == [] then [] else Flatten(batches[..|batches| - 1]) + batches[|batches| - 1]
  }

  function Held<T>(s: State<T>): seq<T> {
    if s.consumer.InHand? then s.consumer.batch else []
  }

  /** Nothing is lost, doubled or reordered. */
  ghost predicate ExactlyOnce<T>(s: State<T>) {
    && s.swapped <= |s.added|
    && Flatten(s.delivered) + Held(s) == s.added[..s.swapped]
    && s.datas == s.added[s.swapped..]
  }

  /** A full list never waits unseen: a signal is in the channel, or taken and not yet
      acted on, or an adder is about to send it. */
  ghost predicate NoLostWakeUp<T>(s: State<T>) {
    !s.consumer.Stopped? && |s.datas| >= s.batchSize ==>
      s.signals != [] || s.consumer.Draining? || s.consumer.BeforeSwap? || s.signalling > 0
  }

  /** The flag acted on is the last one drained; `Flush` after a mere tick. */
  ghost predicate FlagIsLast<T>(s: State<T>) {
    var last := if s.drained == [] then Flush else s.drained[|s.drained| - 1];
    match s.consumer
    case AtSelect => s.drained == []
    case Draining(flag) => s.drained != [] && flag == last
    case BeforeSwap(flag) => flag == last
    case InHand(_, flag) => flag == last
    case Stopped => last == Close
  }

  ghost predicate Inv<T>(s: State<T>) {
    && s.batchSize > 0
    && |s.signals| <= CHAN_CAP
    && ExactlyOnce(s)
    && NoLostWakeUp(s)
    && FlagIsLast(s)
  }

  lemma StepKeepsItems<T>(s: State<T>, a: Action<T>)
    requires ExactlyOnce(s) && Enabled(s, a)
    ensures ExactlyOnce(Do(s, a))
  {
    var t := Do(s, a);
    match a
    case Append(item) =>
      assert t.added[..t.swapped] == s.added[..s.swapped] && t.added[t.swapped..] == s.added[s.swapped..] + [item];
    case Swap =>
      assert s.added == s.added[..s.swapped] + s.added[s.swapped..];
      assert t.added[..t.swapped] == s.added;
      assert Held(s) == [] && Flatten(s.delivered) + [] == Flatten(s.delivered);
    case Callback =>
      assert t.delivered[..|t.delivered| - 1] == s.delivered;
      assert Flatten(t.delivered) == Flatten(s.delivered) + Held(s);
      assert Flatten(t.delivered) + [] == Flatten(t.delivered);
    case _ =>
  }

  lemma StepKeepsFlag<T>(s: State<T>, a: Action<T>)
    requires FlagIsLast(s) && Enabled(s, a)
    ensures FlagIsLast(Do(s, a))
  {
  }

  lemma StepKeepsInv<T>(s: State<T>, a: Action<T>)
    requires Inv(s) && Enabled(s, a)
    ensures Inv(Do(s, a))
  {
    StepKeepsItems(s, a);
    StepKeepsFlag(s, a);
  }

  /** Every interleaving of adders, flushers, closers, ticks and the consumer. */
  lemma {:induction false} RunKeepsInv<T>(s: State<T>, actions: seq<Action<T>>)
    requires Inv(s) && CanRun(s, actions)
    ensures Inv(Run(s, actions))
    decreases |actions|
  {
    if actions != [] {
      StepKeepsInv(s, actions[0]);
      RunKeepsInv(Do(s, actions[0]), actions[1..]);
    }
  }

  /** The items of a run's calls of `Add`, in lock order. */
  function Appended<T>(actions: seq<Action<T>>): seq<T> {
    if actions == [] then []
    else (if actions[0].Append? then [actions[0].item] else []) + Appended(actions[1..])
  }

  /** The batches that a run hands to the callback. */
  function HandedBack<T>(s: State<T>, actions: seq<Action<T>>): seq<seq<T>>
    requires CanRun(s, actions)
    decreases |actions|
  {
    if actions == [] then []
    else (if actions[0].Callback? then [Held(s)] else []) + HandedBack(Do(s, actions[0]), actions[1..])
  }

  lemma {:induction false} RunRecords<T>(s: State<T>, actions: seq<Action<T>>)
    requires CanRun(s, actions)
    ensures Run(s, actions).added == s.added + Appended(actions)
    ensures Run(s, actions).delivered == s.delivered + HandedBack(s, actions)
    ensures Run(s, actions).batchSize == s.batchSize
    decreases |actions|
  {
    if actions == [] {
      assert s.added + [] == s.added && s.delivered + [] == s.delivered;
    } else {
      var a, t := actions[0], Do(s, actions[0]);
      RunRecords(t, actions[1..]);
      Associative(s.added, if a.Append? then [a.item] else [], Appended(actions[1..]));
      Associative(s.delivered, if a.Callback? then [Held(s)] else [], HandedBack(t, actions[1..]));
      assert s.added + [] == s.added && s.delivered + [] == s.delivered;
    }
  }

  /** From the start, any run at all: what was added is what the callback was handed, what is in
      the consumer's hand and what waits, in lock order; and no list as long as the batch size
      asked for, or 10, waits unseen. */
  lemma RunFromInit<T>(batchSize: int, actions: seq<Action<T>>)
    requires CanRun(Init(batchSize), actions)
    ensures var s := Run(Init(batchSize), actions);
      && Appended(actions) == Flatten(HandedBack(Init(batchSize), actions)) + Held(s) + s.datas
      && s.added == Appended(actions) && s.delivered == HandedBack(Init(batchSize), actions)
      && s.batchSize == (if batchSize > 0 then batchSize else 10) && NoLostWakeUp(s)
      && s.swapped <= |s.added| && (s.consumer.Stopped? ==> Flatten(s.delivered) == s.added[..s.swapped])
  {
    RunKeepsInv(Init(batchSize), actions);
    InitRecords(batchSize, actions);
    AddedIsAll(Run(Init(batchSize), actions));
  }

  lemma InitRecords<T>(batchSize: int, actions: seq<Action<T>>)
    requires CanRun(Init(batchSize), actions)
    ensures var s := Run(Init(batchSize), actions);
      && s.added == Appended(actions) && s.delivered == HandedBack(Init(batchSize), actions)
      && s.batchSize == if batchSize > 0 then batchSize else 10
  {
    RunRecords(Init(batchSize), actions);
    assert [] + Appended(actions) == Appended(actions);
    assert [] + HandedBack(Init(batchSize), actions) == HandedBack(Init(batchSize), actions);
  }

  lemma AddedIsAll<T>(s: State<T>)
    requires ExactlyOnce(s)
    ensures s.added == Flatten(s.delivered) + Held(s) + s.datas
    ensures !s.consumer.InHand? ==> Flatten(s.delivered) == s.added[..s.swapped]
  {
    assert s.added == s.added[..s.swapped] + s.added[s.swapped..];
    assert Flatten(s.delivered) + [] == Flatten(s.delivered);
  }

  /** After a callback the consumer stops exactly if the last signal it drained, not just
      some signal, was `Close`. */
  lemma StopsOnLastClose<T>(s: State<T>)
    requires Inv(s) && s.consumer.InHand?
    ensures Do(s, Callback).consumer.Stopped? <==> s.drained != [] && s.drained[|s.drained| - 1] == Close
  {
  }

  /** So a `Close` can be swallowed: here a flush arrives before the consumer drains. */
  lemma CloseIsSwallowed<T>() returns (actions: seq<Action<T>>)
    ensures Send(Close) in actions && CanRun(Init<T>(1), actions)
    ensures var s := Run(Init<T>(1), actions); s.consumer.AtSelect? && s.signals == []
  {
    var s0 := Init<T>(1);
    var s1 := Do(s0, Send(Close));
    var s2 := Do(s1, Send(Flush));
    var s3 := Do(s2, TakeSignal);
    var s4 := Do(s3, TakeSignal);
    var s5 := Do(s4, DrainDone);
    var s6 := Do(s5, Swap);
    RunCons(s6, Callback, []);
    RunCons(s5, Swap, [Callback] + []);
    actions := [Swap] + ([Callback] + []);
    RunCons(s4, DrainDone, actions);
    actions := [DrainDone] + actions;
    RunCons(s3, TakeSignal, actions);
    actions := [TakeSignal] + actions;
    RunCons(s2, TakeSignal, actions);
    actions := [TakeSignal] + actions;
    RunCons(s1, Send(Flush), actions);
    actions := [Send(Flush)] + actions;
    RunCons(s0, Send(Close), actions);
    actions := [Send(Close)] + actions;
  }

  /** Is everything now in the list bound to be delivered without another tick? */
  ghost predicate Bound<T>(s: State<T>) {
    match s.consumer
    case Draining(_) => true
    case BeforeSwap(_) => true
    case InHand(_, flag) => s.datas == [] || (|s.datas| >= s.batchSize && flag == Flush)
    case AtSelect => |s.datas| >= s.batchSize
    case Stopped => false
  }

  function Rank<T>(s: State<T>): nat {
    match s.consumer
    case InHand(_, _) => if s.datas == [] then 0 else |s.signals| + 6
    case BeforeSwap(_) => 1
    case Draining(_) => |s.signals| + 2
    case AtSelect => if s.signals == [] then 5 else |s.signals| + 3
    case Stopped => 0
  }

  /** The consumer's next step, or the signal it is waiting for. */
  function NextStep<T>(s: State<T>): Action<T> {
    match s.consumer
    case Draining(_) => if s.signals == [] then DrainDone else TakeSignal
    case BeforeSwap(_) => Swap
    case InHand(_, _) => Callback
    case _ => if s.signals == [] then Signal else TakeSignal
  }

  lemma StaysBound<T>(s: State<T>)
    requires NoLostWakeUp(s) && Bound(s)
    ensures Enabled(s, NextStep(s)) && Do(s, NextStep(s)).added == s.added
    ensures Rank(s) > 0 ==> Bound(Do(s, NextStep(s))) && Rank(Do(s, NextStep(s))) < Rank(s)
  {
  }

  lemma BoundIsDelivered<T>(s: State<T>)
    requires ExactlyOnce(s) && Bound(s) && Rank(s) == 0
    ensures NextStep(s).Callback? && Flatten(Do(s, NextStep(s)).delivered) == s.added
  {
    var t := Do(s, NextStep(s));
    StepKeepsItems(s, NextStep(s));
    assert Flatten(t.delivered) + [] == Flatten(t.delivered);
  }

  /** The wake-up is not only pending but enough: signals already under way and the
      consumer's own steps deliver everything added so far. */
  lemma {:induction false} WakeUpDelivers<T>(s: State<T>) returns (actions: seq<Action<T>>)
    requires Inv(s) && Bound(s)
    ensures CanRun(s, actions)
    ensures forall a <- actions :: a.Signal? || a.TakeSignal? || a.DrainDone? || a.Swap? || a.Callback?
    ensures Flatten(Run(s, actions).delivered) == s.added == Run(s, actions).added
    decreases Rank(s)
  {
    StaysBound(s);
    StepKeepsInv(s, NextStep(s));
    var rest := [];
    if Rank(s) == 0 {
      BoundIsDelivered(s);
    } else {
      rest := WakeUpDelivers(Do(s, NextStep(s)));
    }
    RunCons(s, NextStep(s), rest);
    actions := [NextStep(s)] + rest;
  }

  // When a `Close` works.

  /** The last signal under way is `Close`: the last in the channel, or the last drained if the
      channel is empty. */
  ghost predicate CloseIsLast<T>(s: State<T>) {
    match s.consumer
    case Draining(flag) => if s.signals == [] then flag.Close? else s.signals[|s.signals| - 1].Close?
    case BeforeSwap(flag) => flag.Close? || (s.signals != [] && s.signals[|s.signals| - 1].Close?)
    case InHand(_, flag) => flag.Close? || (s.signals != [] && s.signals[|s.signals| - 1].Close?)
    case AtSelect => s.signals != [] && s.signals[|s.signals| - 1].Close?
    case Stopped => true
  }

  function CloseRank<T>(s: State<T>): nat {
    match s.consumer
    case Stopped => 0
    case InHand(_, flag) => if flag.Close? then 1 else |s.signals| + 7
    case BeforeSwap(flag) => if flag.Close? then 2 else |s.signals| + 8
    case Draining(_) => |s.signals| + 3
    case AtSelect => |s.signals| + 4
  }

  predicate OwnStep<T>(a: Action<T>) {
    a.TakeSignal? || a.DrainDone? || a.Swap? || a.Callback?
  }

  lemma CloseStaysLast<T>(s: State<T>)
    requires CloseIsLast(s) && !s.consumer.Stopped?
    ensures Enabled(s, NextStep(s)) && OwnStep(NextStep(s)) && Do(s, NextStep(s)).added == s.added
    ensures CloseIsLast(Do(s, NextStep(s))) && CloseRank(Do(s, NextStep(s))) < CloseRank(s)
  {
  }

  /** If no signal follows it, a `Close` stops the consumer by its own steps alone, with
      everything added before its last swap delivered. */
  lemma {:induction false} CloseStops<T>(s: State<T>) returns (actions: seq<Action<T>>)
    requires Inv(s) && CloseIsLast(s)
    ensures CanRun(s, actions) && forall a <- actions :: OwnStep(a)
    ensures var t := Run(s, actions);
      && t.consumer.Stopped? && t.added == s.added
      && t.swapped <= |t.added| && Flatten(t.delivered) == t.added[..t.swapped]
    decreases CloseRank(s)
  {
    if s.consumer.Stopped? {
      actions := [];
      assert Flatten(s.delivered) + [] == Flatten(s.delivered);
    } else {
      CloseStaysLast(s);
      StepKeepsInv(s, NextStep(s));
      var rest := CloseStops(Do(s, NextStep(s)));
      RunCons(s, NextStep(s), rest);
      actions := [NextStep(s)] + rest;
    }
  }

  lemma OwnStepsStay<T>(s: State<T>, a: Action<T>)
    requires !CloseIsLast(s) && Enabled(s, a) && OwnStep(a)
    ensures !CloseIsLast(Do(s, a))
  {
  }

  lemma {:induction false} OwnStepsNeverStop<T>(s: State<T>, actions: seq<Action<T>>)
    requires !CloseIsLast(s) && CanRun(s, actions) && forall a <- actions :: OwnStep(a)
    ensures !Run(s, actions).consumer.Stopped?
    decreases |actions|
  {
    if actions != [] {
      assert actions[0] in actions && forall a <- actions[1..] :: a in actions;
      OwnStepsStay(s, actions[0]);
      OwnStepsNeverStop(Do(s, actions[0]), actions[1..]);
    }
  }

  ghost predicate StopsAlone<T(!new)>(s: State<T>) {
    exists actions :: CanRun(s, actions) && (forall a <- actions :: OwnStep(a)) && Run(s, actions).consumer.Stopped?
  }

  /** What is sent so far stops the consumer exactly if `Close` is the last of it. */
  lemma StopsAloneIff<T(!new)>(s: State<T>)
    requires Inv(s)
    ensures StopsAlone(s) <==> CloseIsLast(s)
  {
    if CloseIsLast(s) {
      var actions := CloseStops(s);
    } else {
      forall actions | CanRun(s, actions) && forall a <- actions :: OwnStep(a)
        ensures !Run(s, actions).consumer.Stopped?
      {
        OwnStepsNeverStop(s, actions);
      }
    }
  }

  /** A tick delivers what waits, whether the list is full or not. */
  lemma TickDelivers<T>(s: State<T>) returns (actions: seq<Action<T>>)
    requires Inv(s) && s.consumer.AtSelect?
    ensures CanRun(s, actions) && forall a <- actions :: a.Tick? || OwnStep(a)
    ensures var t := Run(s, actions); t.consumer.AtSelect? && Flatten(t.delivered) == s.added == t.added
  {
    var s1 := Do(s, Tick);
    var s2 := Do(s1, Swap);
    StepKeepsItems(s, Tick);
    StepKeepsItems(s1, Swap);
    StepKeepsItems(s2, Callback);
    var t := Do(s2, Callback);
    assert Flatten(t.delivered) + [] == Flatten(t.delivered);
    RunCons(s2, Callback, []);
    RunCons(s1, Swap, [Callback] + []);
    RunCons(s, Tick, [Swap] + ([Callback] + []));
    actions := [Tick] + ([Swap] + ([Callback] + []));
  }

  /** How far the consumer is from a select with nothing to take. */
  function LoopRank<T>(s: State<T>): nat {
    4 * |s.signals| + match s.consumer
      case Draining(_) => 3
      case BeforeSwap(_) => 2
      case InHand(_, _) => 1
      case _ => 0
  }

  /** So unless a `Close` is the last signal, the consumer's own steps and one tick deliver all
      that was added so far, and it goes on. */
  lemma {:induction false} TicksDeliver<T>(s: State<T>) returns (actions: seq<Action<T>>)
    requires Inv(s) && !CloseIsLast(s)
    ensures CanRun(s, actions) && forall a <- actions :: a.Tick? || OwnStep(a)
    ensures var t := Run(s, actions); t.consumer.AtSelect? && Flatten(t.delivered) == s.added == t.added
    decreases LoopRank(s)
  {
    if s.consumer.AtSelect? && s.signals == [] {
      actions := TickDelivers(s);
    } else {
      var a := NextStep(s);
      OwnStepsStay(s, a);
      StepKeepsInv(s, a);
      var rest := TicksDeliver(Do(s, a));
      RunCons(s, a, rest);
      actions := [a] + rest;
    }
  }

  // Adders do not flood the channel.

  function Signals<T>(actions: seq<Action<T>>): nat {
    if actions == [] then 0 else (if actions[0].Signal? then 1 else 0) + Signals(actions[1..])
  }

  function Swaps<T>(actions: seq<Action<T>>): nat {
    if actions == [] then 0 else (if actions[0].Swap? then 1 else 0) + Swaps(actions[1..])
  }

  function Full<T>(s: State<T>): nat {
    if |s.datas| >= s.batchSize then 1 else 0
  }

  lemma {:induction false} SignalsAreFew<T>(s: State<T>, actions: seq<Action<T>>)
    requires s.batchSize > 0 && CanRun(s, actions)
    ensures Run(s, actions).signalling + Signals(actions) + Full(s) <=
      s.signalling + Swaps(actions) + Full(Run(s, actions))
    decreases |actions|
  {
    if actions != [] {
      SignalsAreFew(Do(s, actions[0]), actions[1..]);
    }
  }

  /** In every run, however many goroutines add, they signal at most once for each list that is
      swapped and once for the one that waits, if it is full. */
  lemma OneSignalForEachList<T>(batchSize: int, actions: seq<Action<T>>)
    requires CanRun(Init(batchSize), actions)
    ensures Signals(actions) <= Swaps(actions) + Full(Run(Init(batchSize), actions))
  {
    SignalsAreFew(Init(batchSize), actions);
  }
}
