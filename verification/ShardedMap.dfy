/** `ShardedMap`: a set of 64-bit keys split over a power-of-two number of shards, each
    under its own lock, with the total size in a separate atomic counter. */
module ShardedMap {
  import opened Sequences

  const TWO_62: int := 0x4000_0000_0000_0000
  const TWO_63: int := 0x8000_0000_0000_0000
  const TWO_64: int := 0x1_0000_0000_0000_0000

  predicate Int64(x: int) {
    -TWO_63 <= x < TWO_63
  }

  /** `x << 1` on a signed 64-bit integer. */
  function ShiftLeft(x: int): (y: int)
    ensures Int64(y)
  {
    var y := x * 2 % TWO_64;
    if y < TWO_63 then y else y - TWO_64
  }

  function Pow2(k: nat): (p: nat)
    ensures p >= 1
  {
    if k == 0 then 1 else 2 * Pow2(k - 1)
  }

  lemma {:induction false} Pow2Grows(j: nat, k: nat)
    requires j < k
    ensures Pow2(j) < Pow2(k)
  {
    if j + 1 < k {
      Pow2Grows(j, k - 1);
    }
  }

  lemma Pow2Of62()
    ensures Pow2(62) == TWO_62
  {
    assert Pow2(10) == 1024;
    assert Pow2(20) == 1024 * 1024;
    assert Pow2(30) == 1024 * 1024 * 1024;
    assert Pow2(40) == 1024 * 1024 * 1024 * 1024;
    assert Pow2(50) == 1024 * 1024 * 1024 * 1024 * 1024;
    assert Pow2(60) == 1024 * 1024 * 1024 * 1024 * 1024 * 1024;
  }

  /** The least power of two at or above `n`. */
  method NextPowerOfTwo(n: int) returns (p: int, ghost k: nat)
    requires n <= TWO_62
    ensures p == Pow2(k) && n <= p
    ensures forall j: nat | n <= Pow2(j) :: p <= Pow2(j)
  {
    k := 0;
    if n <= 1 {
      return 1, 0;
    }
    p := 1;
    while p < n
      invariant p == Pow2(k)
      invariant forall j: nat | j < k :: Pow2(j) < n
      decreases n - p
    {
      p := ShiftLeft(p);
      k := k + 1;
    }
    forall j: nat | n <= Pow2(j)
      ensures p <= Pow2(j)
    {
      if k < j {
        Pow2Grows(k, j);
      }
    }
  }

  /** The loop variable after `i` rounds. */
  function Shifted(i: nat): (x: int)
    ensures Int64(x)
  {
    if i == 0 then 1 else ShiftLeft(Shifted(i - 1))
  }

  lemma Pow2UpTo62(i: nat)
    requires i <= 62
    ensures Pow2(i) <= TWO_62 && (i < 62 ==> 2 * Pow2(i) <= TWO_62)
  {
    Pow2Of62();
    if i < 62 {
      Pow2Grows(i, 62);
      if i + 1 < 62 {
        Pow2Grows(i + 1, 62);
      }
    }
  }

  lemma ShiftLeftValues(x: int)
    ensures 0 <= 2 * x <= TWO_62 ==> ShiftLeft(x) == 2 * x
    ensures ShiftLeft(TWO_62) == -TWO_63 && ShiftLeft(-TWO_63) == ShiftLeft(0) == 0
  {
  }

  lemma {:induction false} ShiftedValue(i: nat)
    ensures i <= 62 ==> Shifted(i) == Pow2(i)
    ensures i == 63 ==> Shifted(i) == -TWO_63
    ensures i > 63 ==> Shifted(i) == 0
  {
    if i > 0 {
      ShiftedValue(i - 1);
      ShiftLeftValues(Shifted(i - 1));
      if i <= 62 {
        Pow2UpTo62(i - 1);
      } else if i == 63 {
        Pow2Of62();
      }
    }
  }

  /** Some round brings the variable to `n` or above exactly for these sizes; for any
      greater one `NewShardedMap` never returns. */
  lemma LoopExitsIff(n: int)
    requires Int64(n)
    ensures (exists i: nat :: n <= Shifted(i)) <==> n <= TWO_62
  {
    Pow2Of62();
    ShiftedValue(62);
    forall i: nat
      ensures Shifted(i) <= TWO_62
    {
      ShiftedValue(i);
      if i <= 62 {
        Pow2UpTo62(i);
      }
    }
    if n <= TWO_62 {
      assert n <= Shifted(62);
    }
  }

  /** Bitwise and of two unsigned integers. */
  function And(a: nat, b: nat): nat {
    if a == 0 || b == 0 then 0 else 2 * And(a / 2, b / 2) + (a % 2) * (b % 2)
  }

  lemma AndStep(a: nat, b: nat)
    ensures And(a, b) == 2 * And(a / 2, b / 2) + (a % 2) * (b % 2)
  {
  }

  /** Masking with one less than a power of two is taking the residue. */
  lemma {:induction false} MaskIsResidue(key: nat, k: nat)
    ensures And(key, Pow2(k) - 1) == key % Pow2(k) < Pow2(k)
  {
    if k > 0 {
      var m := Pow2(k - 1);
      MaskIsResidue(key / 2, k - 1);
      AndStep(key, 2 * m - 1);
      assert (2 * m - 1) / 2 == m - 1 && (2 * m - 1) % 2 == 1;
      HalfResidue(key, m);
    }
  }

  lemma HalfResidue(key: nat, m: nat)
    requires m > 0
    ensures key % (2 * m) == 2 * (key / 2 % m) + key % 2
  {
    var q, r := key / 2 / m, key / 2 % m;
    assert key / 2 == q * m + r;
    assert key == q * (2 * m) + (2 * r + key % 2);
    ResidueUnique(key / (2 * m), key % (2 * m), q, 2 * r + key % 2, 2 * m);
  }

  lemma MulMonotone(a: int, b: int, m: nat)
    requires a <= b
    ensures a * m <= b * m
  {
  }

  lemma ResidueUnique(q: int, r: nat, q': int, r': nat, m: nat)
    requires r < m && r' < m && q * m + r == q' * m + r'
    ensures r == r'
  {
    if q < q' {
      MulMonotone(q + 1, q', m);
    } else if q' < q {
      MulMonotone(q' + 1, q, m);
    }
  }

  /** `key & mask`, where the mask is the number of shards less one. */
  function GetShard(bits: nat, key: nat): (i: nat)
    ensures i == key % Pow2(bits) && i < Pow2(bits)
  {
    MaskIsResidue(key, bits);
    And(key, Pow2(bits) - 1)
  }

  datatype Op = Load | LoadOrStore | LoadAndDelete

  /** A call of one of the three, and the goroutine that makes it. */
  datatype Call = Call(id: nat, op: Op, key: nat)

  /** A call and the answer it is given. */
  datatype Event = Event(call: Call, answer: bool)

  datatype State = State(
    bits: nat,
    shards: seq<set<nat>>,
    size: int,
    /** Goroutines past their first look, about to take the write lock. */
    relock: map<nat, (Op, nat)>,
    /** Goroutines that have changed a shard and hold its lock, but not yet the counter. */
    stored: map<nat, nat>,
    deleted: map<nat, nat>,
    /** What the goroutines last found a key to be: their answer, once they return. */
    ok: map<nat, bool>)

  datatype Action =
    | Look(id: nat, op: Op, key: nat)
    | LookAgain(id: nat)
    | CountUp(id: nat)
    | CountDown(id: nat)

  function Init(bits: nat): State {
    State(bits, seq(Pow2(bits), i => {}), 0, map[], map[], map[], map[])
  }

  predicate Unlocked(s: State, shard: nat) {
    shard !in s.stored.Values && shard !in s.deleted.Values
  }

  predicate Idle(s: State, id: nat) {
    id !in s.relock && id !in s.stored && id !in s.deleted
  }

  ghost predicate Sharded(s: State) {
    && |s.shards| == Pow2(s.bits)
    && (forall i, key | 0 <= i < |s.shards| && key in s.shards[i] :: GetShard(s.bits, key) == i)
  }

  predicate Has(s: State, key: nat)
    requires |s.shards| == Pow2(s.bits)
  {
    key in s.shards[GetShard(s.bits, key)]
  }

  predicate Enabled(s: State, a: Action) {
    match a
    case Look(id, _, key) => Idle(s, id) && Unlocked(s, GetShard(s.bits, key))
    case LookAgain(id) => id in s.relock && Unlocked(s, GetShard(s.bits, s.relock[id].1))
    case CountUp(id) => id in s.stored
    case CountDown(id) => id in s.deleted
  }

  function Do(s: State, a: Action): State
    requires |s.shards| == Pow2(s.bits) && Enabled(s, a)
  {
    match a
    case Look(id, op, key) =>
      var s1 := s.(ok := s.ok[id := Has(s, key)]);
      if op.Load? || Has(s, key) == op.LoadOrStore? then s1
      else s1.(relock := s.relock[id := (op, key)])
    case LookAgain(id) =>
      var (op, key) := s.relock[id];
      var shard := GetShard(s.bits, key);
      var s1 := s.(relock := s.relock - {id}, ok := s.ok[id := Has(s, key)]);
      if Has(s, key) == op.LoadOrStore? then
        s1
      else if op.LoadOrStore? then
        s1.(shards := s.shards[shard := s.shards[shard] + {key}], stored := s.stored[id := shard])
      else
        s1.(shards := s.shards[shard := s.shards[shard] - {key}], deleted := s.deleted[id := shard])
    case CountUp(id) =>
      s.(size := s.size + 1, stored := s.stored - {id})
    case CountDown(id) =>
      s.(size := s.size - 1, deleted := s.deleted - {id})
  }

  /** What the calls leave in one plain set, run one after the other. */
  function Replay(log: seq<Event>): set<nat> {
    if log == [] then {}
    else
      var call := log[|log| - 1].call;
      var before := Replay(log[..|log| - 1]);
      match call.op
      case Load => before
      case LoadOrStore => before + {call.key}
      case LoadAndDelete => before - {call.key}
  }

  /** Every answer is the one the plain set would have given. */
  ghost predicate Explains(log: seq<Event>) {
    forall i | 0 <= i < |log| :: log[i].answer <==> log[i].call.key in Replay(log[..i])
  }

  /** The calls begun by these actions, each goroutine's latest. */
  function Begun(calls: map<nat, Call>, a: Action): map<nat, Call> {
    if a.Look? then calls[a.id := Call(a.id, a.op, a.key)] else calls
  }

  /** The step settles an answer if the goroutine has looked and need not look again. */
  predicate Settles(s: State, a: Action)
    requires |s.shards| == Pow2(s.bits) && Enabled(s, a)
  {
    (a.Look? || a.LookAgain?) && a.id !in Do(s, a).relock
  }

  /** What the step settles: the call it belongs to, and what the goroutine has found. */
  function Settled(s: State, calls: map<nat, Call>, a: Action): seq<Event>
    requires |s.shards| == Pow2(s.bits) && Enabled(s, a)
  {
    var t, begun := Do(s, a), Begun(calls, a);
    if Settles(s, a) && a.id in begun && a.id in t.ok then [Event(begun[a.id], t.ok[a.id])] else []
  }

  /** The calls of a run with their answers, in the order in which the answers are settled. */
  function History(s: State, calls: map<nat, Call>, actions: seq<Action>): seq<Event>
    requires |s.shards| == Pow2(s.bits) && CanRun(s, actions)
    decreases |actions|
  {
    if actions == [] then []
    else Settled(s, calls, actions[0]) + History(Do(s, actions[0]), Begun(calls, actions[0]), actions[1..])
  }

  /** The set that the calls settled so far leave is the one in the shards. */
  ghost predicate Refines(s: State, log: seq<Event>)
    requires |s.shards| == Pow2(s.bits)
  {
    && Explains(log)
    && (forall key: nat :: key in Replay(log) <==> Has(s, key))
  }

  /** The counter is off by exactly the changes made but not yet counted. */
  ghost predicate Counted(s: State, log: seq<Event>) {
    |Replay(log)| == s.size + |s.stored| - |s.deleted|
  }

  ghost predicate Inv(s: State, calls: map<nat, Call>, log: seq<Event>) {
    && Sharded(s)
    && Refines(s, log)
    && Counted(s, log)
    && OneThingAtATime(s)
    && InCalls(s, calls)
  }

  ghost predicate OneThingAtATime(s: State) {
    && (forall id <- s.relock :: !s.relock[id].0.Load? && id !in s.stored && id !in s.deleted)
    && (forall id <- s.stored :: id !in s.deleted)
  }

  /** Goroutines look again for the call they are in. */
  ghost predicate InCalls(s: State, calls: map<nat, Call>) {
    && (forall id <- calls :: calls[id].id == id)
    && (forall id <- s.relock :: id in calls && calls[id] == Call(id, s.relock[id].0, s.relock[id].1))
  }

  lemma StepKeepsOneThing(s: State, a: Action)
    requires |s.shards| == Pow2(s.bits) && OneThingAtATime(s) && Enabled(s, a)
    ensures OneThingAtATime(Do(s, a))
  {
  }

  lemma StepKeepsCalls(s: State, calls: map<nat, Call>, a: Action)
    requires |s.shards| == Pow2(s.bits) && InCalls(s, calls) && Enabled(s, a)
    ensures InCalls(Do(s, a), Begun(calls, a))
  {
  }

  lemma LogAppend(s: State, log: seq<Event>, e: Event)
    requires |s.shards| == Pow2(s.bits) && Refines(s, log) && e.answer == Has(s, e.call.key)
    ensures Explains(log + [e])
    ensures Replay(log + [e]) ==
      match e.call.op
      case Load => Replay(log)
      case LoadOrStore => Replay(log) + {e.call.key}
      case LoadAndDelete => Replay(log) - {e.call.key}
  {
    var log' := log + [e];
    assert log'[..|log|] == log;
    forall i | 0 <= i < |log'|
      ensures log'[i].answer <==> log'[i].call.key in Replay(log'[..i])
    {
      if i < |log| {
        assert log'[..i] == log[..i];
      }
    }
  }

  lemma LookKeepsRefines(s: State, calls: map<nat, Call>, log: seq<Event>, a: Action)
    requires Inv(s, calls, log) && Enabled(s, a) && a.Look?
    ensures Refines(Do(s, a), log + Settled(s, calls, a))
  {
    var e := Event(Call(a.id, a.op, a.key), Has(s, a.key));
    LogAppend(s, log, e);
    LookSettles(s, calls, a);
    assert log + [] == log;
    forall k: nat
      ensures k in Replay(log + Settled(s, calls, a)) <==> Has(Do(s, a), k)
    {
      assert Has(Do(s, a), k) == Has(s, k);
    }
  }

  lemma LookSettles(s: State, calls: map<nat, Call>, a: Action)
    requires |s.shards| == Pow2(s.bits) && Enabled(s, a) && a.Look?
    ensures Do(s, a).shards == s.shards
    ensures Settled(s, calls, a) ==
      if a.op.Load? || Has(s, a.key) == a.op.LoadOrStore? then [Event(Call(a.id, a.op, a.key), Has(s, a.key))] else []
  {
  }

  lemma StepKeepsSharded(s: State, a: Action)
    requires Sharded(s) && Enabled(s, a)
    ensures Sharded(Do(s, a)) && Do(s, a).bits == s.bits
  {
  }

  lemma HasAfter(s: State, id: nat, k: nat)
    requires Sharded(s) && OneThingAtATime(s) && Enabled(s, LookAgain(id))
    ensures |Do(s, LookAgain(id)).shards| == Pow2(s.bits)
    ensures Has(Do(s, LookAgain(id)), k) <==> if k == s.relock[id].1 then s.relock[id].0.LoadOrStore? else Has(s, k)
  {
  }

  lemma LookAgainSettles(s: State, calls: map<nat, Call>, id: nat)
    requires |s.shards| == Pow2(s.bits) && InCalls(s, calls) && Enabled(s, LookAgain(id))
    ensures Settled(s, calls, LookAgain(id)) == [Event(calls[id], Has(s, calls[id].key))]
  {
  }

  lemma LookAgainKeepsRefines(s: State, calls: map<nat, Call>, log: seq<Event>, id: nat)
    requires Inv(s, calls, log) && Enabled(s, LookAgain(id))
    ensures |Do(s, LookAgain(id)).shards| == Pow2(s.bits)
    ensures Refines(Do(s, LookAgain(id)), log + Settled(s, calls, LookAgain(id)))
  {
    var e := Event(calls[id], Has(s, calls[id].key));
    LookAgainSettles(s, calls, id);
    LogAppend(s, log, e);
    HasAfter(s, id, calls[id].key);
    var s' := Do(s, LookAgain(id));
    forall k: nat
      ensures k in Replay(log + [e]) <==> Has(s', k)
    {
      HasAfter(s, id, k);
    }
  }

  /** How an operation that gives this answer changes the number of keys. */
  function Change(op: Op, answer: bool): int {
    if op.LoadOrStore? && !answer then 1 else if op.LoadAndDelete? && answer then -1 else 0
  }

  lemma LogAppendCount(s: State, calls: map<nat, Call>, log: seq<Event>, call: Call)
    requires Inv(s, calls, log)
    ensures |Replay(log + [Event(call, Has(s, call.key))])| == |Replay(log)| + Change(call.op, Has(s, call.key))
  {
    LogAppend(s, log, Event(call, Has(s, call.key)));
    var before := Replay(log);
    assert call.key in before <==> Has(s, call.key);
    if Has(s, call.key) {
      assert before + {call.key} == before;
    } else {
      assert before - {call.key} == before;
    }
  }

  lemma LookKeepsCounted(s: State, calls: map<nat, Call>, log: seq<Event>, a: Action)
    requires Inv(s, calls, log) && Enabled(s, a) && a.Look?
    ensures Counted(Do(s, a), log + Settled(s, calls, a))
  {
    LogAppendCount(s, calls, log, Call(a.id, a.op, a.key));
    LookSettles(s, calls, a);
    assert log + [] == log;
  }

  lemma LookAgainKeepsCounted(s: State, calls: map<nat, Call>, log: seq<Event>, id: nat)
    requires Inv(s, calls, log) && Enabled(s, LookAgain(id))
    ensures Counted(Do(s, LookAgain(id)), log + Settled(s, calls, LookAgain(id)))
  {
    var call := calls[id];
    LogAppendCount(s, calls, log, call);
    LookAgainSettles(s, calls, id);
    var s' := Do(s, LookAgain(id));
    assert id !in s.stored && id !in s.deleted && !call.op.Load?;
    assert Change(call.op, Has(s, call.key)) == (|s'.stored| - |s.stored|) - (|s'.deleted| - |s.deleted|);
    assert s'.size == s.size;
  }

  lemma CountKeepsCounted(s: State, calls: map<nat, Call>, log: seq<Event>, a: Action)
    requires Inv(s, calls, log) && Enabled(s, a) && (a.CountUp? || a.CountDown?)
    ensures Counted(Do(s, a), log) && Refines(Do(s, a), log)
  {
    assert (s.stored - {a.id}).Keys == s.stored.Keys - {a.id};
    assert (s.deleted - {a.id}).Keys == s.deleted.Keys - {a.id};
    assert forall k: nat :: Has(Do(s, a), k) == Has(s, k);
  }

  /** Each step settles at most one answer, of the call of the goroutine that moves. */
  lemma StepKeepsInv(s: State, calls: map<nat, Call>, log: seq<Event>, a: Action)
    requires Inv(s, calls, log) && Enabled(s, a)
    ensures Inv(Do(s, a), Begun(calls, a), log + Settled(s, calls, a)) && Do(s, a).bits == s.bits
  {
    StepKeepsOneThing(s, a);
    StepKeepsCalls(s, calls, a);
    StepKeepsSharded(s, a);
    if a.Look? {
      LookKeepsRefines(s, calls, log, a);
      LookKeepsCounted(s, calls, log, a);
    } else if a.LookAgain? {
      LookAgainKeepsCounted(s, calls, log, a.id);
      LookAgainKeepsRefines(s, calls, log, a.id);
    } else {
      assert log + Settled(s, calls, a) == log;
      CountKeepsCounted(s, calls, log, a);
    }
  }

  predicate CanRun(s: State, actions: seq<Action>)
    requires |s.shards| == Pow2(s.bits)
    decreases |actions|
  {
    actions == [] || (Enabled(s, actions[0]) && CanRun(Do(s, actions[0]), actions[1..]))
  }

  function Run(s: State, actions: seq<Action>): State
    requires |s.shards| == Pow2(s.bits) && CanRun(s, actions)
    decreases |actions|
  {
    if actions == [] then s else Run(Do(s, actions[0]), actions[1..])
  }

  /** The calls that a run leaves each goroutine in or behind. */
  function AllBegun(calls: map<nat, Call>, actions: seq<Action>): map<nat, Call>
    decreases |actions|
  {
    if actions == [] then calls else AllBegun(Begun(calls, actions[0]), actions[1..])
  }

  lemma {:induction false} RunKeepsInv(s: State, calls: map<nat, Call>, log: seq<Event>, actions: seq<Action>)
    requires Inv(s, calls, log) && CanRun(s, actions)
    ensures Inv(Run(s, actions), AllBegun(calls, actions), log + History(s, calls, actions))
    ensures Run(s, actions).bits == s.bits
    decreases |actions|
  {
    if actions == [] {
      assert log + [] == log;
    } else {
      var a, rest := actions[0], actions[1..];
      StepKeepsInv(s, calls, log, a);
      RunKeepsInv(Do(s, a), Begun(calls, a), log + Settled(s, calls, a), rest);
      Associative(log, Settled(s, calls, a), History(Do(s, a), Begun(calls, a), rest));
    }
  }

  /** Every interleaving gives its calls the answers that one set would, in the order in which
      the answers are settled; the shards hold that set, each key in its own shard only, and the
      counter is off by just the changes not yet counted. */
  lemma RefinesOneSet(bits: nat, actions: seq<Action>)
    requires CanRun(Init(bits), actions)
    ensures var s, history := Run(Init(bits), actions), History(Init(bits), map[], actions);
      && Explains(history)
      && |s.shards| == Pow2(bits)
      && (forall i, key: nat | 0 <= i < |s.shards| ::
            key in s.shards[i] <==> key in Replay(history) && i == key % Pow2(bits))
      && |Replay(history)| == s.size + |s.stored| - |s.deleted|
  {
    var s, history := Run(Init(bits), actions), History(Init(bits), map[], actions);
    RunKeepsInv(Init(bits), map[], [], actions);
    assert [] + history == history;
    forall i, key: nat | 0 <= i < |s.shards|
      ensures key in s.shards[i] <==> key in Replay(history) && i == key % Pow2(bits)
    {
      OneSet(s, history, i, key);
    }
  }

  lemma OneSet(s: State, log: seq<Event>, i: nat, key: nat)
    requires Sharded(s) && Refines(s, log) && i < |s.shards|
    ensures key in s.shards[i] <==> key in Replay(log) && i == key % Pow2(s.bits)
  {
    assert Has(s, key) <==> key in s.shards[GetShard(s.bits, key)];
  }

  // Every call is in that history once.

  /** The events of one goroutine. */
  function Of(log: seq<Event>, id: nat): seq<Event> {
    if log == [] then [] else (if log[0].call.id == id then [log[0]] else []) + Of(log[1..], id)
  }

  lemma {:induction false} OfConcat(a: seq<Event>, b: seq<Event>, id: nat)
    ensures Of(a + b, id) == Of(a, id) + Of(b, id)
  {
    if a == [] {
      assert a + b == b && Of(a, id) + Of(b, id) == Of(b, id);
    } else {
      assert (a + b)[1..] == a[1..] + b && (a + b)[0] == a[0];
      OfConcat(a[1..], b, id);
      Associative(if a[0].call.id == id then [a[0]] else [], Of(a[1..], id), Of(b, id));
    }
  }

  /** Only its own second look settles the answer of a goroutine that has looked. */
  lemma StepSettles(s: State, calls: map<nat, Call>, a: Action, id: nat)
    requires |s.shards| == Pow2(s.bits) && Enabled(s, a) && !(a.Look? && a.id == id)
    requires InCalls(s, calls) && id in calls && id in s.ok
    ensures id in Begun(calls, a) && Begun(calls, a)[id] == calls[id] && id in Do(s, a).ok
    ensures if a == LookAgain(id)
      then id !in Do(s, a).relock && Of(Settled(s, calls, a), id) == [Event(calls[id], Do(s, a).ok[id])]
      else (id in Do(s, a).relock <==> id in s.relock) && Of(Settled(s, calls, a), id) == []
    ensures a != LookAgain(id) ==> Do(s, a).ok[id] == s.ok[id]
  {
  }

  /** A goroutine in the middle of a call settles its answer once, if it has not already, until
      it is idle again; what it has found then is that answer. */
  lemma {:induction false} SettlesOnce(s: State, calls: map<nat, Call>, log: seq<Event>, actions: seq<Action>, id: nat)
    requires Inv(s, calls, log) && CanRun(s, actions) && id in calls
    requires id in s.ok && (forall a <- actions | a.Look? :: a.id != id) && Idle(Run(s, actions), id)
    ensures id in Run(s, actions).ok
    ensures Of(History(s, calls, actions), id) ==
      if id in s.relock then [Event(calls[id], Run(s, actions).ok[id])] else []
    ensures id !in s.relock ==> Run(s, actions).ok[id] == s.ok[id]
    decreases |actions|
  {
    if actions != [] {
      var a, rest := actions[0], actions[1..];
      StepKeepsInv(s, calls, log, a);
      assert a in actions && forall b <- rest :: b in actions;
      StepSettles(s, calls, a, id);
      SettlesOnce(Do(s, a), Begun(calls, a), log + Settled(s, calls, a), rest, id);
      OfConcat(Settled(s, calls, a), History(Do(s, a), Begun(calls, a), rest), id);
    }
  }

  lemma {:induction false} HistoryConcat(s: State, calls: map<nat, Call>, a: seq<Action>, b: seq<Action>)
    requires |s.shards| == Pow2(s.bits) && CanRun(s, a + b)
    ensures CanRun(s, a) && |Run(s, a).shards| == Pow2(Run(s, a).bits) && CanRun(Run(s, a), b)
    ensures Run(s, a + b) == Run(Run(s, a), b)
    ensures History(s, calls, a + b) == History(s, calls, a) + History(Run(s, a), AllBegun(calls, a), b)
    decreases |a|
  {
    if a == [] {
      assert a + b == b;
    } else {
      assert (a + b)[1..] == a[1..] + b && (a + b)[0] == a[0];
      var t, begun := Do(s, a[0]), Begun(calls, a[0]);
      HistoryConcat(t, begun, a[1..], b);
      var after := History(Run(t, a[1..]), AllBegun(begun, a[1..]), b);
      Associative(Settled(s, calls, a[0]), History(t, begun, a[1..]), after);
    }
  }

  lemma CallSettles(s: State, calls: map<nat, Call>, log: seq<Event>, call: Call, actions: seq<Action>)
    requires Inv(s, calls, log) && CanRun(s, [Look(call.id, call.op, call.key)] + actions)
    requires forall a <- actions | a.Look? :: a.id != call.id
    requires Idle(Run(s, [Look(call.id, call.op, call.key)] + actions), call.id)
    ensures var all := [Look(call.id, call.op, call.key)] + actions;
      && call.id in Run(s, all).ok
      && Of(History(s, calls, all), call.id) == [Event(call, Run(s, all).ok[call.id])]
  {
    var a := Look(call.id, call.op, call.key);
    assert ([a] + actions)[1..] == actions;
    StepKeepsInv(s, calls, log, a);
    SettlesOnce(Do(s, a), Begun(calls, a), log + Settled(s, calls, a), actions, call.id);
    OfConcat(Settled(s, calls, a), History(Do(s, a), Begun(calls, a), actions), call.id);
  }

  /** In every run, a call and the steps up to its return, whatever the others do: it is settled
      exactly once between the two, as the call that it is, with the answer that it returns. */
  lemma CallSettlesOnce(bits: nat, before: seq<Action>, call: Call, actions: seq<Action>)
    requires CanRun(Init(bits), before + ([Look(call.id, call.op, call.key)] + actions))
    requires forall a <- actions | a.Look? :: a.id != call.id
    requires Idle(Run(Init(bits), before + ([Look(call.id, call.op, call.key)] + actions)), call.id)
    ensures var all := before + ([Look(call.id, call.op, call.key)] + actions);
      && CanRun(Init(bits), before)
      && call.id in Run(Init(bits), all).ok
      && var earlier, history := History(Init(bits), map[], before), History(Init(bits), map[], all);
         earlier <= history && Of(history[|earlier|..], call.id) == [Event(call, Run(Init(bits), all).ok[call.id])]
  {
    HistoryConcat(Init(bits), map[], before, [Look(call.id, call.op, call.key)] + actions);
    RunKeepsInv(Init(bits), map[], [], before);
    var s, calls := Run(Init(bits), before), AllBegun(map[], before);
    CallSettles(s, calls, [] + History(Init(bits), map[], before), call, actions);
  }

  /** How many steps a goroutine's call may still take. */
  function StepsLeft(s: State, id: nat): nat {
    if id in s.relock then 2 else if id in s.stored || id in s.deleted then 1 else 0
  }

  /** No call takes more than three steps of its own. */
  lemma OwnStepsEnd(s: State, a: Action)
    requires |s.shards| == Pow2(s.bits) && Enabled(s, a) && OneThingAtATime(s)
    ensures if a.Look? then StepsLeft(s, a.id) == 0 else StepsLeft(Do(s, a), a.id) < StepsLeft(s, a.id)
    ensures forall id | id != a.id :: StepsLeft(Do(s, a), id) == StepsLeft(s, id)
  {
  }

  /** The next step of a call under way. */
  function Next(s: State, id: nat): Action {
    if id in s.relock then LookAgain(id) else if id in s.stored then CountUp(id) else CountDown(id)
  }

  /** A call under way can take its next step, or another one can that holds its lock. */
  lemma NeverStuck(s: State, id: nat)
    requires StepsLeft(s, id) > 0 && OneThingAtATime(s)
    ensures exists i :: StepsLeft(s, i) > 0 && Enabled(s, Next(s, i))
  {
    if !Enabled(s, Next(s, id)) {
      var shard := GetShard(s.bits, s.relock[id].1);
      var holder :|
        (holder in s.stored && s.stored[holder] == shard) || (holder in s.deleted && s.deleted[holder] == shard);
      assert StepsLeft(s, holder) > 0 && Enabled(s, Next(s, holder));
    }
  }
}
