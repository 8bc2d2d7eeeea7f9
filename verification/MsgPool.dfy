/** Reference-counted messages and their pools, shared by clients, the two channels of a
    connection and its loops. Every atomic step of every goroutine is one `Action`; a message
    just made is nobody else's yet, so making it is one. */
module MsgPool {
  import opened Options
  import opened Sequences

  const BLOCK: nat := 64
  const POOLS: nat := 16384

  datatype Msg = Msg(refCount: int, size: nat, cap: nat, pool: Option<nat>)

  /** Which pool serves a size. */
  function Index(size: nat): nat {
    (size + BLOCK - 1) / BLOCK
  }

  /** The k-th pool serves the sizes of the k-th block. */
  lemma IndexServes(size: nat, k: nat)
    ensures Index(size) == k <==> 64 * k - 64 < size <= 64 * k
  {
  }

  function NewMsg(size: nat, isOpen: bool): (m: Msg)
    ensures size + 64 <= m.cap < size + 128 && m.cap % 64 == 0
    ensures m.pool == if isOpen && size <= 64 * 16383 then Some(m.cap / 64 - 1) else None
  {
    var index := Index(size);
    Msg(0, 0, (index + 1) * BLOCK, if isOpen && index < POOLS then Some(index) else None)
  }

  datatype State = State(
    msgs: map<nat, Msg>,
    pooled: multiset<nat>,
    /** Count down to zero, but not yet back in the pool. */
    released: multiset<nat>,
    /** Taken from a pool by `GetMsg` for some size, not yet looked at; looked at, not yet
        given their count. */
    taken: map<nat, nat>,
    checked: map<nat, nat>,
    /** References clients hold, each to be put once or handed to a channel. */
    owned: multiset<nat>,
    /** Those of them that a `Clone` has looked at and not yet counted up. */
    cloning: multiset<nat>,
    writeChan: seq<nat>,
    readChan: seq<nat>,
    /** References a loop has received and not yet put. */
    inHand: multiset<nat>,
    /** Those of them that the handler called with them has begun to clone. */
    handCloning: multiset<nat>,
    /** The delayed close of both channels has happened; both loops have ended, and `Run`
        drains what is left. Either may come first. */
    closed: bool,
    loopsDone: bool,
    panicked: bool)

  datatype Action =
    | GetNew(id: nat, size: nat, isOpen: bool)
    | TakePooled(id: nat, size: nat)
    | CheckTaken(id: nat)
    | InitTaken(id: nat)
    | FromBytes(id: nat, size: nat)
    | PoolDrops(id: nat)
    | CheckClone(id: nat)
    | CountClone(id: nat)
    | CheckHandClone(id: nat)
    | CountHandClone(id: nat)
    | GetData(id: nat)
    | Put(id: nat)
    | BackToPool(id: nat)
    | SendWrite(id: nat)
    | SendRead(id: nat)
    | ReceiveWrite
    | ReceiveRead
    | PutInHand(id: nat)
    | CloseChans
    | LoopsEnd
    | DrainWrite
    | DrainRead

  function Init(): State {
    State(map[], multiset{}, multiset{}, map[], map[], multiset{}, multiset{}, [], [], multiset{}, multiset{},
      false, false, false)
  }

  predicate Enabled(s: State, a: Action) {
    match a
    case GetNew(id, _, _) => id !in s.msgs
    case TakePooled(id, size) => id in s.pooled && id in s.msgs && s.msgs[id].pool == Some(Index(size))
    case CheckTaken(id) => id in s.taken
    case InitTaken(id) => id in s.checked
    case FromBytes(id, _) => id !in s.msgs
    case PoolDrops(id) => id in s.pooled
    case CheckClone(id) => id in s.owned
    case CountClone(id) => id in s.cloning
    case CheckHandClone(id) => id in s.inHand
    case CountHandClone(id) => id in s.handCloning
    case GetData(id) => id in s.owned || id in s.inHand
    case Put(id) => id in s.owned
    case BackToPool(id) => id in s.released
    case SendWrite(id) => id in s.owned && !s.closed
    case SendRead(id) => id in s.owned && !s.closed
    case ReceiveWrite => s.writeChan != [] && !s.loopsDone
    case ReceiveRead => s.readChan != [] && !s.loopsDone
    case PutInHand(id) => id in s.inHand
    case CloseChans => !s.closed
    case LoopsEnd => !s.loopsDone && s.inHand == s.handCloning == multiset{}
    case DrainWrite => s.writeChan != [] && s.loopsDone
    case DrainRead => s.readChan != [] && s.loopsDone
  }

  /** `Msg.Put`: the count falls by one; at zero the message is on its way to its pool,
      below zero it panics, as does touching a message that is gone. */
  function PutMsg(s: State, id: nat): State {
    if id !in s.msgs then s.(panicked := true) else
    var m := s.msgs[id].(refCount := s.msgs[id].refCount - 1);
    s.(msgs := s.msgs[id := m],
       released := if m.refCount == 0 && m.pool.Some? then s.released + multiset{id} else s.released,
       panicked := s.panicked || m.refCount < 0)
  }

  function InitMsg(s: State, id: nat, size: nat): State
    requires id in s.msgs
  {
    s.(msgs := s.msgs[id := s.msgs[id].(refCount := 1, size := size)],
       owned := s.owned + multiset{id},
       panicked := s.panicked || size > s.msgs[id].cap)
  }

  function Do(s: State, a: Action): State
    requires Enabled(s, a)
  {
    match a
    case GetNew(id, size, isOpen) =>
      InitMsg(s.(msgs := s.msgs[id := NewMsg(size, isOpen)]), id, size)
    case TakePooled(id, size) =>
      s.(pooled := s.pooled - multiset{id}, taken := s.taken[id := size])
    case CheckTaken(id) =>
      s.(taken := s.taken - {id}, checked := s.checked[id := s.taken[id]],
         panicked := s.panicked || id !in s.msgs || s.msgs[id].refCount > 0)
    case InitTaken(id) =>
      if id !in s.msgs then s.(panicked := true) else
      InitMsg(s.(checked := s.checked - {id}), id, s.checked[id])
    case FromBytes(id, size) =>
      s.(msgs := s.msgs[id := Msg(1, size, size, None)], owned := s.owned + multiset{id})
    case PoolDrops(id) =>
      s.(msgs := s.msgs - {id}, pooled := s.pooled - multiset{id})
    case CheckClone(id) =>
      s.(owned := s.owned - multiset{id}, cloning := s.cloning + multiset{id},
         panicked := s.panicked || id !in s.msgs || s.msgs[id].refCount <= 0)
    case CountClone(id) =>
      if id !in s.msgs then s.(panicked := true) else
      s.(msgs := s.msgs[id := s.msgs[id].(refCount := s.msgs[id].refCount + 1)],
         cloning := s.cloning - multiset{id}, owned := s.owned + multiset{id, id})
    case CheckHandClone(id) =>
      s.(inHand := s.inHand - multiset{id}, handCloning := s.handCloning + multiset{id},
         panicked := s.panicked || id !in s.msgs || s.msgs[id].refCount <= 0)
    case CountHandClone(id) =>
      if id !in s.msgs then s.(panicked := true) else
      s.(msgs := s.msgs[id := s.msgs[id].(refCount := s.msgs[id].refCount + 1)],
         handCloning := s.handCloning - multiset{id}, inHand := s.inHand + multiset{id},
         owned := s.owned + multiset{id})
    case GetData(id) =>
      s.(panicked := s.panicked || id !in s.msgs || s.msgs[id].refCount <= 0)
    case Put(id) =>
      PutMsg(s.(owned := s.owned - multiset{id}), id)
    case BackToPool(id) =>
      s.(released := s.released - multiset{id}, pooled := s.pooled + multiset{id})
    case SendWrite(id) =>
      s.(owned := s.owned - multiset{id}, writeChan := s.writeChan + [id])
    case SendRead(id) =>
      s.(owned := s.owned - multiset{id}, readChan := s.readChan + [id])
    case ReceiveWrite =>
      s.(writeChan := s.writeChan[1..], inHand := s.inHand + multiset{s.writeChan[0]})
    case ReceiveRead =>
      s.(readChan := s.readChan[1..], inHand := s.inHand + multiset{s.readChan[0]})
    case PutInHand(id) =>
      PutMsg(s.(inHand := s.inHand - multiset{id}), id)
    case CloseChans =>
      s.(closed := true)
    case LoopsEnd =>
      s.(loopsDone := true)
    case DrainWrite =>
      PutMsg(s.(writeChan := s.writeChan[1..]), s.writeChan[0])
    case DrainRead =>
      PutMsg(s.(readChan := s.readChan[1..]), s.readChan[0])
  }

  /** The references to a message, wherever they are. */
  function Refs(s: State, id: nat): nat {
    s.owned[id] + s.cloning[id] + s.inHand[id] + s.handCloning[id] +
    multiset(s.writeChan)[id] + multiset(s.readChan)[id]
  }

  /** How often a message is in its pool, on its way there, or taken and not yet in use. */
  function Pooled(s: State, id: nat): nat {
    s.pooled[id] + s.released[id] + (if id in s.taken then 1 else 0) + (if id in s.checked then 1 else 0)
  }

  /** The count is the number of references; a pooled message is back in its pool, or on its
      way there, exactly when there is none, and then only once; there is room for its size. */
  ghost predicate Sound(s: State, id: nat)
    requires id in s.msgs
  {
    var m := s.msgs[id];
    && m.refCount == Refs(s, id)
    && Pooled(s, id) == (if m.refCount == 0 && m.pool.Some? then 1 else 0)
    && m.size <= m.cap
    && (id in s.taken ==> m.pool == Some(Index(s.taken[id])))
    && (id in s.checked ==> m.pool == Some(Index(s.checked[id])))
    && (m.pool.Some? ==> m.cap == (m.pool.value + 1) * BLOCK)
  }

  /** Nothing refers to a message that is not there. */
  ghost predicate Fine(s: State, id: nat) {
    if id in s.msgs then Sound(s, id) else Refs(s, id) == Pooled(s, id) == 0
  }

  ghost predicate Inv(s: State) {
    && !s.panicked
    && (forall id: nat :: Fine(s, id))
    && (s.loopsDone ==> s.inHand == s.handCloning == multiset{})
  }

  /** Taking a channel's first element takes one occurrence of it. */
  lemma HeadCounts(q: seq<nat>)
    requires q != []
    ensures multiset(q) == multiset{q[0]} + multiset(q[1..])
  {
    assert q == [q[0]] + q[1..];
  }

  /** Dropping one reference and lowering the count go together. */
  lemma PutKeepsFine(s: State, t: State, id: nat, k: nat)
    requires Fine(s, id) && Fine(s, k) && id in s.msgs
    requires t.msgs == s.msgs && t.pooled == s.pooled && t.released == s.released
    requires t.taken == s.taken && t.checked == s.checked
    requires Refs(t, k) == Refs(s, k) - if k == id then 1 else 0
    ensures Fine(PutMsg(t, id), k)
  {
    assert Refs(PutMsg(t, id), k) == Refs(t, k);
  }

  lemma PutKeepsInv(s: State, t: State, id: nat)
    requires Inv(s) && Refs(s, id) > 0
    requires t.msgs == s.msgs && t.pooled == s.pooled && t.released == s.released
    requires t.taken == s.taken && t.checked == s.checked && !t.panicked
    requires forall k: nat :: Refs(t, k) == Refs(s, k) - if k == id then 1 else 0
    requires t.loopsDone ==> t.inHand == t.handCloning == multiset{}
    ensures Inv(PutMsg(t, id))
  {
    assert Fine(s, id);
    forall k: nat
      ensures Fine(PutMsg(t, id), k)
    {
      assert Fine(s, k);
      PutKeepsFine(s, t, id, k);
    }
  }

  /** The steps that move references about, or none; a loop's `Put` is both. */
  predicate Moves(a: Action) {
    a.SendWrite? || a.SendRead? || a.ReceiveWrite? || a.ReceiveRead? || a.CloseChans? || a.LoopsEnd?
  }

  predicate Puts(a: Action) {
    a.Put? || a.PutInHand? || a.DrainWrite? || a.DrainRead?
  }

  /** All other steps are about one message. */
  lemma OthersPooled(s: State, a: Action, k: nat)
    requires Enabled(s, a) && !Moves(a) && !Puts(a) && k != a.id
    ensures Pooled(Do(s, a), k) == Pooled(s, k)
  {
    if !ByPool(a) {
      PoolsStay(s, a, k);
    }
  }

  predicate ByPool(a: Action) {
    a.TakePooled? || a.CheckTaken? || a.InitTaken? || a.PoolDrops? || a.BackToPool?
  }

  lemma PoolsStay(s: State, a: Action, k: nat)
    requires Enabled(s, a) && !Moves(a) && !Puts(a) && !ByPool(a)
    ensures Pooled(Do(s, a), k) == Pooled(s, k)
  {
  }

  lemma OthersRefs(s: State, a: Action, k: nat)
    requires Enabled(s, a) && !Moves(a) && !Puts(a) && k != a.id
    ensures Refs(Do(s, a), k) == Refs(s, k)
  {
    if ByPool(a) && !a.InitTaken? {
      PoolStepRefs(s, a, k);
    } else {
      ClientStepRefs(s, a, k);
    }
  }

  lemma PoolStepRefs(s: State, a: Action, k: nat)
    requires Enabled(s, a) && ByPool(a) && !a.InitTaken?
    ensures Refs(Do(s, a), k) == Refs(s, k)
  {
  }

  lemma ClientStepRefs(s: State, a: Action, k: nat)
    requires Enabled(s, a) && !Moves(a) && !Puts(a) && (ByPool(a) ==> a.InitTaken?) && k != a.id
    ensures Refs(Do(s, a), k) == Refs(s, k)
  {
    assert Do(s, a).writeChan == s.writeChan && Do(s, a).readChan == s.readChan;
    if a.CheckClone? || a.CountClone? {
      assert Do(s, a).inHand == s.inHand && Do(s, a).handCloning == s.handCloning;
    }
  }

  lemma OthersStayFine(s: State, a: Action, k: nat)
    requires Enabled(s, a) && !Moves(a) && !Puts(a) && k != a.id && Fine(s, k)
    ensures Fine(Do(s, a), k)
  {
    OthersPooled(s, a, k);
    OthersRefs(s, a, k);
  }

  lemma PoolStepStaysFine(s: State, a: Action)
    requires Enabled(s, a) && (a.TakePooled? || a.CheckTaken? || a.PoolDrops? || a.BackToPool?) && Fine(s, a.id)
    ensures Fine(Do(s, a), a.id)
  {
  }

  lemma UseStepStaysFine(s: State, a: Action)
    requires Enabled(s, a) && !Moves(a) && !Puts(a) && Fine(s, a.id)
    requires a.GetNew? || a.InitTaken? || a.FromBytes? || a.CheckClone? || a.CountClone? ||
      a.CheckHandClone? || a.CountHandClone? || a.GetData?
    ensures Fine(Do(s, a), a.id)
  {
  }

  lemma OneKeepsInv(s: State, a: Action)
    requires Inv(s) && Enabled(s, a) && !Moves(a) && !Puts(a)
    ensures Inv(Do(s, a))
  {
    assert Fine(s, a.id);
    forall k: nat
      ensures Fine(Do(s, a), k)
    {
      assert Fine(s, k);
      if k != a.id {
        OthersStayFine(s, a, k);
      } else if a.TakePooled? || a.CheckTaken? || a.PoolDrops? || a.BackToPool? {
        PoolStepStaysFine(s, a);
      } else {
        UseStepStaysFine(s, a);
      }
    }
  }

  lemma MoveKeepsInv(s: State, a: Action)
    requires Inv(s) && Enabled(s, a) && Moves(a)
    ensures Inv(Do(s, a))
  {
    forall k: nat
      ensures Fine(Do(s, a), k)
    {
      assert Fine(s, k);
      MoveKeepsRefs(s, a, k);
      assert Pooled(Do(s, a), k) == Pooled(s, k);
    }
  }

  lemma SendKeepsRefs(s: State, a: Action, k: nat)
    requires Enabled(s, a) && (a.SendWrite? || a.SendRead?)
    ensures Refs(Do(s, a), k) == Refs(s, k)
  {
    assert (s.owned - multiset{a.id})[k] == s.owned[k] - if k == a.id then 1 else 0;
  }

  lemma ReceiveKeepsRefs(s: State, a: Action, k: nat)
    requires Enabled(s, a) && (a.ReceiveWrite? || a.ReceiveRead?)
    ensures Refs(Do(s, a), k) == Refs(s, k)
  {
    HeadCounts(if a.ReceiveWrite? then s.writeChan else s.readChan);
  }

  lemma MoveKeepsRefs(s: State, a: Action, k: nat)
    requires Enabled(s, a) && Moves(a)
    ensures Refs(Do(s, a), k) == Refs(s, k)
  {
    if a.SendWrite? || a.SendRead? {
      SendKeepsRefs(s, a, k);
    } else if a.ReceiveWrite? || a.ReceiveRead? {
      ReceiveKeepsRefs(s, a, k);
    }
  }

  /** What `Put` counts down, taken from where it was. */
  function Taken(s: State, a: Action): (State, nat)
    requires Enabled(s, a) && Puts(a)
  {
    match a
    case Put(id) => (s.(owned := s.owned - multiset{id}), id)
    case PutInHand(id) => (s.(inHand := s.inHand - multiset{id}), id)
    case DrainWrite => (s.(writeChan := s.writeChan[1..]), s.writeChan[0])
    case DrainRead => (s.(readChan := s.readChan[1..]), s.readChan[0])
  }

  lemma TakenRefs(s: State, a: Action, k: nat)
    requires Enabled(s, a) && Puts(a)
    ensures Refs(Taken(s, a).0, k) == Refs(s, k) - if k == Taken(s, a).1 then 1 else 0
  {
    if a.DrainWrite? {
      HeadCounts(s.writeChan);
    } else if a.DrainRead? {
      HeadCounts(s.readChan);
    }
  }

  lemma PutStepKeepsInv(s: State, a: Action)
    requires Inv(s) && Enabled(s, a) && Puts(a)
    ensures Inv(Do(s, a))
  {
    var (t, id) := Taken(s, a);
    forall k: nat
      ensures Refs(t, k) == Refs(s, k) - if k == id then 1 else 0
    {
      TakenRefs(s, a, k);
    }
    PutKeepsInv(s, t, id);
  }

  lemma StepKeepsInv(s: State, a: Action)
    requires Inv(s) && Enabled(s, a)
    ensures Inv(Do(s, a))
  {
    if Moves(a) {
      MoveKeepsInv(s, a);
    } else if Puts(a) {
      PutStepKeepsInv(s, a);
    } else {
      OneKeepsInv(s, a);
    }
  }

  predicate CanRun(s: State, actions: seq<Action>)
    decreases |actions|
  {
    actions == [] || (Enabled(s, actions[0]) && CanRun(Do(s, actions[0]), actions[1..]))
  }

  function Run(s: State, actions: seq<Action>): State
    requires CanRun(s, actions)
    decreases |actions|
  {
    if actions == [] then s else Run(Do(s, actions[0]), actions[1..])
  }

  lemma {:induction false} RunKeepsInv(s: State, actions: seq<Action>)
    requires Inv(s) && CanRun(s, actions)
    ensures Inv(Run(s, actions))
    decreases |actions|
  {
    if actions != [] {
      StepKeepsInv(s, actions[0]);
      RunKeepsInv(Do(s, actions[0]), actions[1..]);
    }
  }

  /** Both steps of `Clone`. */
  function Clone(s: State, id: nat): State
    requires id in s.owned
  {
    Do(Do(s, CheckClone(id)), CountClone(id))
  }

  function CountedUp(s: State, id: nat): map<nat, Msg>
    requires id in s.msgs
  {
    s.msgs[id := s.msgs[id].(refCount := s.msgs[id].refCount + 1)]
  }

  lemma Cloned(s: State, id: nat)
    requires Inv(s) && id in s.owned
    ensures id in s.msgs && Clone(s, id) == s.(msgs := CountedUp(s, id), owned := s.owned + multiset{id})
  {
    assert Fine(s, id);
    CloneSteps(s, id);
  }

  lemma CloneSteps(s: State, id: nat)
    requires id in s.owned && id in s.msgs && s.msgs[id].refCount > 0
    ensures Clone(s, id) == s.(msgs := CountedUp(s, id), owned := s.owned + multiset{id})
  {
    MovedBack(s.owned, s.cloning, id);
    assert Do(s, CheckClone(id)) == s.(owned := s.owned - multiset{id}, cloning := s.cloning + multiset{id});
  }

  lemma MovedBack(a: multiset<nat>, b: multiset<nat>, id: nat)
    requires id in a
    ensures a - multiset{id} + multiset{id, id} == a + multiset{id}
    ensures b + multiset{id} - multiset{id} == b
  {
  }

  /** Putting a reference that was counted up gives the messages back as they were. */
  lemma PutCountedUp(s: State, t: State, id: nat)
    requires Inv(s) && id in s.owned && id in s.msgs && t == s.(msgs := CountedUp(s, id))
    ensures PutMsg(t, id) == s
  {
    assert Fine(s, id);
    assert PutMsg(t, id).msgs == s.msgs;
  }

  /** `WriteChanRef` clones before it sends: if the send fails, putting the clone undoes
      everything. */
  lemma PutUndoesClone(s: State, id: nat)
    requires Inv(s) && id in s.owned
    ensures Enabled(Clone(s, id), Put(id)) && Do(Clone(s, id), Put(id)) == s
  {
    Cloned(s, id);
    assert s.owned + multiset{id} - multiset{id} == s.owned;
    PutCountedUp(s, Clone(s, id).(owned := s.owned), id);
  }

  /** The write loop receives the first message of its channel and puts it. */
  function PutFront(s: State): State
    requires s.writeChan != [] && !s.loopsDone
  {
    Do(Do(s, ReceiveWrite), PutInHand(s.writeChan[0]))
  }

  /** It does so with the first `n`. */
  function PutFirst(s: State, n: nat): State
    requires n <= |s.writeChan| && !s.loopsDone
    decreases n
  {
    if n == 0 then s else PutFirst(PutFront(s), n - 1)
  }

  /** If it succeeds, the channel has one reference more and the caller as many as before; and
      once the write loop has put the messages in front and then the clone, everything is as if
      only those in front had been there. */
  lemma ClonedIsSent(s: State, id: nat)
    requires Inv(s) && id in s.owned && !s.closed
    ensures Enabled(Clone(s, id), SendWrite(id))
    ensures var t := Do(Clone(s, id), SendWrite(id));
      && t.owned == s.owned && t.writeChan == s.writeChan + [id]
      && (!s.loopsDone ==> PutFirst(t, |s.writeChan| + 1) == PutFirst(s, |s.writeChan|))
  {
    Cloned(s, id);
    assert s.owned + multiset{id} - multiset{id} == s.owned;
    var t := Do(Clone(s, id), SendWrite(id));
    assert t == Behind(s, id);
    if !s.loopsDone {
      BehindOthers(s, id);
    }
  }

  /** The state with one reference more, last in the write channel. */
  function Behind(s: State, id: nat): State
    requires id in s.msgs
  {
    s.(msgs := CountedUp(s, id), writeChan := s.writeChan + [id])
  }

  lemma {:induction false} BehindOthers(s: State, id: nat)
    requires Inv(s) && id in s.owned && id in s.msgs && !s.loopsDone
    ensures PutFirst(Behind(s, id), |s.writeChan| + 1) == PutFirst(s, |s.writeChan|)
    decreases |s.writeChan|
  {
    var t := Behind(s, id);
    if s.writeChan == [] {
      WrittenIsPut(s, t, id);
    } else {
      FrontIsPut(s, id);
      FrontKeepsInv(s, id);
      BehindOthers(PutFront(s), id);
    }
  }

  lemma FrontKeepsInv(s: State, id: nat)
    requires Inv(s) && id in s.owned && !s.loopsDone && s.writeChan != []
    ensures Inv(PutFront(s)) && id in PutFront(s).owned && !PutFront(s).loopsDone
    ensures PutFront(s).writeChan == s.writeChan[1..]
  {
    StepKeepsInv(s, ReceiveWrite);
    StepKeepsInv(Do(s, ReceiveWrite), PutInHand(s.writeChan[0]));
  }

  lemma FrontCounted(s: State, id: nat)
    requires Inv(s) && id in s.owned && s.writeChan != []
    ensures var h := s.writeChan[0]; h in s.msgs && s.msgs[h].refCount >= if h == id then 2 else 1
  {
    assert Fine(s, id) && Fine(s, s.writeChan[0]) && s.writeChan[0] in s.writeChan;
  }

  lemma ReceiveCommutes(s: State, id: nat)
    requires id in s.msgs && !s.loopsDone && s.writeChan != []
    ensures Do(Behind(s, id), ReceiveWrite) == Behind(Do(s, ReceiveWrite), id)
  {
    assert (s.writeChan + [id])[1..] == s.writeChan[1..] + [id];
  }

  /** Putting the front of the queue has the same effect whether or not one more is behind. */
  lemma FrontIsPut(s: State, id: nat)
    requires Inv(s) && id in s.owned && id in s.msgs && !s.loopsDone && s.writeChan != []
    ensures id in PutFront(s).msgs && PutFront(Behind(s, id)) == Behind(PutFront(s), id)
  {
    FrontCounted(s, id);
    ReceiveCommutes(s, id);
    PutCommutes(Do(s, ReceiveWrite), id, s.writeChan[0]);
  }

  lemma PutCommutes(s: State, id: nat, h: nat)
    requires h in s.msgs && id in s.msgs && !s.panicked && h in s.inHand
    requires s.msgs[h].refCount >= (if h == id then 2 else 1)
    ensures id in Do(s, PutInHand(h)).msgs && Do(Behind(s, id), PutInHand(h)) == Behind(Do(s, PutInHand(h)), id)
  {
    assert Do(Behind(s, id), PutInHand(h)).msgs == Behind(Do(s, PutInHand(h)), id).msgs;
  }

  lemma WrittenIsPut(s: State, t: State, id: nat)
    requires Inv(s) && id in s.owned && id in s.msgs && s.writeChan == [] && !s.loopsDone
    requires t == s.(msgs := CountedUp(s, id), writeChan := [id])
    ensures PutFront(t) == s && PutFirst(t, 1) == s
  {
    assert [id][1..] == [];
    assert s.inHand + multiset{id} - multiset{id} == s.inHand;
    PutCountedUp(s, s.(msgs := CountedUp(s, id)), id);
  }

  /** In every interleaving no panic branch is reached, every count is the number of
      references there are, and only unreferenced messages are in the pools, once each. */
  lemma NeverPanics(actions: seq<Action>)
    requires CanRun(Init(), actions)
    ensures var s := Run(Init(), actions);
      && !s.panicked
      && (forall id <- s.msgs :: s.msgs[id].refCount == Refs(s, id))
      && (forall id <- s.pooled :: s.pooled[id] == 1 && id in s.msgs && Refs(s, id) == 0)
      && (forall id, size: nat | id in s.pooled && s.msgs[id].pool == Some(Index(size)) :: size <= s.msgs[id].cap)
  {
    RunKeepsInv(Init(), actions);
    var s := Run(Init(), actions);
    forall id <- s.msgs
      ensures s.msgs[id].refCount == Refs(s, id)
    {
      assert Fine(s, id);
    }
    forall id <- s.pooled
      ensures s.pooled[id] == 1 && id in s.msgs && Refs(s, id) == 0
    {
      assert Fine(s, id);
    }
    forall id, size: nat | id in s.pooled && s.msgs[id].pool == Some(Index(size))
      ensures size <= s.msgs[id].cap
    {
      assert Fine(s, id);
    }
  }

  /** Once the channels are closed and drained they stay so. */
  lemma {:induction false} DrainedStays(s: State, actions: seq<Action>)
    requires s.closed && s.loopsDone && s.writeChan == [] && s.readChan == [] && CanRun(s, actions)
    ensures var t := Run(s, actions); t.closed && t.loopsDone && t.writeChan == [] && t.readChan == []
    decreases |actions|
  {
    if actions != [] {
      DrainedStays(Do(s, actions[0]), actions[1..]);
    }
  }

  /** When the drain is over nothing is left in a channel or a loop's hand: whatever is not
      owned by a client has gone back to its pool, or is on its way there. */
  lemma DrainLeavesNothing(actions: seq<Action>)
    requires CanRun(Init(), actions)
    requires var s := Run(Init(), actions); s.loopsDone && s.writeChan == [] && s.readChan == []
    ensures var s := Run(Init(), actions);
      forall id <- s.msgs ::
        && s.msgs[id].refCount == s.owned[id] + s.cloning[id]
        && (s.msgs[id].refCount == 0 && s.msgs[id].pool.Some? ==> Pooled(s, id) == 1)
  {
    RunKeepsInv(Init(), actions);
    var s := Run(Init(), actions);
    forall id <- s.msgs
      ensures s.msgs[id].refCount == s.owned[id] + s.cloning[id]
      ensures (s.msgs[id].refCount == 0 && s.msgs[id].pool.Some? ==> Pooled(s, id) == 1)
    {
      assert Fine(s, id);
    }
  }

  // What a client asks for, and the order of the channels.

  /** The pool has given the message for a request of this size, and it is not initialised yet. */
  predicate Asked(s: State, id: nat, size: nat) {
    || (id in s.taken && s.taken[id] == size && id !in s.checked)
    || (id in s.checked && s.checked[id] == size && id !in s.taken)
  }

  lemma PoolStepStaysAsked(s: State, a: Action, id: nat, size: nat)
    requires id !in s.pooled && Enabled(s, a) && ByPool(a) && Asked(s, id, size) && a != InitTaken(id)
    ensures Asked(Do(s, a), id, size)
  {
  }

  lemma PutStaysAsked(s: State, a: Action, id: nat, size: nat)
    requires Enabled(s, a) && Puts(a) && Asked(s, id, size)
    ensures Asked(Do(s, a), id, size)
  {
  }

  lemma MoveStaysAsked(s: State, a: Action, id: nat, size: nat)
    requires Enabled(s, a) && Moves(a) && Asked(s, id, size)
    ensures Asked(Do(s, a), id, size)
  {
  }

  lemma StaysAsked(s: State, a: Action, id: nat, size: nat)
    requires id !in s.pooled && Enabled(s, a) && Asked(s, id, size) && a != InitTaken(id)
    ensures Asked(Do(s, a), id, size)
  {
    if ByPool(a) {
      PoolStepStaysAsked(s, a, id, size);
    } else if Puts(a) {
      PutStaysAsked(s, a, id, size);
    } else if Moves(a) {
      MoveStaysAsked(s, a, id, size);
    }
  }

  lemma {:induction false} StaysAskedInRun(s: State, actions: seq<Action>, id: nat, size: nat)
    requires Inv(s) && Asked(s, id, size) && CanRun(s, actions) && InitTaken(id) !in actions
    ensures Inv(Run(s, actions)) && Asked(Run(s, actions), id, size)
    decreases |actions|
  {
    if actions != [] {
      assert actions[0] in actions && forall a <- actions[1..] :: a in actions;
      StepKeepsInv(s, actions[0]);
      assert Fine(s, id);
      StaysAsked(s, actions[0], id, size);
      StaysAskedInRun(Do(s, actions[0]), actions[1..], id, size);
    }
  }

  lemma InitGives(s: State, id: nat, size: nat)
    requires Inv(s) && Asked(s, id, size) && Enabled(s, InitTaken(id))
    ensures Given(Do(s, InitTaken(id)), id, size)
  {
    assert Fine(s, id);
  }

  /** `GetMsg` gives out a message of the size asked for, with room for it and one reference, its
      caller's: made new, or taken from the pool, whatever happens between its steps. */
  lemma GivesSizeAsked(s: State, id: nat, size: nat, isOpen: bool, actions: seq<Action>)
    requires Inv(s)
    ensures Enabled(s, GetNew(id, size, isOpen)) ==> Given(Do(s, GetNew(id, size, isOpen)), id, size)
    ensures Enabled(s, TakePooled(id, size)) && CanRun(Do(s, TakePooled(id, size)), actions) ==>
      var t := Run(Do(s, TakePooled(id, size)), actions);
      InitTaken(id) !in actions && Enabled(t, InitTaken(id)) ==> Given(Do(t, InitTaken(id)), id, size)
  {
    assert Fine(s, id);
    if Enabled(s, TakePooled(id, size)) && CanRun(Do(s, TakePooled(id, size)), actions) && InitTaken(id) !in actions {
      StepKeepsInv(s, TakePooled(id, size));
      StaysAskedInRun(Do(s, TakePooled(id, size)), actions, id, size);
      var t := Run(Do(s, TakePooled(id, size)), actions);
      if Enabled(t, InitTaken(id)) {
        InitGives(t, id, size);
      }
    }
  }

  predicate Given(s: State, id: nat, size: nat) {
    && id in s.msgs && s.msgs[id].size == size <= s.msgs[id].cap
    && s.msgs[id].refCount == 1 && s.owned[id] == 1
  }

  /** The messages that a run sends on a channel, in order, and how many it takes off it. */
  function Sends(actions: seq<Action>, write: bool): seq<nat> {
    if actions == [] then [] else SendOf(actions[0], write) + Sends(actions[1..], write)
  }

  function SendOf(a: Action, write: bool): seq<nat> {
    if (write && a.SendWrite?) || (!write && a.SendRead?) then [a.id] else []
  }

  function Takes(actions: seq<Action>, write: bool): nat {
    if actions == [] then 0 else TakeOf(actions[0], write) + Takes(actions[1..], write)
  }

  function TakeOf(a: Action, write: bool): nat {
    var takes := if write then a.ReceiveWrite? || a.DrainWrite? else a.ReceiveRead? || a.DrainRead?;
    if takes then 1 else 0
  }

  function Chan(s: State, write: bool): seq<nat> {
    if write then s.writeChan else s.readChan
  }

  lemma StepIsRest(s: State, a: Action, write: bool)
    requires Enabled(s, a)
    ensures TakeOf(a, write) <= |Chan(s, write) + SendOf(a, write)|
    ensures Chan(Do(s, a), write) == (Chan(s, write) + SendOf(a, write))[TakeOf(a, write)..]
  {
    var q := Chan(s, write);
    assert q + [] == q && q[0..] == q;
    if TakeOf(a, write) == 0 && SendOf(a, write) == [] {
      ChanStays(s, a, write);
    }
  }

  lemma ChanStays(s: State, a: Action, write: bool)
    requires Enabled(s, a) && TakeOf(a, write) == 0 && SendOf(a, write) == []
    ensures Chan(Do(s, a), write) == Chan(s, write)
  {
  }

  lemma {:induction false} ChanIsRest(s: State, actions: seq<Action>, write: bool)
    requires CanRun(s, actions)
    ensures Takes(actions, write) <= |Chan(s, write) + Sends(actions, write)|
    ensures Chan(Run(s, actions), write) == (Chan(s, write) + Sends(actions, write))[Takes(actions, write)..]
    decreases |actions|
  {
    if actions != [] {
      var a, rest := actions[0], actions[1..];
      StepIsRest(s, a, write);
      ChanIsRest(Do(s, a), rest, write);
      RestOfRest(Chan(s, write), SendOf(a, write), TakeOf(a, write), Sends(rest, write), Takes(rest, write));
    }
  }

  /** In every run the loops receive what was sent on their channels, in the order sent. */
  lemma ReceivesInOrder(actions: seq<Action>, write: bool)
    requires CanRun(Init(), actions)
    ensures var s, sends, k := Run(Init(), actions), Sends(actions, write), Takes(actions, write);
      var receive := if write then ReceiveWrite else ReceiveRead;
      && k <= |sends| && Chan(s, write) == sends[k..]
      && (Enabled(s, receive) ==> k < |sends| && Do(s, receive).inHand == s.inHand + multiset{sends[k]})
  {
    ChanIsRest(Init(), actions, write);
    assert [] + Sends(actions, write) == Sends(actions, write);
    ReceivesFirst(Run(Init(), actions), write);
  }

  lemma ReceivesFirst(s: State, write: bool)
    ensures var receive := if write then ReceiveWrite else ReceiveRead;
      Enabled(s, receive) ==>
        Chan(s, write) != [] && Do(s, receive).inHand == s.inHand + multiset{Chan(s, write)[0]}
  {
  }
}
