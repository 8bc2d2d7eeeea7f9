/** `LinkedMap`: a concurrent map whose insertions are also listed, under a mutex, so that
    the oldest can be evicted. The map is changed outside the mutex as well as inside it;
    every atomic step of every goroutine is one `Action`. */
module LinkedMap {
  import opened Sequences

  /** How far inside `Add` the goroutine with the mutex is, if there is one. */
  datatype Holder<K> =
    | Free
    | Pushed
    | Removed(key: K)
    | Trimmed

  datatype State<K, V> = State(
    maxSize: int,
    entries: map<K, V>,
    keys: seq<K>,
    holder: Holder<K>,
    /** Entries whose goroutines have stored them and are waiting for the mutex. */
    waiting: map<K, V>,
    /** History: what the calls of `Add` were answered, and the accepted entries in mutex order. */
    answers: seq<bool>,
    accepted: seq<(K, V)>)

  datatype Action<K, V> =
    | LoadOrStore(key: K, value: V)
    | Push(key: K)
    | Unlock
    | RemoveFront
    | Delete

  function Init<K, V>(maxSize: int): State<K, V> {
    State(maxSize, map[], [], Free, map[], [], [])
  }

  predicate Overfull<K, V>(s: State<K, V>) {
    0 < s.maxSize < |s.keys|
  }

  predicate Enabled<K, V>(s: State<K, V>, a: Action<K, V>) {
    match a
    case LoadOrStore(_, _) => true
    case Push(k) => k in s.waiting && s.holder.Free?
    case Unlock => (s.holder.Pushed? && !Overfull(s)) || s.holder.Trimmed?
    case RemoveFront => s.holder.Pushed? && Overfull(s)
    case Delete => s.holder.Removed?
  }

  function Do<K, V>(s: State<K, V>, a: Action<K, V>): State<K, V>
    requires Enabled(s, a)
  {
    match a
    case LoadOrStore(k, v) =>
      // A key that is there already is refused; its `Add` is over.
      if k in s.entries then s.(answers := s.answers + [false])
      else s.(entries := s.entries[k := v], waiting := s.waiting[k := v], answers := s.answers + [true])
    case Push(k) =>
      s.(keys := s.keys + [k], holder := Pushed, waiting := s.waiting - {k},
        accepted := s.accepted + [(k, s.waiting[k])])
    case Unlock =>
      s.(holder := Free)
    case RemoveFront =>
      s.(keys := s.keys[1..], holder := Removed(s.keys[0]))
    case Delete =>
      s.(entries := s.entries - {s.holder.key}, holder := Trimmed)
  }

  /** How many of the accepted entries are listed. */
  function ListedCount<K, V>(s: State<K, V>): int {
    var bound := if s.holder.Pushed? then s.maxSize + 1 else s.maxSize;
    if 0 < s.maxSize && bound < |s.accepted| then bound else |s.accepted|
  }

  ghost predicate NoDuplicates<K>(keys: seq<K>) {
    forall i, j | 0 <= i < j < |keys| :: keys[i] != keys[j]
  }

  /** The i-th listed key is that of an entry at the end of those accepted, and the map knows
      its value. */
  ghost predicate ListsEntry<K, V>(s: State<K, V>, i: nat)
    requires i < |s.keys| <= |s.accepted|
  {
    s.keys[i] in s.entries && (s.keys[i], s.entries[s.keys[i]]) == s.accepted[|s.accepted| - |s.keys| + i]
  }

  ghost predicate Listed<K, V>(s: State<K, V>) {
    && NoDuplicates(s.keys)
    && |s.keys| == ListedCount(s) <= |s.accepted|
    && forall i | 0 <= i < |s.keys| :: ListsEntry(s, i)
  }

  predicate IsRemoved<K(==), V>(s: State<K, V>, k: K) {
    s.holder.Removed? && s.holder.key == k
  }

  /** A key of the map is listed, or stored and not yet listed, or no longer listed and not yet
      deleted, and only one of these. */
  ghost predicate KeyFine<K, V>(s: State<K, V>, k: K) {
    && (k in s.entries <==> k in s.keys || k in s.waiting || IsRemoved(s, k))
    && (k in s.keys ==> k !in s.waiting && !IsRemoved(s, k))
    && (k in s.waiting ==> !IsRemoved(s, k) && s.entries[k] == s.waiting[k])
  }

  function Undeleted<K, V>(s: State<K, V>): nat {
    if s.holder.Removed? then 1 else 0
  }

  ghost predicate Inv<K(!new), V>(s: State<K, V>) {
    && Listed(s)
    && (forall k :: KeyFine(s, k))
    && |s.entries| == |s.keys| + |s.waiting| + Undeleted(s)
  }

  lemma StoreKeepsListed<K(!new), V>(s: State<K, V>, k: K, v: V)
    requires Inv(s)
    ensures Listed(Do(s, LoadOrStore(k, v)))
  {
    var t := Do(s, LoadOrStore(k, v));
    forall i | 0 <= i < |t.keys|
      ensures ListsEntry(t, i)
    {
      assert ListsEntry(s, i);
    }
  }

  lemma PushKeepsListed<K(!new), V>(s: State<K, V>, k: K)
    requires Inv(s) && Enabled(s, Push(k))
    ensures Listed(Do(s, Push(k)))
  {
    var t := Do(s, Push(k));
    assert KeyFine(s, k);
    forall i | 0 <= i < |t.keys|
      ensures ListsEntry(t, i) && (i < |s.keys| ==> t.keys[i] == s.keys[i] && s.keys[i] in s.keys)
    {
      assert i < |s.keys| ==> ListsEntry(s, i);
    }
  }

  lemma RemoveFrontKeepsListed<K(!new), V>(s: State<K, V>)
    requires Inv(s) && Enabled(s, RemoveFront)
    ensures Listed(Do(s, RemoveFront))
  {
    var t := Do(s, RemoveFront);
    forall i | 0 <= i < |t.keys|
      ensures t.keys[i] == s.keys[i + 1] && ListsEntry(t, i)
    {
      assert ListsEntry(s, i + 1);
    }
  }

  lemma DeleteKeepsListed<K(!new), V>(s: State<K, V>)
    requires Inv(s) && Enabled(s, Delete)
    ensures Listed(Do(s, Delete))
  {
    var t := Do(s, Delete);
    forall i | 0 <= i < |t.keys|
      ensures ListsEntry(t, i)
    {
      assert ListsEntry(s, i) && s.keys[i] in s.keys && KeyFine(s, s.keys[i]);
    }
  }

  lemma UnlockKeepsListed<K(!new), V>(s: State<K, V>)
    requires Inv(s) && Enabled(s, Unlock)
    ensures Listed(Do(s, Unlock))
  {
    var t := Do(s, Unlock);
    forall i | 0 <= i < |t.keys|
      ensures ListsEntry(t, i)
    {
      assert ListsEntry(s, i);
    }
  }

  lemma StoreKeepsKey<K(!new), V>(s: State<K, V>, k: K, v: V, q: K)
    requires KeyFine(s, k) && KeyFine(s, q)
    ensures KeyFine(Do(s, LoadOrStore(k, v)), q)
  {
  }

  lemma PushKeepsKey<K(!new), V>(s: State<K, V>, k: K, q: K)
    requires KeyFine(s, q) && Enabled(s, Push(k))
    ensures KeyFine(Do(s, Push(k)), q)
  {
    assert q in s.keys + [k] <==> q in s.keys || q == k;
  }

  lemma RemoveFrontKeepsKey<K(!new), V>(s: State<K, V>, q: K)
    requires KeyFine(s, q) && Enabled(s, RemoveFront) && NoDuplicates(s.keys)
    ensures KeyFine(Do(s, RemoveFront), q)
  {
    assert s.keys == [s.keys[0]] + s.keys[1..];
    assert s.keys[0] !in s.keys[1..];
  }

  lemma DeleteKeepsKey<K(!new), V>(s: State<K, V>, q: K)
    requires KeyFine(s, q) && Enabled(s, Delete)
    ensures KeyFine(Do(s, Delete), q)
  {
  }

  lemma StepKeepsListed<K(!new), V>(s: State<K, V>, a: Action<K, V>)
    requires Inv(s) && Enabled(s, a)
    ensures Listed(Do(s, a))
  {
    match a
    case LoadOrStore(k, v) => StoreKeepsListed(s, k, v);
    case Push(k) => PushKeepsListed(s, k);
    case RemoveFront => RemoveFrontKeepsListed(s);
    case Delete => DeleteKeepsListed(s);
    case Unlock => UnlockKeepsListed(s);
  }

  lemma StepKeepsKeys<K(!new), V>(s: State<K, V>, a: Action<K, V>)
    requires Inv(s) && Enabled(s, a)
    ensures forall q :: KeyFine(Do(s, a), q)
  {
    forall q
      ensures KeyFine(Do(s, a), q)
    {
      assert KeyFine(s, q);
      match a
      case LoadOrStore(k, v) =>
        assert KeyFine(s, k);
        StoreKeepsKey(s, k, v, q);
      case Push(k) => PushKeepsKey(s, k, q);
      case RemoveFront => RemoveFrontKeepsKey(s, q);
      case Delete => DeleteKeepsKey(s, q);
      case Unlock =>
    }
  }

  lemma StepKeepsCount<K(!new), V>(s: State<K, V>, a: Action<K, V>)
    requires Inv(s) && Enabled(s, a)
    ensures |Do(s, a).entries| == |Do(s, a).keys| + |Do(s, a).waiting| + Undeleted(Do(s, a))
  {
    match a
    case LoadOrStore(k, _) =>
      assert KeyFine(s, k);
    case Push(k) =>
      assert Do(s, a).waiting.Keys == s.waiting.Keys - {k};
    case Delete =>
      assert KeyFine(s, s.holder.key);
      assert Do(s, a).entries.Keys == s.entries.Keys - {s.holder.key};
    case _ =>
  }

  lemma StepKeepsInv<K(!new), V>(s: State<K, V>, a: Action<K, V>)
    requires Inv(s) && Enabled(s, a)
    ensures Inv(Do(s, a))
  {
    StepKeepsListed(s, a);
    StepKeepsKeys(s, a);
    StepKeepsCount(s, a);
  }

  predicate CanRun<K, V>(s: State<K, V>, actions: seq<Action<K, V>>)
    decreases |actions|
  {
    actions == [] || (Enabled(s, actions[0]) && CanRun(Do(s, actions[0]), actions[1..]))
  }

  function Run<K, V>(s: State<K, V>, actions: seq<Action<K, V>>): State<K, V>
    requires CanRun(s, actions)
    decreases |actions|
  {
    if actions == [] then s else Run(Do(s, actions[0]), actions[1..])
  }

  lemma {:induction false} RunKeepsInv<K(!new), V>(s: State<K, V>, actions: seq<Action<K, V>>)
    requires Inv(s) && CanRun(s, actions)
    ensures Inv(Run(s, actions)) && Run(s, actions).maxSize == s.maxSize
    decreases |actions|
  {
    if actions != [] {
      StepKeepsInv(s, actions[0]);
      RunKeepsInv(Do(s, actions[0]), actions[1..]);
    }
  }

  /** At every point of every interleaving the map exceeds its bound by no more than the
      insertions in flight. */
  lemma AlwaysBounded<K(!new), V>(maxSize: int, actions: seq<Action<K, V>>)
    requires 0 < maxSize && CanRun(Init(maxSize), actions)
    ensures var s := Run(Init(maxSize), actions); |s.entries| <= maxSize + 1 + |s.waiting|
  {
    RunKeepsInv(Init(maxSize), actions);
  }

  /** The map holds exactly the last `maxSize` accepted entries, fewer if fewer were accepted,
      or all of them without a bound. */
  ghost predicate HoldsLast<K, V>(s: State<K, V>) {
    var from := if 0 < s.maxSize < |s.accepted| then |s.accepted| - s.maxSize else 0;
    && (forall i | from <= i < |s.accepted| ::
          s.accepted[i].0 in s.entries && s.entries[s.accepted[i].0] == s.accepted[i].1)
    && (forall k <- s.entries :: exists i | from <= i < |s.accepted| :: s.accepted[i].0 == k)
    && |s.entries| == |s.accepted| - from
  }

  lemma QuietHoldsLast<K(!new), V>(s: State<K, V>)
    requires Inv(s) && s.holder.Free? && s.waiting == map[]
    ensures HoldsLast(s)
  {
    var from := |s.accepted| - |s.keys|;
    forall i | from <= i < |s.accepted|
      ensures s.accepted[i].0 in s.entries && s.entries[s.accepted[i].0] == s.accepted[i].1
    {
      assert ListsEntry(s, i - from);
    }
    forall k <- s.entries
      ensures exists i | from <= i < |s.accepted| :: s.accepted[i].0 == k
    {
      QuietIsAccepted(s, k);
    }
  }

  lemma QuietIsAccepted<K(!new), V>(s: State<K, V>, k: K)
    requires Inv(s) && s.holder.Free? && s.waiting == map[] && k in s.entries
    ensures exists i | |s.accepted| - |s.keys| <= i < |s.accepted| :: s.accepted[i].0 == k
  {
    assert KeyFine(s, k);
    var j :| 0 <= j < |s.keys| && s.keys[j] == k;
    assert ListsEntry(s, j);
    assert s.accepted[|s.accepted| - |s.keys| + j].0 == k;
  }

  /** Whenever no `Add` is under way, in any interleaving. */
  lemma QuiescentHoldsLast<K(!new), V>(maxSize: int, actions: seq<Action<K, V>>)
    requires CanRun(Init(maxSize), actions)
    ensures var s := Run(Init(maxSize), actions);
      s.maxSize == maxSize && (s.holder.Free? && s.waiting == map[] ==> HoldsLast(s))
  {
    RunKeepsInv(Init(maxSize), actions);
    var s := Run(Init(maxSize), actions);
    if s.holder.Free? && s.waiting == map[] {
      QuietHoldsLast(s);
    }
  }

  // The calls of a run, taken from its actions, against what they were answered.

  function CallOf<K, V>(a: Action<K, V>): seq<(K, V)> {
    if a.LoadOrStore? then [(a.key, a.value)] else []
  }

  /** The calls of `Add`, in the order in which they look for their keys. */
  function Calls<K, V>(actions: seq<Action<K, V>>): seq<(K, V)> {
    if actions == [] then [] else CallOf(actions[0]) + Calls(actions[1..])
  }

  function PushOf<K, V>(a: Action<K, V>): seq<K> {
    if a.Push? then [a.key] else []
  }

  /** The keys of those that have had the mutex, in mutex order. */
  function Pushes<K, V>(actions: seq<Action<K, V>>): seq<K> {
    if actions == [] then [] else PushOf(actions[0]) + Pushes(actions[1..])
  }

  /** The calls that were answered true. */
  function Granted<K, V>(calls: seq<(K, V)>, answers: seq<bool>): seq<(K, V)>
    requires |calls| == |answers|
  {
    if calls == [] then []
    else
      var n := |calls| - 1;
      Granted(calls[..n], answers[..n]) + if answers[n] then [calls[n]] else []
  }

  lemma GrantedAppend<K, V>(calls: seq<(K, V)>, answers: seq<bool>, call: (K, V), answer: bool)
    requires |calls| == |answers|
    ensures Granted(calls + [call], answers + [answer]) == Granted(calls, answers) + if answer then [call] else []
  {
    assert (calls + [call])[..|calls|] == calls && (answers + [answer])[..|calls|] == answers;
  }

  function Keys<K, V>(entries: seq<(K, V)>): (keys: seq<K>)
    ensures |keys| == |entries| && forall i | 0 <= i < |keys| :: keys[i] == entries[i].0
  {
    seq(|entries|, i requires 0 <= i < |entries| => entries[i].0)
  }

  /** The calls answered true are the accepted ones and those that wait for the mutex, each as
      often; the accepted ones stand in mutex order, and only keys of calls are ever found. */
  ghost predicate Booked<K(!new), V(!new)>(s: State<K, V>, calls: seq<(K, V)>, pushes: seq<K>) {
    && |s.answers| == |calls|
    && Keys(s.accepted) == pushes
    && (forall k <- s.entries :: k in Keys(calls))
    && (forall p :: Balances(s, Granted(calls, s.answers), p))
  }

  ghost predicate Balances<K, V>(s: State<K, V>, granted: seq<(K, V)>, p: (K, V)) {
    multiset(granted)[p] == multiset(s.accepted)[p] + if p.0 in s.waiting && s.waiting[p.0] == p.1 then 1 else 0
  }

  lemma AddIsBooked<K(!new), V(!new)>(s: State<K, V>, calls: seq<(K, V)>, pushes: seq<K>, k: K, v: V)
    requires Inv(s) && Booked(s, calls, pushes)
    ensures Booked(Do(s, LoadOrStore(k, v)), calls + [(k, v)], pushes)
  {
    var t := Do(s, LoadOrStore(k, v));
    assert KeyFine(s, k);
    var granted := Granted(calls, s.answers);
    GrantedAppend(calls, s.answers, (k, v), k !in s.entries);
    assert Keys(calls + [(k, v)]) == Keys(calls) + [k];
    forall p
      ensures Balances(t, Granted(calls + [(k, v)], t.answers), p)
    {
      assert Balances(s, granted, p);
    }
  }

  lemma PushIsBooked<K(!new), V(!new)>(s: State<K, V>, calls: seq<(K, V)>, pushes: seq<K>, k: K)
    requires Booked(s, calls, pushes) && Enabled(s, Push(k))
    ensures Booked(Do(s, Push(k)), calls, pushes + [k])
  {
    var t := Do(s, Push(k));
    assert Keys(t.accepted) == Keys(s.accepted) + [k];
    forall p
      ensures Balances(t, Granted(calls, t.answers), p)
    {
      assert Balances(s, Granted(calls, s.answers), p);
    }
  }

  lemma OthersAreBooked<K(!new), V(!new)>(s: State<K, V>, calls: seq<(K, V)>, pushes: seq<K>, a: Action<K, V>)
    requires Booked(s, calls, pushes) && Enabled(s, a) && !a.LoadOrStore? && !a.Push?
    ensures Booked(Do(s, a), calls, pushes)
  {
    forall p
      ensures Balances(Do(s, a), Granted(calls, s.answers), p)
    {
      assert Balances(s, Granted(calls, s.answers), p);
    }
  }

  lemma StepIsBooked<K(!new), V(!new)>(s: State<K, V>, calls: seq<(K, V)>, pushes: seq<K>, a: Action<K, V>)
    requires Inv(s) && Booked(s, calls, pushes) && Enabled(s, a)
    ensures Booked(Do(s, a), calls + CallOf(a), pushes + PushOf(a))
  {
    assert calls + [] == calls && pushes + [] == pushes;
    match a
    case LoadOrStore(k, v) => AddIsBooked(s, calls, pushes, k, v);
    case Push(k) => PushIsBooked(s, calls, pushes, k);
    case _ => OthersAreBooked(s, calls, pushes, a);
  }

  lemma {:induction false} RunIsBooked<K(!new), V(!new)>(s: State<K, V>, calls: seq<(K, V)>, pushes: seq<K>,
      actions: seq<Action<K, V>>)
    requires Inv(s) && Booked(s, calls, pushes) && CanRun(s, actions)
    ensures Booked(Run(s, actions), calls + Calls(actions), pushes + Pushes(actions))
    decreases |actions|
  {
    if actions == [] {
      assert calls + [] == calls && pushes + [] == pushes;
    } else {
      StepKeepsInv(s, actions[0]);
      StepIsBooked(s, calls, pushes, actions[0]);
      Associative(calls, CallOf(actions[0]), Calls(actions[1..]));
      Associative(pushes, PushOf(actions[0]), Pushes(actions[1..]));
      RunIsBooked(Do(s, actions[0]), calls + CallOf(actions[0]), pushes + PushOf(actions[0]), actions[1..]);
    }
  }

  /** In every run: what is accepted is what was answered true, in mutex order, but for the calls
      that wait for the mutex. */
  lemma CallsAreBooked<K(!new), V(!new)>(maxSize: int, actions: seq<Action<K, V>>)
    requires CanRun(Init(maxSize), actions)
    ensures Booked(Run(Init(maxSize), actions), Calls(actions), Pushes(actions))
  {
    RunIsBooked(Init(maxSize), [], [], actions);
    assert [] + Calls(actions) == Calls(actions) && [] + Pushes(actions) == Pushes(actions);
  }

  /** Whenever no `Add` is under way, the calls answered true are the accepted ones, and the map
      holds the last of them. */
  lemma QuiescentHoldsCalls<K(!new), V(!new)>(maxSize: int, actions: seq<Action<K, V>>)
    requires CanRun(Init(maxSize), actions)
    ensures var s := Run(Init(maxSize), actions);
      s.holder.Free? && s.waiting == map[] ==>
        && s.maxSize == maxSize && HoldsLast(s)
        && Keys(s.accepted) == Pushes(actions) && |s.answers| == |Calls(actions)|
        && multiset(s.accepted) == multiset(Granted(Calls(actions), s.answers))
  {
    CallsAreBooked(maxSize, actions);
    QuiescentHoldsLast(maxSize, actions);
    var s := Run(Init(maxSize), actions);
    if s.waiting == map[] {
      BalancedQuiet(s, Granted(Calls(actions), s.answers));
    }
  }

  lemma BalancedQuiet<K(!new), V(!new)>(s: State<K, V>, granted: seq<(K, V)>)
    requires s.waiting == map[] && forall p :: Balances(s, granted, p)
    ensures multiset(s.accepted) == multiset(granted)
  {
    forall p: (K, V)
      ensures multiset(s.accepted)[p] == multiset(granted)[p]
    {
      assert Balances(s, granted, p);
    }
  }

  /** Some step of the run deletes the key. */
  predicate Evicts<K(==), V>(s: State<K, V>, actions: seq<Action<K, V>>, k: K)
    requires CanRun(s, actions)
    decreases |actions|
  {
    actions != [] &&
    ((actions[0].Delete? && s.holder.key == k) || Evicts(Do(s, actions[0]), actions[1..], k))
  }

  /** What is found is found with the same value until it is evicted. */
  lemma {:induction false} FoundUntilEvicted<K(!new), V>(s: State<K, V>, actions: seq<Action<K, V>>, k: K)
    requires CanRun(s, actions) && k in s.entries && !Evicts(s, actions, k)
    ensures k in Run(s, actions).entries && Run(s, actions).entries[k] == s.entries[k]
    decreases |actions|
  {
    if actions != [] {
      FoundUntilEvicted(Do(s, actions[0]), actions[1..], k);
    }
  }

  lemma {:induction false} AnswersStay<K, V>(s: State<K, V>, actions: seq<Action<K, V>>)
    requires CanRun(s, actions)
    ensures s.answers <= Run(s, actions).answers
    decreases |actions|
  {
    if actions != [] {
      AnswersStay(Do(s, actions[0]), actions[1..]);
    }
  }

  /** A call for a key that is not there is answered true, and its entry is found from then on
      until it is evicted; one for a key that is there is answered false and changes nothing. */
  lemma AddIsFound<K(!new), V(!new)>(s: State<K, V>, k: K, v: V, actions: seq<Action<K, V>>)
    requires CanRun(s, [LoadOrStore(k, v)] + actions)
    ensures var t := Run(s, [LoadOrStore(k, v)] + actions);
      && |s.answers| < |t.answers| && t.answers[|s.answers|] == (k !in s.entries)
      && (k !in s.entries && !Evicts(s, [LoadOrStore(k, v)] + actions, k) ==> k in t.entries && t.entries[k] == v)
    ensures k in s.entries ==> Do(s, LoadOrStore(k, v)) == s.(answers := s.answers + [false])
  {
    var a := LoadOrStore(k, v);
    assert ([a] + actions)[1..] == actions;
    AnswersStay(Do(s, a), actions);
    if k !in s.entries && !Evicts(s, [a] + actions, k) {
      FoundUntilEvicted(Do(s, a), actions, k);
    }
  }

  ghost predicate DistinctKeys<K, V>(calls: seq<(K, V)>) {
    NoDuplicates(Keys(calls))
  }

  predicate AllTrue(answers: seq<bool>) {
    forall i | 0 <= i < |answers| :: answers[i]
  }

  /** Calls with different keys are all answered true. */
  lemma {:induction false} DistinctAreGranted<K(!new), V(!new)>(s: State<K, V>, calls: seq<(K, V)>, pushes: seq<K>,
      actions: seq<Action<K, V>>, all: seq<(K, V)>)
    requires Inv(s) && Booked(s, calls, pushes) && CanRun(s, actions)
    requires all == calls + Calls(actions) && DistinctKeys(all) && AllTrue(s.answers)
    ensures AllTrue(Run(s, actions).answers)
    decreases |actions|
  {
    if actions != [] {
      var a := actions[0];
      StepKeepsInv(s, a);
      StepIsBooked(s, calls, pushes, a);
      Associative(calls, CallOf(actions[0]), Calls(actions[1..]));
      Associative(pushes, PushOf(actions[0]), Pushes(actions[1..]));
      if a.LoadOrStore? {
        NewKey(calls, (a.key, a.value), Calls(actions[1..]), all);
      }
      NextIsGranted(s, calls, pushes, a);
      DistinctAreGranted(Do(s, a), calls + CallOf(a), pushes + PushOf(a), actions[1..], all);
    }
  }

  lemma NextIsGranted<K(!new), V(!new)>(s: State<K, V>, calls: seq<(K, V)>, pushes: seq<K>, a: Action<K, V>)
    requires Booked(s, calls, pushes) && Enabled(s, a) && (a.LoadOrStore? ==> a.key !in Keys(calls))
    requires AllTrue(s.answers)
    ensures AllTrue(Do(s, a).answers)
  {
  }

  lemma NewKey<K, V>(calls: seq<(K, V)>, call: (K, V), rest: seq<(K, V)>, all: seq<(K, V)>)
    requires all == calls + ([call] + rest) && DistinctKeys(all)
    ensures call.0 !in Keys(calls)
  {
    var keys := Keys(all);
    assert keys[|calls|] == call.0;
    forall k <- Keys(calls)
      ensures k != call.0
    {
      var i :| 0 <= i < |calls| && Keys(calls)[i] == k;
      assert keys[i] == k;
    }
  }

  lemma {:induction false} AllGranted<K, V>(calls: seq<(K, V)>, answers: seq<bool>)
    requires |calls| == |answers| && AllTrue(answers)
    ensures Granted(calls, answers) == calls
  {
    if calls != [] {
      var n := |calls| - 1;
      AllGranted(calls[..n], answers[..n]);
      assert calls == calls[..n] + [calls[n]];
    }
  }

  lemma SameSize<T>(a: seq<T>, b: seq<T>)
    requires multiset(a) == multiset(b)
    ensures |a| == |b|
  {
    assert |multiset(a)| == |a| && |multiset(b)| == |b|;
  }

  lemma DistinctCallsGranted<K(!new), V(!new)>(maxSize: int, actions: seq<Action<K, V>>)
    requires CanRun(Init(maxSize), actions) && DistinctKeys(Calls(actions))
    ensures var s := Run(Init(maxSize), actions);
      |s.answers| == |Calls(actions)| && Granted(Calls(actions), s.answers) == Calls(actions)
  {
    var s: State<K, V> := Init(maxSize);
    CallsAreBooked(maxSize, actions);
    assert [] + Calls(actions) == Calls(actions);
    CallsAreBooked<K, V>(maxSize, []);
    DistinctAreGranted(s, [], [], actions, Calls(actions));
    AllGranted(Calls(actions), Run(s, actions).answers);
  }

  /** So calls with different keys, as many as they are, leave the last `maxSize` of them in mutex
      order, or all if they are fewer or there is no bound. */
  lemma DistinctCallsLeaveLast<K(!new), V(!new)>(maxSize: int, actions: seq<Action<K, V>>)
    requires CanRun(Init(maxSize), actions) && DistinctKeys(Calls(actions))
    ensures var s, calls := Run(Init(maxSize), actions), Calls(actions);
      s.holder.Free? && s.waiting == map[] ==>
        && HoldsLast(s) && Keys(s.accepted) == Pushes(actions) && multiset(s.accepted) == multiset(calls)
        && |s.entries| == if 0 < maxSize < |calls| then maxSize else |calls|
  {
    var s, calls := Run(Init(maxSize), actions), Calls(actions);
    QuiescentHoldsCalls(maxSize, actions);
    if s.holder.Free? && s.waiting == map[] {
      DistinctCallsGranted(maxSize, actions);
      SameSize(s.accepted, calls);
    }
  }

  // The calls under way come to an end by themselves.

  function StepsLeft<K, V>(s: State<K, V>): nat {
    4 * |s.waiting| + match s.holder
      case Free => 0
      case Trimmed => 1
      case Removed(_) => 2
      case Pushed => 3
  }

  /** While a call is under way some step other than a new call can be taken, and each such step
      leaves fewer. */
  lemma GoesOn<K(!new), V>(s: State<K, V>, a: Action<K, V>)
    requires Inv(s)
    ensures Enabled(s, a) && !a.LoadOrStore? ==> StepsLeft(Do(s, a)) < StepsLeft(s)
    ensures StepsLeft(s) > 0 ==> exists b :: Enabled(s, b) && !b.LoadOrStore?
  {
    if a.Push? && Enabled(s, a) {
      assert Do(s, a).waiting.Keys == s.waiting.Keys - {a.key};
    }
    if s.holder.Free? && s.waiting != map[] {
      var k :| k in s.waiting;
      assert Enabled(s, Push(k));
    }
    assert s.holder.Pushed? && Overfull(s) ==> Enabled(s, RemoveFront);
    assert s.holder.Removed? ==> Enabled(s, Delete);
    assert s.holder.Trimmed? || (s.holder.Pushed? && !Overfull(s)) ==> Enabled(s, Unlock);
  }

  /** So from every reachable state they can all come to an end without a further call. */
  lemma {:induction false} QuietsDown<K(!new), V(!new)>(s: State<K, V>) returns (actions: seq<Action<K, V>>)
    requires Inv(s)
    ensures CanRun(s, actions) && forall a <- actions :: !a.LoadOrStore?
    ensures Run(s, actions).holder.Free? && Run(s, actions).waiting == map[]
    decreases StepsLeft(s)
  {
    GoesOn(s, Unlock);
    if StepsLeft(s) == 0 {
      return [];
    }
    var a :| Enabled(s, a) && !a.LoadOrStore?;
    GoesOn(s, a);
    StepKeepsInv(s, a);
    var rest := QuietsDown(Do(s, a));
    actions := [a] + rest;
    assert actions[1..] == rest;
  }
}
