/** `ConnService.checkTimeout`: the idle clocks of a connection, tick by tick. */
module IdleTimer {

  const MIN_INTERVAL := 500

  datatype Conf = Conf(interval: int, readTimeout: int, writeTimeout: int, unidirectional: bool)

  /** One tick: whether the connection had quit before it, and the two byte counters. */
  datatype Tick = Tick(isQuit: bool, read: int, write: int)

  datatype Verdict =
    | Watching
    | Quit(at: nat)
    | ReadTimeout(at: nat)
    | WriteTimeout(at: nat)

  function Interval(conf: Conf): int {
    if conf.interval < MIN_INTERVAL then MIN_INTERVAL else conf.interval
  }

  /** Ticks are as far apart as asked for, but half a second at least, and no further. */
  lemma IntervalIsLeast(conf: Conf, ms: int)
    ensures Interval(conf) <= ms <==> conf.interval <= ms && 500 <= ms
  {
  }

  function Reads(ticks: seq<Tick>): seq<int> {
    seq(|ticks|, i requires 0 <= i < |ticks| => ticks[i].read)
  }

  function Writes(ticks: seq<Tick>): seq<int> {
    seq(|ticks|, i requires 0 <= i < |ticks| => ticks[i].write)
  }

  /** The counter one tick before `xs[i]`; it was `start` when the watch began. */
  function Before(start: int, xs: seq<int>, i: nat): int
    requires i < |xs|
  {
    if i == 0 then start else xs[i - 1]
  }

  /** For how many ticks the counter has not changed. */
  function IdleTicks(start: int, xs: seq<int>): (n: nat)
    ensures n <= |xs|
  {
    if xs == [] || xs[|xs| - 1] != Before(start, xs, |xs| - 1) then 0
    else IdleTicks(start, xs[..|xs| - 1]) + 1
  }

  /** It is the longest run of unchanged ticks at the end. */
  lemma {:induction false} IdleTicksIsLongest(start: int, xs: seq<int>)
    ensures var n := IdleTicks(start, xs);
      && (forall i: nat | |xs| - n <= i < |xs| :: xs[i] == Before(start, xs, i))
      && (n < |xs| ==> xs[|xs| - n - 1] != Before(start, xs, |xs| - n - 1))
  {
    if xs != [] && xs[|xs| - 1] == Before(start, xs, |xs| - 1) {
      var front := xs[..|xs| - 1];
      IdleTicksIsLongest(start, front);
      assert forall i: nat | i < |front| :: Before(start, front, i) == Before(start, xs, i);
    }
  }

  /** For how long that is, tick by tick. */
  function IdleTime(conf: Conf, start: int, xs: seq<int>): int {
    if xs == [] || xs[|xs| - 1] != Before(start, xs, |xs| - 1) then 0
    else IdleTime(conf, start, xs[..|xs| - 1]) + Interval(conf)
  }

  lemma {:induction false} IdleTimeIsTicks(conf: Conf, start: int, xs: seq<int>)
    ensures IdleTime(conf, start, xs) == Interval(conf) * IdleTicks(start, xs)
  {
    if xs != [] && xs[|xs| - 1] == Before(start, xs, |xs| - 1) {
      IdleTimeIsTicks(conf, start, xs[..|xs| - 1]);
    }
  }

  predicate TimedOut(conf: Conf, timeout: int, start: int, xs: seq<int>) {
    timeout > 0 && IdleTime(conf, start, xs) >= timeout
  }

  /** Is the connection to be closed after these ticks? */
  predicate Due(conf: Conf, read: int, write: int, ticks: seq<Tick>) {
    var r := TimedOut(conf, conf.readTimeout, read, Reads(ticks));
    var w := TimedOut(conf, conf.writeTimeout, write, Writes(ticks));
    if conf.unidirectional then r || w else r && w
  }

  /** Up to tick `k` nothing ends the watch. */
  predicate Quiet(conf: Conf, read: int, write: int, ticks: seq<Tick>, k: nat)
    requires k <= |ticks|
  {
    forall j: nat | j < k :: !Ends(conf, read, write, ticks, j)
  }

  predicate Ends(conf: Conf, read: int, write: int, ticks: seq<Tick>, j: nat)
    requires j < |ticks|
  {
    ticks[j].isQuit || Due(conf, read, write, ticks[..j + 1])
  }

  /** One direction's variables: the counter last seen, the time since, the flag. */
  datatype Clock = Clock(total: int, time: int, isTimeout: bool)

  ghost predicate ClockOk(conf: Conf, timeout: int, start: int, xs: seq<int>, clock: Clock) {
    && clock.total == (if xs == [] then start else xs[|xs| - 1])
    && clock.time == IdleTime(conf, start, xs)
    && clock.isTimeout == TimedOut(conf, timeout, start, xs)
  }

  method Advance(conf: Conf, timeout: int, ghost start: int, ghost xs: seq<int>, clock: Clock,
      x: int) returns (next: Clock)
    requires ClockOk(conf, timeout, start, xs, clock)
    ensures ClockOk(conf, timeout, start, xs + [x], next)
  {
    assert (xs + [x])[..|xs|] == xs;
    next := clock.(time := clock.time + Interval(conf));
    if clock.total != x {
      next := Clock(x, 0, false);
    } else if timeout > 0 && next.time >= timeout {
      next := next.(isTimeout := true);
    }
  }

  /** One tick of both clocks, and whether it is the last. */
  method Step(conf: Conf, ghost read: int, ghost write: int, ghost ticks: seq<Tick>, r: Clock, w: Clock,
      tick: Tick) returns (r': Clock, w': Clock, due: bool)
    requires ClockOk(conf, conf.readTimeout, read, Reads(ticks), r)
    requires ClockOk(conf, conf.writeTimeout, write, Writes(ticks), w)
    ensures ClockOk(conf, conf.readTimeout, read, Reads(ticks + [tick]), r')
    ensures ClockOk(conf, conf.writeTimeout, write, Writes(ticks + [tick]), w')
    ensures due == Due(conf, read, write, ticks + [tick])
    ensures due == if conf.unidirectional then r'.isTimeout || w'.isTimeout else r'.isTimeout && w'.isTimeout
  {
    assert Reads(ticks + [tick]) == Reads(ticks) + [tick.read];
    assert Writes(ticks + [tick]) == Writes(ticks) + [tick.write];
    r' := Advance(conf, conf.readTimeout, read, Reads(ticks), r, tick.read);
    w' := Advance(conf, conf.writeTimeout, write, Writes(ticks), w, tick.write);
    due := if conf.unidirectional then r'.isTimeout || w'.isTimeout else r'.isTimeout && w'.isTimeout;
  }

  /** Which direction the close is put down to. */
  method Name(conf: Conf, r: Clock, w: Clock, k: nat) returns (verdict: Verdict)
    requires if conf.unidirectional then r.isTimeout || w.isTimeout else r.isTimeout && w.isTimeout
    ensures verdict == ReadTimeout(k) || verdict == WriteTimeout(k)
    ensures verdict.ReadTimeout? ==> r.isTimeout
    ensures verdict.WriteTimeout? ==> w.isTimeout && (conf.unidirectional ==> !r.isTimeout)
  {
    if conf.unidirectional {
      return if r.isTimeout then ReadTimeout(k) else WriteTimeout(k);
    }
    // Which of the two was noted in the later millisecond decides the name only.
    var readNoted: bool := *;
    return if readNoted then ReadTimeout(k) else WriteTimeout(k);
  }

  /** Both clocks after these ticks. */
  ghost predicate Clocks(conf: Conf, read: int, write: int, ticks: seq<Tick>, r: Clock, w: Clock) {
    ClockOk(conf, conf.readTimeout, read, Reads(ticks), r) && ClockOk(conf, conf.writeTimeout, write, Writes(ticks), w)
  }

  /** The verdict at the last of these ticks, if there is one, is the one that is due there. */
  ghost predicate RightAt(conf: Conf, read: int, write: int, ticks: seq<Tick>, verdict: Verdict)
    requires ticks != []
  {
    var readOut := TimedOut(conf, conf.readTimeout, read, Reads(ticks));
    match verdict
    case Watching => !ticks[|ticks| - 1].isQuit && !Due(conf, read, write, ticks)
    case Quit(at) => at == |ticks| - 1 && ticks[at].isQuit
    case ReadTimeout(at) => at == |ticks| - 1 && !ticks[at].isQuit && Due(conf, read, write, ticks) && readOut
    case WriteTimeout(at) =>
      && at == |ticks| - 1 && !ticks[at].isQuit && Due(conf, read, write, ticks)
      && TimedOut(conf, conf.writeTimeout, write, Writes(ticks))
      && (conf.unidirectional ==> !readOut)
  }

  /** One round: the tick, the clocks, the verdict. */
  method Round(conf: Conf, ghost read: int, ghost write: int, ghost ticks: seq<Tick>, r: Clock, w: Clock, tick: Tick,
      k: nat) returns (r': Clock, w': Clock, verdict: Verdict)
    requires Clocks(conf, read, write, ticks, r, w) && k == |ticks|
    ensures RightAt(conf, read, write, ticks + [tick], verdict)
    ensures verdict.Watching? ==> Clocks(conf, read, write, ticks + [tick], r', w')
  {
    r', w' := r, w;
    if tick.isQuit {
      return r', w', Quit(k);
    }
    var due;
    r', w', due := Step(conf, read, write, ticks, r, w, tick);
    verdict := Watching;
    if due {
      verdict := Name(conf, r', w', k);
    }
  }

  /** Closes for timeout at the first tick that is due, unless the connection quits first. */
  method CheckTimeout(conf: Conf, read: int, write: int, ticks: seq<Tick>) returns (verdict: Verdict)
    ensures verdict.Watching? ==> Quiet(conf, read, write, ticks, |ticks|)
    ensures !verdict.Watching? ==> verdict.at < |ticks| && Quiet(conf, read, write, ticks, verdict.at)
    ensures !verdict.Watching? ==> RightAt(conf, read, write, ticks[..verdict.at + 1], verdict)
  {
    var r, w := Clock(read, 0, false), Clock(write, 0, false);
    for k := 0 to |ticks|
      invariant Quiet(conf, read, write, ticks, k)
      invariant Clocks(conf, read, write, ticks[..k], r, w)
    {
      assert ticks[..k + 1] == ticks[..k] + [ticks[k]];
      r, w, verdict := Round(conf, read, write, ticks[..k], r, w, ticks[k], k);
      if !verdict.Watching? {
        return;
      }
    }
    verdict := Watching;
  }

  lemma {:induction false} SilentTicks(start: int, n: nat)
    ensures IdleTicks(start, seq(n, i => start)) == n
  {
    if n > 0 {
      SilentTicks(start, n - 1);
      assert seq(n, i => start)[..n - 1] == seq(n - 1, i => start);
    }
  }

  lemma IntervalReaches(conf: Conf, timeout: int, n: nat)
    requires timeout <= n
    ensures timeout <= Interval(conf) * n
  {
    assert Interval(conf) * n >= 1 * n;
  }

  function Positive(n: int): nat {
    if n > 0 then n else 0
  }

  predicate CanTimeOut(conf: Conf) {
    if conf.unidirectional then conf.readTimeout > 0 || conf.writeTimeout > 0
    else conf.readTimeout > 0 && conf.writeTimeout > 0
  }

  /** Some silence closes the connection exactly if the thresholds the mode needs are set: one
      of them, or both. */
  lemma CanTimeOutIff(conf: Conf, read: int, write: int)
    ensures (exists ticks :: Due(conf, read, write, ticks)) <==>
      CanTimeOut(conf)
  {
    var n: nat := Positive(conf.readTimeout) + Positive(conf.writeTimeout);
    var silence := seq(n, i => Tick(false, read, write));
    assert Reads(silence) == seq(n, i => read) && Writes(silence) == seq(n, i => write);
    SilentTicks(read, n);
    SilentTicks(write, n);
    IdleTimeIsTicks(conf, read, Reads(silence));
    IdleTimeIsTicks(conf, write, Writes(silence));
    IntervalReaches(conf, conf.readTimeout, n);
    IntervalReaches(conf, conf.writeTimeout, n);
    if CanTimeOut(conf) {
      assert Due(conf, read, write, silence);
    }
  }

  /** A counter that changes at a tick and then stays put times out exactly when the ticks
      since then add up to the threshold. */
  lemma {:induction false} StaysPut(conf: Conf, timeout: int, start: int, xs: seq<int>, x: int, n: nat)
    requires (if xs == [] then start else xs[|xs| - 1]) != x
    ensures IdleTicks(start, xs + [x] + seq(n, i => x)) == n
    ensures TimedOut(conf, timeout, start, xs + [x] + seq(n, i => x)) <==> 0 < timeout <= Interval(conf) * n
  {
    var all := xs + [x] + seq(n, i => x);
    IdleTimeIsTicks(conf, start, all);
    if n > 0 {
      StaysPut(conf, timeout, start, xs, x, n - 1);
      assert all[..|all| - 1] == xs + [x] + seq(n - 1, i => x);
    }
  }
}
