/** The two ends a buffer sits on: the client's reader and the client's writer.
    Both are adversarial: how much one call moves, and whether it also fails, is an
    arbitrary choice made inside the body, so callers know only the contract. */
module Streams {
  import opened Options

  newtype byte = x: int | 0 <= x < 256

  /** `Device` stands for every error that comes from outside the package. */
  datatype Error =
    | EOF
    | NoProgress
    | ShortWrite
    | BufferFull
    | NegativeCount
    | InvalidUnreadByte
    | InvalidUnreadRune
    | Device(code: nat)

  predicate FromOutside(e: Error) {
    e.EOF? || e.Device?
  }

  /** What one call of a reader came to: something or nothing, without an error, or an error. */
  datatype Answer = Brought | Nothing | Broke(error: Error)

  /** How many of the latest answers in a row were nothing. */
  function Idle(answers: seq<Answer>): nat {
    if answers == [] || !answers[|answers| - 1].Nothing? then 0 else 1 + Idle(answers[..|answers| - 1])
  }

  /** Empty reads in a row after which both ends of a buffer give up. */
  const MAX_CONSECUTIVE_EMPTY_READS: nat := 100

  /** The error that is pending after these answers, where `was` was pending before. */
  function Settle(was: Option<Error>, answers: seq<Answer>): Option<Error> {
    if answers == [] then was
    else
      match answers[|answers| - 1]
      case Broke(e) => Some(e)
      case Brought => was
      case Nothing => if Idle(answers) == 100 then Some(NoProgress) else was
  }

  lemma IdleAppend(answers: seq<Answer>, a: Answer)
    ensures Idle(answers + [a]) == if a.Nothing? then Idle(answers) + 1 else 0
  {
    assert (answers + [a])[..|answers|] == answers;
  }

  lemma AnswerAdds(was: Option<Error>, seen: seq<Answer>, mid: seq<Answer>, a: Answer)
    requires seen <= mid
    ensures (mid + [a])[|seen|..] == mid[|seen|..] + [a]
    ensures Idle((mid + [a])[|seen|..]) == if a.Nothing? then Idle(mid[|seen|..]) + 1 else 0
    ensures !a.Nothing? ==> Settle(was, (mid + [a])[|seen|..]) == if a.Broke? then Some(a.error) else was
  {
    IdleAppend(mid[|seen|..], a);
  }

  /** One answer that is no error settles nothing. */
  lemma OneAnswer(before: seq<Answer>, a: Answer)
    ensures Settle(None, (before + [a])[|before|..]) == if a.Broke? then Some(a.error) else None
  {
    assert (before + [a])[|before|..] == [a];
    assert [] + [a] == [a];
    IdleAppend([], a);
  }

  /** Answers behind ones that brought something settle what they settle on their own. */
  lemma {:induction false} IdleBehind(before: seq<Answer>, answers: seq<Answer>)
    requires before == [] || before[|before| - 1].Brought?
    ensures Idle(before + answers) == Idle(answers)
  {
    if answers == [] {
      assert before + answers == before;
    } else {
      var front, last := answers[..|answers| - 1], answers[|answers| - 1];
      IdleBehind(before, front);
      IdleAppend(before + front, last);
      IdleAppend(front, last);
      assert before + answers == before + front + [last] && answers == front + [last];
    }
  }

  /** Nor do answers that end with something, for those that follow. */
  lemma SettlesOn(was: Option<Error>, seen: seq<Answer>, mid: seq<Answer>, answers: seq<Answer>)
    requires seen <= mid <= answers && (mid == seen || mid[|mid| - 1].Brought?)
    ensures Settle(was, answers[|seen|..]) == Settle(Settle(was, mid[|seen|..]), answers[|mid|..])
  {
    var before, behind := mid[|seen|..], answers[|mid|..];
    assert answers[|seen|..] == before + behind;
    IdleBehind(before, behind);
  }

  /** What one call of a writer came to: whether it took less than it was given, and its error. */
  datatype Uptake = Uptake(short: bool, error: Option<Error>)

  /** A client-supplied reader. `rest` is what it has yet to supply, cut by each call
      into a piece of its own choosing. */
  class Source {
    var rest: seq<byte>
    ghost var supplied: seq<byte>
    /** What its calls came to, in order. */
    ghost var answers: seq<Answer>
    ghost const content: seq<byte>
    /** Errors are final: none is reported before `rest` is used up. */
    const steady: bool
    /** How many calls in a row may return nothing at all. */
    const patience: nat
    var gap: nat

    ghost predicate Valid()
      reads this
    {
      supplied + rest == content && gap <= patience
    }

    /** So many answers since `seen`, and all of them nothing. */
    ghost predicate Idled(seen: seq<Answer>, i: nat)
      reads this`answers
    {
      seen <= answers && |answers| == |seen| + i == |seen| + Idle(answers[|seen|..])
    }

    constructor (content: seq<byte>, steady: bool, patience: nat)
      ensures Valid() && this.content == rest == content && supplied == []
      ensures this.steady == steady && this.patience == patience && gap == patience
    {
      rest := content;
      this.content := content;
      supplied, answers := [], [];
      this.steady := steady;
      this.patience := patience;
      gap := patience;
    }

    /** May the next call supply `n` bytes into `room`, failing as well or not? */
    predicate Allowed(n: nat, fails: bool, room: nat)
      reads this
    {
      && n <= room
      && n <= |rest|
      && (steady && n < |rest| ==> !fails)
      && (n == 0 && gap == 0 ==> fails)
    }

    /** Reads into `p[lo..]`; bytes of `p` past the ones counted may be scribbled on. */
    method Read(p: array<byte>, lo: nat) returns (n: nat, err: Option<Error>)
      requires Valid() && lo < p.Length
      modifies this, p
      ensures Valid() && n <= p.Length - lo && n <= |old(rest)|
      ensures p[..lo] == old(p[..lo])
      ensures p[lo..lo + n] == old(rest)[..n]
      ensures rest == old(rest)[n..]
      ensures supplied == old(supplied) + old(rest)[..n]
      ensures answers == old(answers) + [if err.Some? then Broke(err.value) else if n > 0 then Brought else Nothing]
      ensures err.Some? ==> FromOutside(err.value)
      ensures err.Some? && steady ==> rest == []
      ensures n == 0 ==> gap <= old(gap)
      ensures n == 0 && err.None? ==> gap < old(gap)
      ensures n > 0 ==> gap == patience
    {
      var fails: bool;
      assert Allowed(if rest == [] then 0 else 1, rest == [], p.Length - lo);
      n, fails :| Allowed(n, fails, p.Length - lo);
      assert Allowed(n, fails, p.Length - lo);
      var errorCode: nat := *;
      err := if !fails then None else if errorCode == 0 then Some(EOF) else Some(Device(errorCode));
      forall i | 0 <= i < n {
        p[lo + i] := rest[i];
      }
      if n > 0 {
        gap := patience;
      } else if err.None? {
        gap := gap - 1;
      }
      supplied := supplied + rest[..n];
      answers := answers + [if err.Some? then Broke(err.value) else if n > 0 then Brought else Nothing];
      rest := rest[n..];
    }
  }

  /** A client-supplied writer. It may take only part of what it is given, with or
      without reporting an error. */
  class Sink {
    var sunk: seq<byte>
    /** What its calls came to, in order. */
    ghost var uptakes: seq<Uptake>
    /** Takes everything, without an error. */
    const steady: bool
    const patience: nat
    var gap: nat

    constructor (steady: bool, patience: nat)
      ensures sunk == [] && this.steady == steady && this.patience == patience && gap == patience
    {
      sunk, uptakes := [], [];
      this.steady := steady;
      this.patience := patience;
      gap := patience;
    }

    method Write(p: seq<byte>) returns (n: nat, err: Option<Error>)
      modifies this
      ensures n <= |p|
      ensures steady ==> n == |p| && err.None?
      ensures sunk == old(sunk) + p[..n]
      ensures uptakes == old(uptakes) + [Uptake(n < |p|, err)]
      ensures err.Some? ==> FromOutside(err.value)
      ensures n == 0 && err.None? && |p| > 0 ==> gap < old(gap)
      ensures n > 0 ==> gap == patience
    {
      n :| 0 <= n <= |p|;
      var fails: bool := *;
      if steady {
        n, fails := |p|, false;
      }
      var errorCode: nat := *;
      fails := fails || (n == 0 && |p| > 0 && gap == 0);
      err := if !fails then None else if errorCode == 0 then Some(EOF) else Some(Device(errorCode));
      if n > 0 {
        gap := patience;
      } else if err.None? && |p| > 0 {
        gap := gap - 1;
      }
      sunk := sunk + p[..n];
      uptakes := uptakes + [Uptake(n < |p|, err)];
    }
  }
}
