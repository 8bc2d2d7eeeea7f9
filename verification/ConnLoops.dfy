/** The loops of a connection that move bytes: `ConnService.Write`, which drains the write
    channel into the buffered writer, and `ConnService.ReadBytes`. */
module ConnLoops {
  import opened Options
  import opened Sequences
  import opened Streams
  import opened BufReader
  import opened BufWriter

  /** What the servicer says about a message before it is written. */
  datatype Verdict = Keep | Discard | Refuse

  datatype Msg = Msg(data: seq<byte>, verdict: Verdict)

  /** What a `select` picks: a message, the closed channel, the flush timer, the end of the
      context, or its default branch; the quit flag as it is when a burst ends there. */
  datatype Ready = Message | Closed | Timer | Done | Default(quit: bool)

  /** `Waiting`: nothing more has happened, and the loop is still there. */
  datatype Outcome = Drained | Quit | Failed | Waiting

  /** The bytes of the messages that are not discarded, in channel order. */
  function Payload(msgs: seq<Msg>): seq<byte> {
    if msgs == [] then [] else (if msgs[0].verdict.Discard? then [] else msgs[0].data) + Payload(msgs[1..])
  }

  lemma {:induction false} PayloadAppend(msgs: seq<Msg>, m: Msg)
    ensures Payload(msgs + [m]) == Payload(msgs) + if m.verdict.Discard? then [] else m.data
  {
    if msgs == [] {
      assert Payload([m]) == (if m.verdict.Discard? then [] else m.data) + Payload([]);
    } else {
      assert (msgs + [m])[1..] == msgs[1..] + [m];
      PayloadAppend(msgs[1..], m);
    }
  }

  class Conn {
    const reader: Reader
    const writer: Writer
    const flushTime: int
    /** Device errors that say that the peer is gone, and whether even they are to be reported. */
    const goneErrors: set<nat>
    const printCloseErr: bool
    var totalReadByte: nat
    var totalWriteByte: nat

    constructor (reader: Reader, writer: Writer, flushTime: int, goneErrors: set<nat>, printCloseErr: bool)
      ensures this.reader == reader && this.writer == writer && this.flushTime == flushTime
      ensures this.goneErrors == goneErrors && this.printCloseErr == printCloseErr
      ensures totalReadByte == totalWriteByte == 0
    {
      this.reader := reader;
      this.writer := writer;
      this.flushTime := flushTime;
      this.goneErrors, this.printCloseErr := goneErrors, printCloseErr;
      totalReadByte, totalWriteByte := 0, 0;
    }

    /** Every byte counted as written is on the wire or in the buffer behind it. */
    ghost predicate WriteValid()
      reads this, writer, writer.buf, writer.wr
    {
      writer.Valid() && totalWriteByte == |writer.Image()|
    }

    /** The writer had failed already, or its sink has failed since, which one that takes
        everything never does. */
    ghost predicate Excused(was: Option<Error>, seen: seq<Uptake>)
      reads writer.wr
    {
      || was.Some?
      || (!writer.wr.steady && exists i | |seen| <= i < |writer.wr.uptakes| :: Shortfall(writer.wr.uptakes[i]).Some?)
    }

    /** Unless it is excused, the writer has not failed. */
    ghost predicate Excuses(was: Option<Error>, seen: seq<Uptake>)
      reads writer`err, writer.wr
    {
      seen <= writer.wr.uptakes && (writer.err.Some? ==> Excused(was, seen))
    }

    /** One message. All of it is accepted, unless the servicer refuses it or the writer
        fails; then the connection closes with some first part of it accepted. */
    method WriteMsg(msg: Msg) returns (isClose: bool)
      requires WriteValid()
      modifies this`totalWriteByte, writer`n, writer`err, writer.buf, writer.wr
      ensures WriteValid()
      ensures old(writer.wr.sunk) <= writer.wr.sunk
      ensures msg.verdict.Refuse? ==> isClose && writer.Image() == old(writer.Image())
      ensures msg.verdict.Discard? ==> !isClose && writer.Image() == old(writer.Image())
      ensures msg.verdict.Keep? && !isClose ==> writer.Image() == old(writer.Image()) + msg.data
      ensures Excuses(old(writer.err), old(writer.wr.uptakes))
      ensures isClose && !msg.verdict.Refuse? ==> Excused(old(writer.err), old(writer.wr.uptakes))
      ensures isClose ==> exists k: nat :: k <= |msg.data| && writer.Image() == old(writer.Image()) + msg.data[..k]
    {
      assert writer.Image() + msg.data[..0] == writer.Image();
      if msg.verdict.Refuse? {
        return true;
      }
      if msg.verdict.Discard? {
        return false;
      }
      var data := msg.data;
      var totalWritten: nat := 0;
      while totalWritten < |data|
        invariant WriteValid() && totalWritten <= |data|
        invariant writer.Image() == old(writer.Image()) + data[..totalWritten]
        invariant old(writer.wr.sunk) <= writer.wr.sunk
        invariant Excuses(old(writer.err), old(writer.wr.uptakes))
      {
        var n, err := WriteSome(data[totalWritten..]);
        AppendNext(old(writer.Image()), data, totalWritten, n);
        totalWritten := totalWritten + n;
        if totalWritten >= |data| {
          break;
        }
        if err.Some? {
          var _ := writer.ResetErr();
          return true;
        }
      }
      assert data[..|data|] == data;
      return false;
    }

    /** One call of the writer and its count: all the loop relies on is that something is
        accepted or an error says why not. */
    method WriteSome(p: seq<byte>) returns (n: nat, err: Option<Error>)
      requires WriteValid() && p != []
      modifies this`totalWriteByte, writer`n, writer`err, writer.buf, writer.wr
      ensures WriteValid() && n <= |p|
      ensures writer.Image() == old(writer.Image()) + p[..n]
      ensures old(writer.wr.sunk) <= writer.wr.sunk
      ensures err == writer.err && Excuses(old(writer.err), old(writer.wr.uptakes))
      ensures err.None? ==> n > 0
    {
      n, err := writer.Write(p);
      totalWriteByte := totalWriteByte + n;
    }

    /** Drains the channel, whatever arrives when: it takes the course its picks set, unless
        the writer fails. Between messages exactly the payload so far is accepted; a failure
        stops the loop inside the last message taken. Whenever it waits, nothing is held back
        that the timer will not flush. */
    method WriteLoop(incoming: seq<Msg>, picks: seq<Ready>) returns (taken: nat, outcome: Outcome, armed: bool)
      requires WriteValid()
      modifies this`totalWriteByte, writer`n, writer`err, writer.buf, writer.wr
      ensures WriteValid() && taken <= |incoming|
      ensures old(writer.wr.sunk) <= writer.wr.sunk
      ensures Accepted(old(writer.Image()), incoming[..taken], writer.Image(), outcome)
      ensures Follows(incoming, 0, picks, taken, outcome, !Excused(old(writer.err), old(writer.wr.uptakes)))
      ensures Excuses(old(writer.err), old(writer.wr.uptakes))
      ensures outcome.Waiting? && taken > 0 ==> armed || AllSunk()
      ensures outcome.Waiting? && armed ==> flushTime > 0 && writer.n > 0
    {
      taken, outcome, armed := 0, Waiting, false;
      var rest := picks;
      while rest != []
        invariant WriteValid() && taken <= |incoming| && outcome.Waiting?
        invariant old(writer.wr.sunk) <= writer.wr.sunk
        invariant writer.Image() == old(writer.Image()) + Payload(incoming[..taken])
        invariant Course(incoming, taken, false, rest) == Course(incoming, 0, false, picks)
        invariant taken > 0 ==> armed || AllSunk()
        invariant armed ==> flushTime > 0 && writer.n > 0
        invariant Excuses(old(writer.err), old(writer.wr.uptakes))
        decreases |rest|
      {
        var ready := rest[0];
        rest := rest[1..];
        if !CanSelect(ready, taken < |incoming|, armed, false) {
          continue;
        }
        match ready {
          case Message =>
            armed := false;
            var quit;
            assert [Message] + rest == [ready] + rest;
            taken, outcome, rest, quit := TakeMsgs(incoming, taken, rest, old(writer.Image()), old(writer.wr.sunk));
            if outcome != Waiting {
              return;
            }
            armed := FlushOrArm(quit);
          case Timer =>
            armed := false;
            FlushLate();
          case Closed =>
            return taken, Drained, armed;
          case _ =>
            return taken, Quit, armed;
        }
      }
    }

    /** Nothing waits in the buffer, unless the writer has failed. */
    ghost predicate AllSunk()
      reads writer
    {
      writer.n == 0 || writer.err.Some?
    }

    /** After a burst of messages: what is buffered goes out now, or the timer will see to it;
        never the latter without a flush time. */
    method FlushOrArm(quit: bool) returns (armed: bool)
      requires WriteValid()
      modifies writer`n, writer`err, writer.buf, writer.wr
      ensures WriteValid() && writer.Image() == old(writer.Image()) && old(writer.wr.sunk) <= writer.wr.sunk
      ensures Excuses(old(writer.err), old(writer.wr.uptakes))
      ensures armed <==> old(writer.n) > 0 && flushTime > 0 && !quit
      ensures if armed then writer.n == old(writer.n) else AllSunk()
    {
      armed := false;
      if writer.n > 0 {
        if flushTime > 0 && !quit {
          armed := true;
        } else {
          var _ := writer.Flush();
        }
      }
    }

    method FlushLate()
      requires WriteValid()
      modifies writer`n, writer`err, writer.buf, writer.wr
      ensures WriteValid() && writer.Image() == old(writer.Image()) && old(writer.wr.sunk) <= writer.wr.sunk
      ensures Excuses(old(writer.err), old(writer.wr.uptakes))
      ensures AllSunk()
    {
      if writer.n > 0 {
        var _ := writer.Flush();
      }
    }

    /** The message just selected, and those found waiting behind it; whether the quit flag is
        set when no more is found. */
    method TakeMsgs(incoming: seq<Msg>, from: nat, picks: seq<Ready>, ghost start: seq<byte>,
        ghost sunk: seq<byte>) returns (taken: nat, outcome: Outcome, rest: seq<Ready>, quit: bool)
      requires WriteValid() && from < |incoming|
      requires writer.Image() == start + Payload(incoming[..from]) && sunk <= writer.wr.sunk
      modifies this`totalWriteByte, writer`n, writer`err, writer.buf, writer.wr
      ensures WriteValid() && from < taken <= |incoming| && sunk <= writer.wr.sunk && |rest| <= |picks|
      ensures Accepted(start, incoming[..taken], writer.Image(), outcome)
      ensures Excuses(old(writer.err), old(writer.wr.uptakes))
      ensures outcome.Waiting? ==>
        Course(incoming, taken, false, rest) == Course(incoming, from, false, [Message] + picks)
      ensures !outcome.Waiting? ==>
        Follows(incoming, from, [Message] + picks, taken, outcome, !Excused(old(writer.err), old(writer.wr.uptakes)))
    {
      taken, rest, quit := from, [Message] + picks, false;
      while rest != []
        invariant WriteValid() && from <= taken <= |incoming| && sunk <= writer.wr.sunk
        invariant |rest| <= |picks| + 1 && (taken == from ==> rest == [Message] + picks)
        invariant writer.Image() == start + Payload(incoming[..taken])
        invariant Course(incoming, taken, taken > from, rest) == Course(incoming, from, false, [Message] + picks)
        invariant Excuses(old(writer.err), old(writer.wr.uptakes))
        decreases |rest|
      {
        var ready := rest[0];
        rest := rest[1..];
        if !CanSelect(ready, taken < |incoming|, false, true) {
          continue;
        }
        if ready.Default? {
          return taken, Waiting, rest, ready.quit;
        }
        if ready.Closed? {
          return taken, Drained, rest, false;
        }
        var isClose := TakeMsg(incoming, taken, start);
        taken := taken + 1;
        if isClose {
          return taken, Failed, rest, false;
        }
      }
      return taken, Waiting, rest, false;
    }

    method TakeMsg(incoming: seq<Msg>, taken: nat, ghost start: seq<byte>) returns (isClose: bool)
      requires WriteValid() && taken < |incoming| && writer.Image() == start + Payload(incoming[..taken])
      modifies this`totalWriteByte, writer`n, writer`err, writer.buf, writer.wr
      ensures WriteValid() && old(writer.wr.sunk) <= writer.wr.sunk
      ensures Accepted(start, incoming[..taken + 1], writer.Image(), if isClose then Failed else Waiting)
      ensures incoming[taken].verdict.Refuse? ==> isClose
      ensures isClose && !incoming[taken].verdict.Refuse? ==> Excused(old(writer.err), old(writer.wr.uptakes))
      ensures Excuses(old(writer.err), old(writer.wr.uptakes))
    {
      var msg := incoming[taken];
      PayloadAppend(incoming[..taken], msg);
      Associative(start, Payload(incoming[..taken]), msg.data);
      assert incoming[..taken + 1] == incoming[..taken] + [msg];
      isClose := WriteMsg(msg);
    }

    /** `Write`: the loop, then the deferred flush, which runs even after a failed write has
        been reset. The wire never holds anything but a prefix of the payload, and all that is
        accepted once the loop has ended. */
    method Write(incoming: seq<Msg>, picks: seq<Ready>) returns (taken: nat, outcome: Outcome)
      requires WriteValid()
      modifies this`totalWriteByte, writer`n, writer`err, writer.buf, writer.wr
      ensures WriteValid() && taken <= |incoming|
      ensures Follows(incoming, 0, picks, taken, outcome, !Excused(old(writer.err), old(writer.wr.uptakes)))
      ensures old(writer.wr.sunk) <= writer.wr.sunk <= old(writer.Image()) + Payload(incoming[..taken])
      ensures Accepted(old(writer.Image()), incoming[..taken], writer.Image(), outcome)
      ensures Excuses(old(writer.err), old(writer.wr.uptakes))
      ensures totalWriteByte == |writer.wr.sunk| + writer.n
      ensures !outcome.Waiting? && writer.err.None? ==>
        Accepted(old(writer.Image()), incoming[..taken], writer.wr.sunk, outcome)
    {
      var armed;
      taken, outcome, armed := WriteLoop(incoming, picks);
      if outcome != Waiting {
        var _ := writer.Flush();
      }
      AcceptedIsPrefix(old(writer.Image()), incoming[..taken], writer.Image(), outcome);
      assert writer.wr.sunk <= writer.Image() && (writer.n == 0 ==> writer.wr.sunk == writer.Image());
    }

    /** Does an error that closes the connection count as a failure? */
    predicate SocketErr(e: Error) {
      match e
      case EOF => printCloseErr
      case Device(code) => printCloseErr || code !in goneErrors
      case _ => true
    }

    /** Fills `data` from the stream unless the connection quits, which it is seen to have done
        after so many rounds, or the reader fails first. The bytes read are the stream's next
        ones and are all counted. */
    method ReadBytes(data: array<byte>, quitAt: Option<nat>) returns (isClose: bool, failed: bool, ghost total: nat,
        e: Option<Error>)
      requires reader.Valid() && data != reader.buf
      modifies this`totalReadByte, reader, reader.buf, reader.rd, data
      ensures reader.Valid() && total <= data.Length
      ensures totalReadByte == old(totalReadByte) + total
      ensures reader.delivered == old(reader.delivered) + data[..total]
      ensures old(reader.Pending()) == data[..total] + reader.Pending()
      ensures data.Length == 0 ==> failed && !isClose && reader.rd.answers == old(reader.rd.answers)
      ensures data.Length > 0 && !isClose ==> !failed && e.None? && total == data.Length
      ensures data.Length > 0 && isClose ==> total < data.Length && (e.Some? || quitAt.Some?)
      ensures data.Length > 0 ==> (failed <==> e.Some? && SocketErr(e.value))
      ensures data.Length > 0 && e == Some(EOF) ==> failed == printCloseErr
      ensures data.Length > 0 && e.Some? && e.value.Device? ==>
        failed == (printCloseErr || e.value.code !in goneErrors)
      ensures e.Some? ==> reader.err.None? && Came(e, old(reader.err), old(reader.rd.answers))
      ensures quitAt.None? && reader.FinalErrors() ==> (isClose <==> |old(reader.Pending())| < data.Length)
      ensures data.Length > 0 && quitAt == Some(0) ==>
        isClose && e.None? && total == 0 && reader.rd.answers == old(reader.rd.answers)
    {
      ghost var delivered, pending := reader.delivered, reader.Pending();
      var read, rounds: nat := 0, 0;
      isClose, failed, e, total := false, data.Length == 0, None, 0;
      assert data[..0] == [];
      while read < data.Length && !isClose
        invariant read <= data.Length && ReadSoFar(delivered, pending, data[..read])
        invariant totalReadByte == old(totalReadByte) + read
        invariant isClose ==> read < data.Length && (e.Some? || quitAt.Some?)
        invariant failed <==> data.Length == 0 || (e.Some? && SocketErr(e.value))
        invariant e.Some? ==> isClose && reader.err.None? && Came(e, old(reader.err), old(reader.rd.answers))
        invariant e.Some? && reader.FinalErrors() ==> reader.Pending() == []
        invariant reader.err.Some? ==> Came(reader.err, old(reader.err), old(reader.rd.answers))
        invariant old(reader.rd.answers) <= reader.rd.answers
        invariant data.Length == 0 ==> reader.rd.answers == old(reader.rd.answers)
        invariant quitAt == Some(0) ==>
          rounds == 0 && e.None? && read == 0 && reader.rd.answers == old(reader.rd.answers)
        decreases !isClose, data.Length - read, reader.rd.gap
      {
        if quitAt == Some(rounds) {
          isClose := true;
        } else {
          read, e := ReadStep(data, read, delivered, pending, old(reader.err), old(reader.rd.answers));
          isClose, failed := e.Some?, e.Some? && SocketErr(e.value);
          rounds := rounds + 1;
        }
      }
      total := read;
    }

    /** This error was pending already, or is the last that the source has reported since. */
    ghost predicate Came(e: Option<Error>, was: Option<Error>, seen: seq<Answer>)
      reads reader.rd
    {
      var answers := reader.rd.answers;
      e == was || (|seen| < |answers| && e.Some? && answers[|answers| - 1] == Broke(e.value))
    }

    /** One round: it reads something, or fails to. */
    method ReadStep(data: array<byte>, total: nat, ghost delivered: seq<byte>, ghost pending: seq<byte>,
        ghost was: Option<Error>, ghost seen: seq<Answer>) returns (total': nat, e: Option<Error>)
      requires data != reader.buf && total < data.Length && ReadSoFar(delivered, pending, data[..total])
      requires seen <= reader.rd.answers && (reader.err.Some? ==> Came(reader.err, was, seen))
      modifies this`totalReadByte, reader, reader.buf, reader.rd, data
      ensures total <= total' <= data.Length && totalReadByte == old(totalReadByte) + (total' - total)
      ensures ReadSoFar(delivered, pending, data[..total'])
      ensures e.Some? ==> total' < data.Length && reader.err.None? && Came(e, was, seen)
      ensures e.Some? && reader.FinalErrors() ==> reader.Pending() == []
      ensures seen <= reader.rd.answers && (reader.err.Some? ==> Came(reader.err, was, seen))
      ensures total' == total && e.None? ==> reader.rd.gap < old(reader.rd.gap)
    {
      var n;
      n, e := ReadMore(data, total, delivered, pending, was, seen);
      total' := total + n;
      if total' >= data.Length {
        e := None;
      } else if e.Some? {
        var _ := reader.ResetErr();
      }
    }

    /** These bytes, and no others, have come off the front of the stream. */
    ghost predicate ReadSoFar(delivered: seq<byte>, pending: seq<byte>, got: seq<byte>)
      reads this, reader, reader.buf, reader.rd
    {
      reader.Valid() && reader.delivered == delivered + got && pending == got + reader.Pending()
    }

    method ReadMore(data: array<byte>, total: nat, ghost delivered: seq<byte>,
        ghost pending: seq<byte>, ghost was: Option<Error>,
        ghost seen: seq<Answer>) returns (n: nat, err: Option<Error>)
      requires data != reader.buf && total < data.Length && ReadSoFar(delivered, pending, data[..total])
      requires seen <= reader.rd.answers && (reader.err.Some? ==> Came(reader.err, was, seen))
      modifies this`totalReadByte, reader, reader.buf, reader.rd, data
      ensures total + n <= data.Length && totalReadByte == old(totalReadByte) + n
      ensures ReadSoFar(delivered, pending, data[..total + n])
      ensures n == 0 && err.None? ==> reader.rd.gap < old(reader.rd.gap)
      ensures err.Some? ==> reader.err.None? && Came(err, was, seen)
      ensures err.Some? && reader.FinalErrors() ==> reader.Pending() == []
      ensures seen <= reader.rd.answers && (reader.err.Some? ==> Came(reader.err, was, seen))
    {
      n, err := reader.Read(data, total);
      OneSettles(reader.rd.answers, old(reader.rd.answers), old(reader.err));
      JoinPieces(delivered, data[..total], data[total..total + n], reader.Pending());
      assert data[..total + n] == data[..total] + data[total..total + n];
      totalReadByte := totalReadByte + n;
    }
  }

  /** May `select` pick this, given whether a message is still to come, the timer is armed,
      and there is a default branch? A closed channel delivers what it holds first. */
  predicate CanSelect(ready: Ready, more: bool, armed: bool, hasDefault: bool) {
    match ready
    case Message => more
    case Closed => !more
    case Timer => armed && !hasDefault
    case Done => !hasDefault
    case Default(_) => hasDefault
  }

  /** How many messages the loop takes and how it ends, if the writer never fails. A pick that
      the `select` at hand does not offer is passed by; without any more the loop waits. */
  function Course(msgs: seq<Msg>, taken: nat, burst: bool, picks: seq<Ready>): (c: (nat, Outcome))
    requires taken <= |msgs|
    ensures taken <= c.0 <= |msgs|
    decreases |picks|
  {
    if picks == [] then (taken, Waiting)
    else
      match picks[0]
      case Message =>
        if taken == |msgs| then Course(msgs, taken, burst, picks[1..])
        else if msgs[taken].verdict.Refuse? then (taken + 1, Failed)
        else Course(msgs, taken + 1, true, picks[1..])
      case Closed => if taken == |msgs| then (taken, Drained) else Course(msgs, taken, burst, picks[1..])
      case Done => if burst then Course(msgs, taken, burst, picks[1..]) else (taken, Quit)
      case Timer => Course(msgs, taken, burst, picks[1..])
      case Default(_) => Course(msgs, taken, false, picks[1..])
  }

  /** The loop keeps to that course, unless it fails at a message on the way; a writer that is
      sure to succeed never makes it. */
  ghost predicate Follows(msgs: seq<Msg>, from: nat, picks: seq<Ready>, taken: nat, outcome: Outcome, sure: bool)
    requires from <= |msgs|
  {
    var course := Course(msgs, from, false, picks);
    || (taken, outcome) == course
    || (!sure && outcome.Failed? && from < taken <= course.0 && msgs[taken - 1].verdict.Keep?)
  }

  function Messages(picks: seq<Ready>): nat {
    if picks == [] then 0 else (if picks[0].Message? then 1 else 0) + Messages(picks[1..])
  }

  /** Every end has its reason, and until then each pick of a message takes the next one. */
  lemma {:induction false} CourseReasons(msgs: seq<Msg>, taken: nat, burst: bool, picks: seq<Ready>)
    requires taken <= |msgs|
    ensures var (last, outcome) := Course(msgs, taken, burst, picks);
      && (outcome.Quit? ==> Done in picks)
      && (outcome.Drained? ==> Closed in picks && last == |msgs|)
      && (outcome.Failed? ==> taken < last && msgs[last - 1].verdict.Refuse?)
      && (forall i | taken <= i < last :: msgs[i].verdict.Refuse? ==> outcome.Failed? && i == last - 1)
      && last <= taken + Messages(picks)
      && (outcome.Waiting? ==> last == |msgs| || last == taken + Messages(picks))
    decreases |picks|
  {
    if picks != [] {
      if picks[0].Message? && taken < |msgs| {
        if !msgs[taken].verdict.Refuse? {
          CourseReasons(msgs, taken + 1, true, picks[1..]);
        }
      } else {
        CourseReasons(msgs, taken, burst && !picks[0].Default?, picks[1..]);
      }
    }
  }

  /** The end of the context is heard between bursts: at the start, and behind a default branch. */
  lemma {:induction false} DoneIsHeard(msgs: seq<Msg>, taken: nat, burst: bool, picks: seq<Ready>, k: nat)
    requires taken <= |msgs| && k < |picks| && picks[k].Done?
    requires if k == 0 then !burst else picks[k - 1].Default?
    ensures !Course(msgs, taken, burst, picks).1.Waiting?
    decreases |picks|
  {
    if k > 0 {
      if picks[0].Message? && taken < |msgs| {
        if !msgs[taken].verdict.Refuse? {
          DoneIsHeard(msgs, taken + 1, true, picks[1..], k - 1);
        }
      } else {
        DoneIsHeard(msgs, taken, burst && !picks[0].Default?, picks[1..], k - 1);
      }
    }
  }

  /** Some pick finds the channel closed, with a pick before it for each message needed. */
  ghost predicate FoundClosed(picks: seq<Ready>, needed: int) {
    exists k | 0 <= k < |picks| :: picks[k].Closed? && needed <= Messages(picks[..k])
  }

  lemma FoundClosedLater(picks: seq<Ready>, needed: int)
    requires picks != []
    ensures FoundClosed(picks, needed) <==>
      (picks[0].Closed? && needed <= 0) || FoundClosed(picks[1..], needed - Messages(picks[..1]))
  {
    var rest := picks[1..];
    assert picks[..0] == [] && picks[..1] == [picks[0]];
    forall k | 0 < k <= |picks|
      ensures Messages(picks[..k]) == Messages(picks[..1]) + Messages(rest[..k - 1])
    {
      assert picks[..k][1..] == rest[..k - 1] && picks[..1][1..] == [];
    }
    if k :| 0 <= k < |picks| && picks[k].Closed? && needed <= Messages(picks[..k]) {
      assert k > 0 ==> rest[k - 1] == picks[k];
    }
    if k :| 0 <= k < |rest| && rest[k].Closed? && needed - Messages(picks[..1]) <= Messages(rest[..k]) {
      assert rest[k] == picks[k + 1];
    }
  }

  /** Without a refusal or an end of the context, the channel is drained exactly if it is found
      closed behind a pick for each message. */
  lemma {:induction false} DrainsIff(msgs: seq<Msg>, taken: nat, burst: bool, picks: seq<Ready>)
    requires taken <= |msgs| && Done !in picks && forall i | taken <= i < |msgs| :: !msgs[i].verdict.Refuse?
    ensures Course(msgs, taken, burst, picks) == (|msgs|, Drained) <==> FoundClosed(picks, |msgs| - taken)
    decreases |picks|
  {
    if picks != [] {
      var next := if picks[0].Message? && taken < |msgs| then taken + 1 else taken;
      FoundClosedLater(picks, |msgs| - taken);
      DrainsIff(msgs, next, (burst || next > taken) && !picks[0].Default?, picks[1..]);
      if next == taken && picks[0].Message? {
        NeedsNone(picks[1..], -1);
      }
    }
  }

  lemma NeedsNone(picks: seq<Ready>, needed: int)
    requires needed <= 0
    ensures FoundClosed(picks, needed) <==> Closed in picks
  {
  }

  /** What the loop leaves accepted: the whole payload, or, after a failure, everything
      before the last message and some first part of that one. */
  ghost predicate Accepted(start: seq<byte>, msgs: seq<Msg>, image: seq<byte>, outcome: Outcome) {
    if outcome.Failed? then
      && msgs != [] && !Last(msgs).verdict.Discard?
      && exists k: nat ::
           && k <= |Last(msgs).data| && (Last(msgs).verdict.Refuse? ==> k == 0)
           && image == start + Payload(msgs[..|msgs| - 1]) + Last(msgs).data[..k]
    else
      image == start + Payload(msgs)
  }

  function Last(msgs: seq<Msg>): Msg
    requires msgs != []
  {
    msgs[|msgs| - 1]
  }

  lemma AcceptedIsPrefix(start: seq<byte>, msgs: seq<Msg>, image: seq<byte>, outcome: Outcome)
    requires Accepted(start, msgs, image, outcome)
    ensures image <= start + Payload(msgs)
  {
    if outcome.Failed? {
      var front, last := msgs[..|msgs| - 1], Last(msgs);
      assert msgs == front + [last];
      PayloadAppend(front, last);
      Associative(start, Payload(front), last.data);
    }
  }

  /** One answer settles an error only if it is one. */
  lemma OneSettles(answers: seq<Answer>, seen: seq<Answer>, was: Option<Error>)
    requires seen <= answers && |answers| <= |seen| + if was.None? then 1 else 0
    ensures var e := Settle(was, answers[|seen|..]);
      e == was || (|answers| == |seen| + 1 && answers[|seen|].Broke? && e == Some(answers[|seen|].error))
  {
    if answers != seen {
      OneAnswer(seen, answers[|seen|]);
      assert answers == seen + [answers[|seen|]];
    }
  }

  lemma JoinPieces<T>(a: seq<T>, b: seq<T>, c: seq<T>, d: seq<T>)
    ensures a + b + c == a + (b + c)
    ensures b + (c + d) == b + c + d
  {
  }
}
