/** Whole runs of buffered calls, in any order, over any source and sink. */
module StreamRuns {
  import opened Options
  import opened Sequences
  import opened Streams
  import opened Utf8
  import opened Lines
  import opened BufReader
  import opened BufWriter

  datatype WriterCall =
    | Write(p: seq<byte>)
    | WriteString(s: seq<byte>)
    | WriteByte(c: byte)
    | WriteRune(r: int)
    | ReadFrom
    | Flush
    | ResetErr

  /** What a call may see and change: accepted bytes, sunk bytes, what the reader of `ReadFrom`
      has yet to supply, the sticky error, and what the calls of the sink came to. */
  datatype WriterMark = WriterMark(image: seq<byte>, sunk: seq<byte>, rest: seq<byte>, err: Option<Error>,
      uptakes: seq<Uptake>)

  ghost function MarkWriter(w: Writer, from: Source): WriterMark
    requires w.Valid()
    reads w, w.buf, w.wr, from
  {
    WriterMark(w.Image(), w.wr.sunk, from.rest, w.err, w.wr.uptakes)
  }

  /** One call accepts `piece`: a first part of its argument, all of it without an error, and
      nothing at all behind a sticky one. */
  ghost predicate WriterStep(call: WriterCall, final: bool, steady: bool, m: WriterMark, piece: seq<byte>,
      m': WriterMark) {
    && m'.image == m.image + piece
    && m.sunk <= m'.sunk
    && m.rest == (if call.ReadFrom? then piece + m'.rest else m'.rest)
    && (m.err.Some? && !call.ResetErr? ==> m' == m)
    && (steady && m.err.None? ==> m'.err.None?)
    && (!call.ResetErr? ==> BlamedOn(m.err, m.uptakes, m'.err, m'.uptakes))
    && match call
       case Write(p) => piece <= p && (m'.err.None? ==> piece == p)
       case WriteString(t) => piece <= t && (m'.err.None? ==> piece == t)
       case WriteByte(c) => piece == if m'.err.Some? then [] else [c]
       case WriteRune(r) => piece <= Encode(r) && (m'.err.None? ==> piece == Encode(r))
       case ReadFrom => final && m'.err.None? ==> m'.rest == []
       case Flush => piece == [] && (m'.err.None? ==> m'.sunk == m.image)
       case ResetErr => piece == [] && m' == m.(err := None)
  }

  /** No reader but one at its end reports an error, and none stays empty for a hundred reads. */
  predicate Final(from: Source)
  {
    from.steady && from.patience < MAX_CONSECUTIVE_EMPTY_READS
  }

  /** A run of calls, each doing what it should. */
  ghost predicate WriterSteps(calls: seq<WriterCall>, final: bool, steady: bool, marks: seq<WriterMark>,
      pieces: seq<seq<byte>>) {
    && |pieces| == |calls| == |marks| - 1
    && (forall i | 0 <= i < |calls| :: WriterStep(calls[i], final, steady, marks[i], pieces[i], marks[i + 1]))
  }

  lemma AddWriterStep(calls: seq<WriterCall>, final: bool, steady: bool, marks: seq<WriterMark>, pieces: seq<seq<byte>>,
      call: WriterCall, piece: seq<byte>, m: WriterMark)
    requires WriterSteps(calls, final, steady, marks, pieces)
    requires WriterStep(call, final, steady, marks[|calls|], piece, m)
    ensures WriterSteps(calls + [call], final, steady, marks + [m], pieces + [piece])
  {
    var calls', marks', pieces' := calls + [call], marks + [m], pieces + [piece];
    forall i | 0 <= i < |calls'|
      ensures WriterStep(calls'[i], final, steady, marks'[i], pieces'[i], marks'[i + 1])
    {
      if i < |calls| {
        assert calls'[i] == calls[i] && pieces'[i] == pieces[i];
        assert marks'[i] == marks[i] && marks'[i + 1] == marks[i + 1];
      }
    }
  }

  /** Then what was accepted is what all the calls accepted, in order, and what was sunk was
      sunk for good. */
  lemma {:induction false} StepsAccept(calls: seq<WriterCall>, final: bool, steady: bool, marks: seq<WriterMark>,
      pieces: seq<seq<byte>>, n: nat)
    requires WriterSteps(calls, final, steady, marks, pieces) && n <= |calls|
    ensures marks[n].image == marks[0].image + Concat(pieces[..n]) && marks[0].sunk <= marks[n].sunk
  {
    if n > 0 {
      StepsAccept(calls, final, steady, marks, pieces, n - 1);
      assert pieces[..n] == pieces[..n - 1] + [pieces[n - 1]];
      ConcatAppend(pieces[..n - 1], pieces[n - 1]);
      assert WriterStep(calls[n - 1], final, steady, marks[n - 1], pieces[n - 1], marks[n]);
      Associative(marks[0].image, Concat(pieces[..n - 1]), pieces[n - 1]);
    }
  }

  /** Whatever fails and whatever is reset in between, sunk and buffered bytes are at every
      point those accepted so far, call by call and in order. */
  method RunWriter(w: Writer, from: Source, calls: seq<WriterCall>) returns (pieces: seq<seq<byte>>,
      ghost marks: seq<WriterMark>)
    requires w.Valid() && from.Valid()
    modifies w`n, w`err, w.buf, w.wr, from
    ensures w.Valid() && from.Valid()
    ensures WriterSteps(calls, Final(from), w.wr.steady, marks, pieces)
    ensures marks[0] == old(MarkWriter(w, from)) && marks[|calls|] == MarkWriter(w, from)
    ensures forall n | 0 <= n <= |calls| :: marks[n].image == old(w.Image()) + Concat(pieces[..n])
    ensures w.Image() == old(w.Image()) + Concat(pieces) && old(w.wr.sunk) <= w.wr.sunk
  {
    pieces, marks := [], [MarkWriter(w, from)];
    for i := 0 to |calls|
      invariant w.Valid() && from.Valid()
      invariant WriterSteps(calls[..i], Final(from), w.wr.steady, marks, pieces)
      invariant marks[0] == old(MarkWriter(w, from)) && marks[i] == MarkWriter(w, from)
    {
      var piece := DoWriterCall(w, from, calls[i]);
      AddWriterStep(calls[..i], Final(from), w.wr.steady, marks, pieces, calls[i], piece, MarkWriter(w, from));
      assert calls[..i + 1] == calls[..i] + [calls[i]];
      pieces := pieces + [piece];
      marks := marks + [MarkWriter(w, from)];
    }
    assert calls[..|calls|] == calls && pieces[..|calls|] == pieces;
    forall n | 0 <= n <= |calls|
      ensures marks[n].image == old(w.Image()) + Concat(pieces[..n])
    {
      StepsAccept(calls, Final(from), w.wr.steady, marks, pieces, n);
    }
    StepsAccept(calls, Final(from), w.wr.steady, marks, pieces, |calls|);
  }

  /** One call, and the bytes it reported as accepted. */
  method DoWriterCall(w: Writer, from: Source, call: WriterCall) returns (accepted: seq<byte>)
    requires w.Valid() && from.Valid()
    modifies w`n, w`err, w.buf, w.wr, from
    ensures w.Valid() && from.Valid()
    ensures WriterStep(call, Final(from), w.wr.steady, old(MarkWriter(w, from)), accepted, MarkWriter(w, from))
  {
    accepted := [];
    var k: nat;
    var e;
    match call {
      case Write(p) =>
        k, e := w.Write(p);
        accepted := p[..k];
      case WriteString(s) =>
        k, e := w.WriteString(s);
        accepted := s[..k];
      case WriteByte(c) =>
        e := w.WriteByte(c);
        accepted := if e.None? then [c] else [];
      case WriteRune(r) =>
        k, e := w.WriteRune(r);
        accepted := Encode(r)[..k];
      case ReadFrom =>
        var rest := from.rest;
        k, e := w.ReadFrom(from);
        accepted := rest[..k];
      case Flush =>
        e := w.Flush();
        assert w.n == 0 ==> w.Image() == w.wr.sunk;
      case ResetErr =>
        e := w.ResetErr();
    }
    if old(w.err).Some? && !call.ResetErr? {
      assert accepted == [] && w.Image() == old(w.Image()) && from.rest == old(from.rest);
    }
  }

  datatype ReaderCall =
    | Peek(n: int)
    | Discard(n: int)
    | Read(length: nat)
    | ReadByte
    | UnreadByte
    | ReadRune
    | UnreadRune
    | ReadSlice(delim: byte)
    | ReadLine
    | ReadBytes(delim: byte)
    | ReadString(delim: byte)
    | ResetReadErr

  /** What a call may see and change: bytes delivered, bytes still to come, those of them that
      are buffered, those ever supplied, what `UnreadByte` and `UnreadRune` would put back, and how
      often the source may still return nothing. */
  datatype ReaderMark = ReaderMark(delivered: seq<byte>, pending: seq<byte>, buffered: seq<byte>, supplied: seq<byte>,
      lastByte: int, canUnread: bool, crBack: bool, lastRune: nat, gap: nat, err: Option<Error>, answers: seq<Answer>)

  ghost function MarkReader(rd: Reader): (m: ReaderMark)
    requires rd.Valid()
    reads rd, rd.buf, rd.rd
    ensures MarkOk(m)
  {
    ReaderMark(rd.delivered, rd.Pending(), rd.Buffered(), rd.rd.supplied, rd.lastByte, rd.CanUnreadByte(), rd.crBack,
      LastRune(rd), rd.rd.gap, rd.err, rd.rd.answers)
  }

  /** Only a carriage return that `ReadLine` has put back can differ from the byte delivered
      last. */
  ghost predicate MarkOk(m: ReaderMark) {
    && m.lastRune <= |m.delivered|
    && (m.canUnread ==> 0 <= m.lastByte < 256 && m.delivered != [])
    && (m.canUnread && !m.crBack ==> m.delivered[|m.delivered| - 1] as int == m.lastByte)
  }

  /** What a call that puts nothing back takes off the stream `before`, leaving `after`; with
      final errors nothing but the end of the stream makes it take less. */
  ghost predicate TakesLike(call: ReaderCall, final: bool, before: seq<byte>, taken: seq<byte>, after: seq<byte>) {
    match call
    case Peek(_) => taken == []
    case ResetReadErr => taken == []
    case Discard(n) => |taken| <= Positive(n) && (final ==> |taken| == Positive(n) || after == [])
    case Read(length) => |taken| <= length
    case ReadByte => |taken| <= 1 && (final && taken == [] ==> before == [])
    case ReadRune => |taken| <= UTF_MAX && (final ==> if before == [] then taken == [] else |taken| == Decode(before).1)
    case ReadSlice(delim) => if taken == [] then final ==> before == [] else delim !in taken[..|taken| - 1]
    case ReadLine => if taken == [] then final ==> before == [] else OneLine(taken)
    case ReadBytes(delim) => TakesUpTo(delim, final, before, taken, after)
    case ReadString(delim) => TakesUpTo(delim, final, before, taken, after)
    case UnreadByte => taken == []
    case UnreadRune => taken == []
  }

  ghost predicate TakesUpTo(delim: byte, final: bool, before: seq<byte>, taken: seq<byte>, after: seq<byte>) {
    && ReadUpTo(before, taken, after, delim, delim in taken)
    && (final ==> (taken, after) == CutAfter(before, delim))
  }

  /** Does the call hand bytes to its caller? */
  predicate Reads(call: ReaderCall) {
    call.Read? || call.ReadByte? || call.ReadRune? || call.ReadSlice? || call.ReadLine? || call.ReadBytes? ||
    call.ReadString?
  }

  /** A read of nothing uses up the source's patience. A byte can be unread behind a read that
      took something, a rune exactly behind the read of a rune, and neither once something was
      unread or skipped. */
  ghost predicate GoesOn(call: ReaderCall, final: bool, m: ReaderMark, taken: seq<byte>, m': ReaderMark) {
    && (call.Read? && final && call.length > 0 && taken == [] ==> m.pending == [] || m'.gap < m.gap)
    && (Reads(call) && taken != [] ==> m'.canUnread && (call.ReadLine? || !m'.crBack))
    && (if call.ReadRune? then m'.lastRune == |taken|
        else m'.lastRune == 0 || (taken == [] && m'.lastRune == m.lastRune))
    && (Spends(call, m) ==> !m'.canUnread && m'.lastRune == 0)
  }

  ghost predicate Spends(call: ReaderCall, m: ReaderMark) {
    match call
    case Peek(n) => n >= 0
    case Discard(n) => n > 0
    case UnreadByte => m.canUnread
    case UnreadRune => m.lastRune > 0
    case _ => false
  }

  function LastRune(rd: Reader): nat
    reads rd
  {
    if 0 < rd.lastRuneSize <= rd.r then rd.lastRuneSize else 0
  }

  function Positive(n: int): nat {
    if n < 0 then 0 else n
  }

  /** An error that the source's answers have settled is handed out, or pending; only a line that
      it ended makes it be forgotten. Those of this package leave it as it was. */
  ghost predicate Tells(call: ReaderCall, m: ReaderMark, taken: seq<byte>, told: Option<Error>, m': ReaderMark) {
    && m.answers <= m'.answers
    && SaysWhy(call, m, taken, told)
    && var settled := Settle(m.err, m'.answers[|m.answers|..]);
       match call
       case UnreadByte => m'.answers == m.answers && m'.err == m.err
       case UnreadRune => m'.answers == m.answers && m'.err == m.err
       case ResetReadErr => m'.answers == m.answers && told == m.err && m'.err.None?
       case _ =>
         if Foreign(told) then told == settled && m'.err.None?
         else m'.err == settled || (Foreign(settled) && m'.err.None? && EndsLine(call, taken))
  }

  /** A call does without an error exactly what it is asked for; a `Read` or a `Peek` may do less. */
  predicate SaysWhy(call: ReaderCall, m: ReaderMark, taken: seq<byte>, told: Option<Error>) {
    match call
    case UnreadByte => told.None? <==> m.canUnread
    case UnreadRune => told.None? <==> m.lastRune > 0
    case Discard(n) => told.None? <==> |taken| == n
    case ReadByte => told.None? <==> taken != []
    case ReadRune => told.None? <==> taken != []
    case ReadLine => told.None? <==> taken != []
    case ReadSlice(delim) => told.None? <==> delim in taken
    case ReadBytes(delim) => told.None? <==> delim in taken
    case ReadString(delim) => told.None? <==> delim in taken
    case _ => true
  }

  predicate EndsLine(call: ReaderCall, taken: seq<byte>) {
    call.ReadLine? && taken != [] && LF !in taken
  }

  /** One call: the unread ones move the last byte or rune back, the others move `taken` on. */
  ghost predicate ReaderStep(call: ReaderCall, final: bool, m: ReaderMark, taken: seq<byte>, told: Option<Error>,
      m': ReaderMark)
    requires MarkOk(m)
  {
    && (m'.crBack ==> m.crBack || call.ReadLine?)
    && TakesLike(call, final, m.pending, taken, m'.pending)
    && GoesOn(call, final, m, taken, m')
    && Tells(call, m, taken, told, m')
    && match call
       case UnreadByte =>
         if m.canUnread then
           m'.delivered == m.delivered[..|m.delivered| - 1] && m'.pending == [m.lastByte as byte] + m.pending
         else
           m'.delivered == m.delivered && m'.pending == m.pending
       case UnreadRune =>
         && m'.delivered == m.delivered[..|m.delivered| - m.lastRune]
         && m'.pending == m.delivered[|m.delivered| - m.lastRune..] + m.pending
       case _ =>
         m'.delivered == m.delivered + taken && m.pending == taken + m'.pending
  }

  /** Would this call put back a byte other than the one delivered last? */
  ghost predicate Corrupts(call: ReaderCall, m: ReaderMark)
    requires MarkOk(m)
  {
    call.UnreadByte? && m.canUnread && m.delivered[|m.delivered| - 1] as int != m.lastByte
  }

  ghost predicate Whole(m: ReaderMark, content: seq<byte>) {
    m.delivered + m.pending == content
  }

  ghost predicate WholeIsReceived(m: ReaderMark, content: seq<byte>) {
    Whole(m, content) <==> m.delivered + m.buffered == m.supplied
  }

  ghost predicate AllReceived(marks: seq<ReaderMark>, content: seq<byte>) {
    forall m <- marks :: WholeIsReceived(m, content)
  }

  lemma MarkIsReceived(rd: Reader)
    requires rd.Valid()
    ensures WholeIsReceived(MarkReader(rd), rd.rd.content)
  {
    rd.IntactIsReceived();
  }

  lemma StepKeepsWhole(call: ReaderCall, final: bool, m: ReaderMark, taken: seq<byte>, told: Option<Error>,
      m': ReaderMark, content: seq<byte>)
    requires MarkOk(m) && ReaderStep(call, final, m, taken, told, m') && Whole(m, content)
    ensures Whole(m', content) <==> !Corrupts(call, m)
  {
    if call.UnreadByte? && m.canUnread {
      SplitLast(m.delivered, m.lastByte as byte, m.pending);
    } else if !call.UnreadByte? && !call.UnreadRune? {
      Associative(m.delivered, taken, m'.pending);
    }
  }

  /** A run of calls, each doing what it should. */
  ghost predicate ReaderSteps(calls: seq<ReaderCall>, final: bool, marks: seq<ReaderMark>, taken: seq<seq<byte>>,
      told: seq<Option<Error>>) {
    && |taken| == |told| == |calls| == |marks| - 1
    && (forall m <- marks :: MarkOk(m))
    && (forall i | 0 <= i < |calls| :: ReaderStep(calls[i], final, marks[i], taken[i], told[i], marks[i + 1]))
  }

  /** The first call that corrupts the stream, or the end of the run. */
  ghost function FirstCorrupt(calls: seq<ReaderCall>, marks: seq<ReaderMark>, i: nat): (k: nat)
    requires i <= |calls| == |marks| - 1 && forall m <- marks :: MarkOk(m)
    ensures i <= k <= |calls| && (forall j | i <= j < k :: !Corrupts(calls[j], marks[j]))
    ensures k < |calls| ==> Corrupts(calls[k], marks[k])
    decreases |calls| - i
  {
    if i == |calls| || Corrupts(calls[i], marks[i]) then i else FirstCorrupt(calls, marks, i + 1)
  }

  lemma {:induction false} WholeUntil(calls: seq<ReaderCall>, final: bool, marks: seq<ReaderMark>,
      taken: seq<seq<byte>>, told: seq<Option<Error>>, content: seq<byte>, n: nat)
    requires ReaderSteps(calls, final, marks, taken, told) && Whole(marks[0], content) && !marks[0].crBack
    requires n <= FirstCorrupt(calls, marks, 0)
    ensures Whole(marks[n], content)
    ensures marks[n].crBack ==> exists i :: 0 <= i < n && calls[i].ReadLine?
  {
    if n > 0 {
      WholeUntil(calls, final, marks, taken, told, content, n - 1);
      StepKeepsWhole(calls[n - 1], final, marks[n - 1], taken[n - 1], told[n - 1], marks[n], content);
    }
  }

  /** In a run, the stream is whole up to the first call that corrupts it and not behind that
      call; only an `UnreadByte` somewhere behind a `ReadLine` can be that call. */
  lemma RunKeepsWhole(calls: seq<ReaderCall>, final: bool, marks: seq<ReaderMark>, taken: seq<seq<byte>>,
      told: seq<Option<Error>>, content: seq<byte>)
    requires ReaderSteps(calls, final, marks, taken, told) && Whole(marks[0], content) && !marks[0].crBack
    ensures var k := FirstCorrupt(calls, marks, 0);
      && (forall i | 0 <= i <= k :: Whole(marks[i], content))
      && (k < |calls| ==> calls[k].UnreadByte? && !Whole(marks[k + 1], content))
      && (k < |calls| ==> exists i :: 0 <= i < k && calls[i].ReadLine?)
  {
    var k := FirstCorrupt(calls, marks, 0);
    forall i | 0 <= i <= k
      ensures Whole(marks[i], content)
    {
      WholeUntil(calls, final, marks, taken, told, content, i);
    }
    if k < |calls| {
      WholeUntil(calls, final, marks, taken, told, content, k);
      StepKeepsWhole(calls[k], final, marks[k], taken[k], told[k], marks[k + 1], content);
    }
  }

  /** What was delivered, followed by the buffer, is at every point of a run exactly what the
      source has supplied, as long as the stream is whole. */
  method RunReader(rd: Reader, calls: seq<ReaderCall>) returns (ghost taken: seq<seq<byte>>,
      told: seq<Option<Error>>, ghost marks: seq<ReaderMark>)
    requires rd.Valid() && rd.Intact() && !rd.crBack
    modifies rd, rd.buf, rd.rd
    ensures rd.Valid() && ReaderSteps(calls, rd.FinalErrors(), marks, taken, told)
    ensures marks[0] == old(MarkReader(rd)) && marks[|calls|] == MarkReader(rd)
    ensures AllReceived(marks, rd.rd.content)
    ensures var k := FirstCorrupt(calls, marks, 0);
      && (forall i | 0 <= i <= k :: Whole(marks[i], rd.rd.content))
      && (k < |calls| ==> calls[k].UnreadByte? && !Whole(marks[k + 1], rd.rd.content))
      && (k < |calls| ==> exists i :: 0 <= i < k && calls[i].ReadLine?)
  {
    MarkIsReceived(rd);
    taken, told, marks := DoReaderCalls(rd, calls);
    RunKeepsWhole(calls, rd.FinalErrors(), marks, taken, told, rd.rd.content);
  }

  method DoReaderCalls(rd: Reader, calls: seq<ReaderCall>) returns (ghost taken: seq<seq<byte>>,
      told: seq<Option<Error>>, ghost marks: seq<ReaderMark>)
    requires rd.Valid()
    modifies rd, rd.buf, rd.rd
    ensures rd.Valid() && ReaderSteps(calls, rd.FinalErrors(), marks, taken, told)
    ensures marks[0] == old(MarkReader(rd)) && marks[|calls|] == MarkReader(rd)
    ensures AllReceived(marks, rd.rd.content)
  {
    MarkIsReceived(rd);
    taken, told, marks := [], [], [MarkReader(rd)];
    for i := 0 to |calls|
      invariant SoFar(rd, calls[..i], marks, taken, told) && marks[0] == old(MarkReader(rd))
    {
      assert calls[..i + 1] == calls[..i] + [calls[i]];
      taken, told, marks := DoNextCall(rd, calls[..i], calls[i], taken, told, marks);
    }
    assert calls[..|calls|] == calls;
  }

  /** The run up to now, and the marks of it. */
  ghost predicate SoFar(rd: Reader, calls: seq<ReaderCall>, marks: seq<ReaderMark>, taken: seq<seq<byte>>,
      told: seq<Option<Error>>)
    reads rd, rd.buf, rd.rd
  {
    && rd.Valid() && ReaderSteps(calls, rd.FinalErrors(), marks, taken, told)
    && marks[|calls|] == MarkReader(rd) && AllReceived(marks, rd.rd.content)
  }

  method DoNextCall(rd: Reader, ghost done: seq<ReaderCall>, call: ReaderCall, ghost taken: seq<seq<byte>>,
      told: seq<Option<Error>>, ghost marks: seq<ReaderMark>) returns (ghost taken': seq<seq<byte>>,
      told': seq<Option<Error>>, ghost marks': seq<ReaderMark>)
    requires SoFar(rd, done, marks, taken, told)
    modifies rd, rd.buf, rd.rd
    ensures SoFar(rd, done + [call], marks', taken', told') && marks <= marks'
  {
    ghost var piece;
    var e;
    piece, e := DoReaderCall(rd, call);
    MarkIsReceived(rd);
    AddStep(done, rd.FinalErrors(), marks, taken, told, call, piece, e, MarkReader(rd), rd.rd.content);
    taken', told', marks' := taken + [piece], told + [e], marks + [MarkReader(rd)];
  }

  lemma AddStep(calls: seq<ReaderCall>, final: bool, marks: seq<ReaderMark>, taken: seq<seq<byte>>,
      told: seq<Option<Error>>, call: ReaderCall, piece: seq<byte>, e: Option<Error>, m: ReaderMark,
      content: seq<byte>)
    requires ReaderSteps(calls, final, marks, taken, told) && MarkOk(m)
    requires AllReceived(marks, content) && WholeIsReceived(m, content)
    requires ReaderStep(call, final, marks[|calls|], piece, e, m)
    ensures ReaderSteps(calls + [call], final, marks + [m], taken + [piece], told + [e])
    ensures AllReceived(marks + [m], content)
  {
  }

  method DoReaderCall(rd: Reader, call: ReaderCall) returns (ghost taken: seq<byte>, told: Option<Error>)
    requires rd.Valid()
    modifies rd, rd.buf, rd.rd
    ensures rd.Valid()
    ensures ReaderStep(call, rd.FinalErrors(), old(MarkReader(rd)), taken, told, MarkReader(rd))
  {
    match call
    case UnreadByte =>
      told := DoUnreadByte(rd);
      taken := [];
    case UnreadRune =>
      told := DoUnreadRune(rd);
      taken := [];
    case _ =>
      taken, told := DoRead(rd, call);
  }

  method DoUnreadByte(rd: Reader) returns (told: Option<Error>)
    requires rd.Valid()
    modifies rd, rd.buf, rd.rd
    ensures rd.Valid()
    ensures ReaderStep(UnreadByte, rd.FinalErrors(), old(MarkReader(rd)), [], told, MarkReader(rd))
  {
    told := rd.UnreadByte();
  }

  method DoUnreadRune(rd: Reader) returns (told: Option<Error>)
    requires rd.Valid()
    modifies rd, rd.buf, rd.rd
    ensures rd.Valid()
    ensures ReaderStep(UnreadRune, rd.FinalErrors(), old(MarkReader(rd)), [], told, MarkReader(rd))
  {
    ghost var back := LastRune(rd);
    ghost var delivered, pending := rd.delivered, rd.Pending();
    told := rd.UnreadRune();
    assert rd.delivered == delivered[..|delivered| - back];
    assert delivered == delivered[..|delivered| - back] + delivered[|delivered| - back..];
    assert rd.delivered + rd.Pending() == delivered + pending;
    Associative(rd.delivered, delivered[|delivered| - back..], pending);
    Rest(rd.delivered, delivered[|delivered| - back..] + pending, rd.Pending());
  }

  lemma Rest(a: seq<byte>, b: seq<byte>, c: seq<byte>)
    requires a + b == a + c
    ensures b == c
  {
    assert b == (a + b)[|a|..] && c == (a + c)[|a|..];
  }

  /** A call that puts nothing back moves some bytes from pending to delivered. */
  method DoRead(rd: Reader, call: ReaderCall) returns (ghost taken: seq<byte>, told: Option<Error>)
    requires rd.Valid() && !call.UnreadByte? && !call.UnreadRune?
    modifies rd, rd.buf, rd.rd
    ensures rd.Valid()
    ensures rd.delivered == old(rd.delivered) + taken && old(rd.Pending()) == taken + rd.Pending()
    ensures TakesLike(call, rd.FinalErrors(), old(rd.Pending()), taken, rd.Pending())
    ensures GoesOn(call, rd.FinalErrors(), old(MarkReader(rd)), taken, MarkReader(rd))
    ensures Tells(call, old(MarkReader(rd)), taken, told, MarkReader(rd))
    ensures rd.crBack ==> old(rd.crBack) || call.ReadLine?
  {
    taken, told := [], None;
    if call.ReadSlice? || call.ReadLine? || call.ReadBytes? || call.ReadString? {
      taken, told := DoReadUntil(rd, call);
      return;
    }
    if call.Read? || call.ReadByte? {
      taken, told := DoReadBytes(rd, call);
      return;
    }
    if call.Discard? {
      taken, told := DoDiscard(rd, call.n);
      return;
    }
    if call.ReadRune? {
      taken, told := DoReadRune(rd);
      return;
    }
    match call
    case Peek(n) =>
      var bytes;
      bytes, told := rd.Peek(n);
    case ResetReadErr =>
      told := rd.ResetErr();
  }

  method DoDiscard(rd: Reader, n: int) returns (ghost taken: seq<byte>, told: Option<Error>)
    requires rd.Valid()
    modifies rd, rd.buf, rd.rd
    ensures rd.Valid()
    ensures rd.delivered == old(rd.delivered) + taken && old(rd.Pending()) == taken + rd.Pending()
    ensures TakesLike(Discard(n), rd.FinalErrors(), old(rd.Pending()), taken, rd.Pending())
    ensures GoesOn(Discard(n), rd.FinalErrors(), old(MarkReader(rd)), taken, MarkReader(rd))
    ensures Tells(Discard(n), old(MarkReader(rd)), taken, told, MarkReader(rd))
    ensures rd.crBack ==> old(rd.crBack)
  {
    var k;
    k, told := rd.Discard(n);
    taken := old(rd.Pending())[..k];
  }

  method DoReadRune(rd: Reader) returns (ghost taken: seq<byte>, told: Option<Error>)
    requires rd.Valid()
    modifies rd, rd.buf, rd.rd
    ensures rd.Valid()
    ensures rd.delivered == old(rd.delivered) + taken && old(rd.Pending()) == taken + rd.Pending()
    ensures TakesLike(ReadRune, rd.FinalErrors(), old(rd.Pending()), taken, rd.Pending())
    ensures GoesOn(ReadRune, rd.FinalErrors(), old(MarkReader(rd)), taken, MarkReader(rd))
    ensures Tells(ReadRune, old(MarkReader(rd)), taken, told, MarkReader(rd))
    ensures rd.crBack ==> old(rd.crBack)
  {
    var c, size;
    c, size, told := rd.ReadRune();
    ghost var before := old(rd.Pending());
    taken := before[..size];
    assert before == taken + rd.Pending() && |taken| == size;
    assert rd.FinalErrors() && told.None? ==> before != [] && size == Decode(before).1;
  }

  method DoReadBytes(rd: Reader, call: ReaderCall) returns (ghost taken: seq<byte>, told: Option<Error>)
    requires rd.Valid() && (call.Read? || call.ReadByte?)
    modifies rd, rd.buf, rd.rd
    ensures rd.Valid()
    ensures rd.delivered == old(rd.delivered) + taken && old(rd.Pending()) == taken + rd.Pending()
    ensures TakesLike(call, rd.FinalErrors(), old(rd.Pending()), taken, rd.Pending())
    ensures GoesOn(call, rd.FinalErrors(), old(MarkReader(rd)), taken, MarkReader(rd))
    ensures Tells(call, old(MarkReader(rd)), taken, told, MarkReader(rd))
    ensures rd.crBack ==> old(rd.crBack)
  {
    match call
    case Read(length) =>
      var p := new byte[length];
      var k;
      k, told := rd.Read(p, 0);
      taken := p[0..0 + k];
    case ReadByte =>
      var c;
      c, told := rd.ReadByte();
      taken := if told.None? then [c] else [];
  }

  method DoReadUntil(rd: Reader, call: ReaderCall) returns (ghost taken: seq<byte>, told: Option<Error>)
    requires rd.Valid() && (call.ReadSlice? || call.ReadLine? || call.ReadBytes? || call.ReadString?)
    modifies rd, rd.buf, rd.rd
    ensures rd.Valid()
    ensures rd.delivered == old(rd.delivered) + taken && old(rd.Pending()) == taken + rd.Pending()
    ensures TakesLike(call, rd.FinalErrors(), old(rd.Pending()), taken, rd.Pending())
    ensures GoesOn(call, rd.FinalErrors(), old(MarkReader(rd)), taken, MarkReader(rd))
    ensures Tells(call, old(MarkReader(rd)), taken, told, MarkReader(rd))
    ensures rd.crBack ==> old(rd.crBack) || call.ReadLine?
  {
    match call
    case ReadSlice(delim) =>
      var line;
      line, told := rd.ReadSlice(delim);
      taken := line;
    case ReadLine =>
      ghost var slice;
      var line, isPrefix;
      line, isPrefix, told, slice := rd.ReadLine();
      taken := slice;
    case ReadBytes(delim) =>
      var bytes;
      bytes, told := rd.ReadBytes(delim);
      taken := bytes;
    case ReadString(delim) =>
      var text;
      text, told := rd.ReadString(delim);
      taken := text;
  }

  /** The lines of the stream, whatever the buffer size and however the source splits it. */
  method ReadAllLines(rd: Reader) returns (lines: seq<seq<byte>>)
    requires rd.Valid() && rd.FinalErrors()
    modifies rd, rd.buf, rd.rd
    ensures rd.Valid() && rd.Pending() == []
    ensures lines == AllLines(old(rd.Pending()))
  {
    ghost var whole := rd.Pending();
    lines := [];
    var e := None;
    while e.None?
      invariant rd.Valid()
      invariant AllLines(whole) == lines + AllLines(rd.Pending())
      invariant e.Some? ==> rd.Pending() == []
      decreases e.None?, |rd.Pending()|
    {
      ghost var before := rd.Pending();
      var line;
      ghost var taken;
      line, e, taken := rd.ReadWholeLine();
      if before == [] {
        assert taken == [];
      } else {
        Associative(lines, [line], AllLines(rd.Pending()));
      }
      if e.None? || line != [] {
        lines := lines + [line];
      }
    }
  }

  /** When a caller may unread a byte behind `ReadLine`: after a whole line always, after the
      front of one exactly if it fills the buffer or ends in a carriage return itself. */
  method UnreadAfterReadLine(rd: Reader) returns (line: seq<byte>, isPrefix: bool, e: Option<Error>,
      unread: Option<Error>)
    requires rd.Valid() && rd.Intact()
    modifies rd, rd.buf, rd.rd
    ensures rd.Valid()
    ensures e.None? ==> unread.None?
    ensures isPrefix ==> e.None? && line != []
    ensures rd.Intact() <==> !isPrefix || |line| == rd.buf.Length || line[|line| - 1] == CR
  {
    line, isPrefix, e := ReadLineIntact(rd);
    unread := rd.UnreadByte();
  }

  /** `ReadLine` itself never harms the stream; what it leaves to unread is the last byte of the
      full buffer when it stops there, and otherwise the byte delivered last. */
  method ReadLineIntact(rd: Reader) returns (line: seq<byte>, isPrefix: bool, e: Option<Error>)
    requires rd.Valid() && rd.Intact()
    modifies rd, rd.buf, rd.rd
    ensures rd.Valid() && rd.Intact()
    ensures !isPrefix ==> rd.lastByte < 0 || rd.delivered[|rd.delivered| - 1] as int == rd.lastByte
    ensures e.None? ==> rd.CanUnreadByte()
    ensures isPrefix ==>
      e.None? && line != [] && rd.delivered != [] && rd.delivered[|rd.delivered| - 1] == line[|line| - 1]
    ensures isPrefix ==> rd.lastByte == if |line| == rd.buf.Length then line[|line| - 1] as int else CR as int
  {
    ghost var slice;
    line, isPrefix, e, slice := rd.ReadLine();
    Associative(old(rd.delivered), slice, rd.Pending());
    if isPrefix {
      assert slice == line;
    }
  }

  /** `ReadLine` promises that `UnreadByte` after it unreads the last byte read. Fifteen
      letters and a carriage return fill the smallest buffer: the return goes back, the
      unread byte is the return again, and the last letter of the line is gone. */
  method UnreadAfterStraddle() returns (again: seq<byte>)
    ensures again == [CR, CR] && STRADDLING[14..16] == [97, CR]
  {
    var source := new Source(STRADDLING, true, 0);
    var rd := new Reader(source, MIN_READ_BUFFER_SIZE);
    ReadLineStraddling(rd);
    var _ := rd.UnreadByte();
    assert rd.Pending() == [CR, CR, 97];
    again := ReadTwo(rd);
  }

  method ReadTwo(rd: Reader) returns (bytes: seq<byte>)
    requires rd.Valid() && rd.FinalErrors() && |rd.Pending()| >= 2
    modifies rd, rd.buf, rd.rd
    ensures bytes == old(rd.Pending())[..2]
  {
    ghost var pending := rd.Pending();
    var c1, e1 := rd.ReadByte();
    assert pending == [c1] + rd.Pending();
    var c2, e2 := rd.ReadByte();
    assert pending == [c1] + ([c2] + rd.Pending());
    bytes := [c1, c2];
  }

  const STRADDLING: seq<byte> := [97, 97, 97, 97, 97, 97, 97, 97, 97, 97, 97, 97, 97, 97, 97, CR, 97]

  method ReadLineStraddling(rd: Reader)
    requires rd.Valid() && rd.FinalErrors() && rd.buf.Length == MIN_READ_BUFFER_SIZE
    requires rd.Pending() == STRADDLING
    modifies rd, rd.buf, rd.rd
    ensures rd.Valid() && rd.Pending() == [CR, 97]
    ensures rd.lastByte == CR as int && rd.CanUnreadByte()
  {
    var line, isPrefix, _, slice := rd.ReadLine();
    assert STRADDLING == slice + rd.Pending();
    assert LF !in STRADDLING;
    assert isPrefix;
    ghost var full := line + rd.Buffered();
    assert full + rd.rd.rest == STRADDLING;
    assert full == STRADDLING[..16] && full[15] == CR;
    assert |line| == 15;
    assert rd.Pending() == STRADDLING[15..];
  }

  /** Accepts every rune, or says why not. */
  method WriteRunes(w: Writer, runes: seq<int>) returns (e: Option<Error>)
    requires w.Valid()
    modifies w`n, w`err, w.buf, w.wr
    ensures w.Valid() && e == w.err
    ensures e.None? ==> w.Image() == old(w.Image()) + EncodeAll(runes)
    ensures w.wr.steady && old(w.err).None? ==> e.None?
  {
    e := w.err;
    for i := 0 to |runes|
      invariant w.Valid() && e == w.err
      invariant e.None? ==> w.Image() == old(w.Image()) + EncodeAll(runes[..i])
      invariant w.wr.steady && old(w.err).None? ==> e.None?
    {
      var size;
      size, e := w.WriteRune(runes[i]);
      assert runes[..i + 1] == runes[..i] + [runes[i]];
      EncodeAllAppend(runes[..i], runes[i]);
      Associative(old(w.Image()), EncodeAll(runes[..i]), Encode(runes[i]));
    }
    assert runes[..|runes|] == runes;
  }

  /** Every rune of the stream with its size. */
  method ReadRunes(rd: Reader) returns (runes: seq<(int, nat)>)
    requires rd.Valid() && rd.FinalErrors()
    modifies rd, rd.buf, rd.rd
    ensures rd.Valid() && rd.Pending() == []
    ensures runes == DecodeAll(old(rd.Pending()))
  {
    ghost var whole := rd.Pending();
    runes := [];
    var e := None;
    while e.None?
      invariant rd.Valid()
      invariant DecodeAll(whole) == runes + DecodeAll(rd.Pending())
      invariant e.Some? ==> rd.Pending() == []
      decreases e.None?, |rd.Pending()|
    {
      var c, size;
      c, size, e := rd.ReadRune();
      if e.None? {
        Associative(runes, [(c, size)], DecodeAll(rd.Pending()));
        runes := runes + [(c, size)];
      }
    }
  }

  /** Runes written through a buffer of any size, however the sink takes the bytes, then
      read through a buffer of any size, however they arrive, come back with their sizes. */
  method RuneRoundTrip(w: Writer, runes: seq<int>, readSize: int, patience: nat) returns (back: seq<(int, nat)>,
      e: Option<Error>)
    requires w.Valid() && w.Image() == []
    requires patience < MAX_CONSECUTIVE_EMPTY_READS
    modifies w`n, w`err, w.buf, w.wr
    ensures w.wr.steady && old(w.err).None? ==> e.None?
    ensures e.None? ==> back == seq(|runes|, i requires 0 <= i < |runes| => Written(runes[i]))
  {
    back := [];
    e := WriteRunes(w, runes);
    if e.None? {
      e := w.Flush();
    }
    if e.None? {
      assert w.Image() == w.wr.sunk == EncodeAll(runes);
      var source := new Source(w.wr.sunk, true, patience);
      var rd := new Reader(source, readSize);
      back := ReadRunes(rd);
      DecodeAllInverse(runes);
    }
  }
}
