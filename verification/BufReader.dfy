/** The buffered reader. What it has handed out, what it holds in `buf[r..w]` and what
    its source has yet to supply always make up the same stream. */
module BufReader {
  import opened Options
  import opened Sequences
  import opened Streams
  import opened Utf8
  import opened Lines

  const MIN_READ_BUFFER_SIZE: nat := 16

  /** Errors that a reader only passes on. */
  predicate Foreign(e: Option<Error>) {
    e.Some? && (FromOutside(e.value) || e.value == NoProgress)
  }

  class Reader {
    const buf: array<byte>
    const rd: Source
    var r: nat
    var w: nat
    var err: Option<Error>
    var lastByte: int
    var lastRuneSize: int
    /** Every byte handed out and not taken back. */
    ghost var delivered: seq<byte>
    /** The last call was a `ReadLine` that put a carriage return back. */
    ghost var crBack: bool

    /** Nothing but the end of its content can make this source fail. */
    ghost predicate FinalErrors() {
      rd.steady && rd.patience < MAX_CONSECUTIVE_EMPTY_READS
    }

    ghost predicate Valid()
      reads this, buf, rd
    {
      && MIN_READ_BUFFER_SIZE <= buf.Length
      && r <= w <= buf.Length
      && rd.Valid()
      && (err.Some? ==> Foreign(err))
      && (err.Some? && FinalErrors() ==> rd.rest == [])
      && LastsValid()
    }

    /** `lastByte` and `lastRuneSize`, when set, describe the tail of what was delivered. */
    ghost predicate LastsValid()
      requires r <= w <= buf.Length
      reads this, buf
    {
      && -1 <= lastByte < 256
      && (crBack && lastByte >= 0 ==> r < w)
      && (lastByte >= 0 ==> delivered != [] && (!crBack ==> delivered[|delivered| - 1] as int == lastByte))
      && (lastRuneSize == -1 || 1 <= lastRuneSize <= UTF_MAX)
      && (1 <= lastRuneSize ==> lastRuneSize <= |delivered|)
      && (1 <= lastRuneSize <= r ==> forall i :: r - lastRuneSize <= i < r ==> buf[i] == delivered[|delivered| - r + i])
    }

    function Buffered(): seq<byte>
      requires r <= w <= buf.Length
      reads this, buf
    {
      buf[r..w]
    }

    /** Everything still to be read: the buffer first, then the source. */
    ghost function Pending(): seq<byte>
      requires r <= w <= buf.Length
      reads this, buf, rd
    {
      Buffered() + rd.rest
    }

    /** No byte is lost, doubled or changed, seen over the stream as a whole. */
    ghost predicate Intact()
      requires r <= w <= buf.Length
      reads this, buf, rd
    {
      delivered + Pending() == rd.content
    }

    /** Then what was delivered, followed by the buffer, is what the source has supplied. */
    lemma IntactIsReceived()
      requires Valid()
      ensures Intact() <==> delivered + Buffered() == rd.supplied
    {
      Associative(delivered, Buffered(), rd.rest);
      Cancel(delivered + Buffered(), rd.supplied, rd.rest);
    }

    /** This is the error that the source's answers since `seen` have settled. */
    ghost predicate Told(e: Option<Error>, was: Option<Error>, seen: seq<Answer>)
      reads this`err, rd`answers
    {
      seen <= rd.answers && e == Settle(was, rd.answers[|seen|..])
    }

    /** So is the pending error; without one the last answer, if there is one, brought something. */
    ghost predicate Going(was: Option<Error>, seen: seq<Answer>)
      reads this`err, rd`answers
    {
      Told(err, was, seen) && (err.None? ==> rd.answers == seen || rd.answers[|rd.answers| - 1].Brought?)
    }

    /** Of errors that are not this package's own, a call hands out what the answers settle, or
        it is pending still. */
    ghost predicate Reports(e: Option<Error>, was: Option<Error>, seen: seq<Answer>)
      reads this`err, rd`answers
    {
      if Foreign(e) then err.None? && Told(e, was, seen) else Going(was, seen)
    }

    /** So does a single read, also one that brings nothing. */
    ghost predicate Passes(e: Option<Error>, was: Option<Error>, seen: seq<Answer>)
      reads this`err, rd`answers
    {
      if e.Some? then Foreign(e) && err.None? && Told(e, was, seen) else Told(err, was, seen)
    }

    /** Answers to the fills behind `mid` add to those before. */
    lemma TellsOn(e: Option<Error>, was: Option<Error>, seen: seq<Answer>, pending: Option<Error>, mid: seq<Answer>)
      requires seen <= mid && pending == Settle(was, mid[|seen|..]) && Told(e, pending, mid)
      requires mid == seen || mid[|mid| - 1].Brought?
      ensures Told(e, was, seen)
    {
      SettlesOn(was, seen, mid, rd.answers);
    }

    constructor (rd: Source, size: int)
      requires rd.Valid()
      ensures Valid() && fresh(buf) && this.rd == rd
      ensures buf.Length == if size < MIN_READ_BUFFER_SIZE then MIN_READ_BUFFER_SIZE else size
      ensures delivered == [] && Pending() == rd.rest && err.None?
      ensures lastByte == -1 && lastRuneSize == -1
    {
      var length: nat := if size < MIN_READ_BUFFER_SIZE then MIN_READ_BUFFER_SIZE else size;
      buf := new byte[length];
      this.rd := rd;
      r, w := 0, 0;
      err := None;
      lastByte, lastRuneSize := -1, -1;
      delivered := [];
      crBack := false;
    }

    /** Slides the buffered bytes to the front. */
    method Slide()
      requires Valid()
      modifies this`r, this`w, buf
      ensures Valid() && r == 0
      ensures Buffered() == old(Buffered())
    {
      if r > 0 {
        forall i | 0 <= i < w - r {
          buf[i] := buf[r + i];
        }
        w := w - r;
        r := 0;
      }
      assert buf[..w] == old(Buffered());
    }

    /** One read behind the buffered bytes. */
    method ReadBehind() returns (n: nat, e: Option<Error>)
      requires Valid() && w < buf.Length && r == 0
      modifies this`w, this`err, buf, rd
      ensures Valid() && n == w - old(w)
      ensures old(Buffered()) <= Buffered() && Pending() == old(Pending())
      ensures err == if e.Some? then e else old(err)
      ensures n == 0 && e.None? ==> rd.gap < old(rd.gap)
      ensures rd.answers == old(rd.answers) + [if e.Some? then Broke(e.value) else if n > 0 then Brought else Nothing]
    {
      n, e := rd.Read(buf, w);
      assert buf[..w + n] == buf[..w] + buf[w..w + n];
      assert buf[..w] == old(buf[..w]);
      w := w + n;
      assert Pending() == old(Buffered()) + (old(rd.rest)[..n] + rd.rest);
      if e.Some? {
        err := e;
      }
    }

    /** Slides, then reads until something comes, giving up after a hundred empty reads. */
    method Fill()
      requires Valid() && w - r < buf.Length
      modifies this`r, this`w, this`err, buf, rd
      ensures Valid() && r == 0
      ensures old(Buffered()) <= Buffered() && Pending() == old(Pending())
      ensures err.None? ==> |Buffered()| > |old(Buffered())|
      ensures old(err).Some? ==> err.Some?
      ensures Going(old(err), old(rd.answers))
    {
      Slide();
      FillBehind();
    }

    /** One more fill in a call that has found no error yet. */
    method FillOn(ghost was: Option<Error>, ghost seen: seq<Answer>)
      requires Valid() && w - r < buf.Length && err.None? && Going(was, seen)
      modifies this`r, this`w, this`err, buf, rd
      ensures Valid() && r == 0
      ensures old(Buffered()) <= Buffered() && Pending() == old(Pending())
      ensures err.None? ==> |Buffered()| > |old(Buffered())|
      ensures Going(was, seen)
    {
      ghost var mid := rd.answers;
      Fill();
      TellsOn(err, was, seen, None, mid);
    }

    method FillBehind()
      requires Valid() && r == 0 && w < buf.Length
      modifies this`w, this`err, buf, rd
      ensures Valid()
      ensures old(Buffered()) <= Buffered() && Pending() == old(Pending())
      ensures err.None? ==> |Buffered()| > |old(Buffered())|
      ensures old(err).Some? ==> err.Some?
      ensures Going(old(err), old(rd.answers))
    {
      assert rd.answers[|rd.answers|..] == [];
      for i := 0 to MAX_CONSECUTIVE_EMPTY_READS
        invariant Valid() && w < buf.Length && err == old(err)
        invariant Buffered() == old(Buffered()) && Pending() == old(Pending())
        invariant rd.gap + i <= rd.patience && rd.Idled(old(rd.answers), i)
      {
        var done := TryFill(old(err), old(rd.answers), i);
        if done {
          return;
        }
      }
      err := Some(NoProgress);
    }

    /** One of these reads: it ends them, or leaves nothing but one more answer. */
    method TryFill(ghost was: Option<Error>, ghost seen: seq<Answer>, ghost i: nat) returns (done: bool)
      requires Valid() && r == 0 && w < buf.Length && err == was && rd.Idled(seen, i)
      modifies this`w, this`err, buf, rd
      ensures Valid() && old(Buffered()) <= Buffered() && Pending() == old(Pending())
      ensures if done then Going(was, seen) else rd.Idled(seen, i + 1)
      ensures done ==> (was.Some? ==> err.Some?) && (err.None? ==> |Buffered()| > |old(Buffered())|)
      ensures !done ==> err == was && Buffered() == old(Buffered()) && w == old(w) && rd.gap < old(rd.gap)
    {
      var n, e := ReadBehind();
      AnswerAdds(was, seen, old(rd.answers), rd.answers[|rd.answers| - 1]);
      done := n > 0 || e.Some?;
    }

    method ResetErr() returns (e: Option<Error>)
      requires Valid()
      modifies this`err
      ensures Valid() && e == old(err) && err.None?
    {
      e := err;
      err := None;
    }

    /** Advances over the next `k` buffered bytes, which the caller hands out. */
    method Take(k: nat)
      requires Valid() && k <= w - r
      modifies this`r, this`delivered, this`lastByte, this`lastRuneSize, this`crBack
      ensures Valid() && r == old(r) + k
      ensures delivered == old(delivered) + old(Buffered())[..k]
      ensures old(Pending()) == old(Buffered())[..k] + Pending()
      ensures lastByte == (if k == 0 then old(lastByte) else delivered[|delivered| - 1] as int)
      ensures lastRuneSize == (if k == 0 then old(lastRuneSize) else -1)
      ensures crBack == (k == 0 && old(crBack))
    {
      if k > 0 {
        TakeSome(k);
      } else {
        assert Buffered()[..0] == [];
      }
    }

    method TakeSome(k: nat)
      requires Valid() && 0 < k <= w - r
      modifies this`r, this`delivered, this`lastByte, this`lastRuneSize, this`crBack
      ensures Valid() && r == old(r) + k && !crBack && lastRuneSize == -1
      ensures delivered == old(delivered) + old(Buffered())[..k]
      ensures old(Pending()) == old(Buffered())[..k] + Pending()
      ensures lastByte == delivered[|delivered| - 1] as int
      ensures buf[r - k..r] == delivered[|delivered| - k..]
    {
      ghost var front := buf[r..r + k];
      SliceOfSlice(buf, r, k, w);
      FrontTaken(Buffered(), rd.rest, delivered, k);
      delivered := delivered + front;
      r := r + k;
      lastByte, lastRuneSize := buf[r - 1] as int, -1;
      crBack := false;
    }

    /** The next bytes, left in place. Afterwards nothing can be unread. */
    method Peek(n: int) returns (bytes: seq<byte>, e: Option<Error>)
      requires Valid()
      modifies this`r, this`w, this`err, this`lastByte, this`lastRuneSize, buf, rd
      ensures Valid() && Pending() == old(Pending())
      ensures n < 0 ==> lastByte == old(lastByte) && lastRuneSize == old(lastRuneSize) && r <= old(r)
      ensures n < 0 ==> bytes == [] && e == Some(NegativeCount)
      ensures n >= 0 ==> lastByte == -1 && lastRuneSize == -1 && bytes <= Buffered()
      ensures 0 <= n ==> (e.None? <==> |bytes| == n && n <= buf.Length)
      ensures n > buf.Length ==> e == Some(BufferFull) && bytes == Buffered()
      ensures 0 <= n <= buf.Length && e.Some? && FinalErrors() ==> bytes == Pending()
      ensures Reports(e, old(err), old(rd.answers))
      ensures n <= |old(Buffered())| ==> rd.answers == old(rd.answers)
    {
      if n < 0 {
        return [], Some(NegativeCount);
      }
      lastByte, lastRuneSize := -1, -1;
      FillTo(n);
      if n > buf.Length {
        return Buffered(), Some(BufferFull);
      }
      if w - r < n {
        bytes := buf[r..w];
        e := ResetErr();
        if e.None? {
          e := Some(BufferFull);
        }
        return;
      }
      bytes, e := buf[r..r + n], None;
      SliceOfSlice(buf, r, n, w);
    }

    /** Fills until `n` bytes are there, the buffer is full, or an error comes. */
    method FillTo(n: nat)
      requires Valid()
      modifies this`r, this`w, this`err, buf, rd
      ensures Valid() && Pending() == old(Pending())
      ensures n <= w - r || w - r == buf.Length || err.Some?
      ensures Going(old(err), old(rd.answers))
      ensures n <= |old(Buffered())| ==> rd.answers == old(rd.answers)
    {
      while w - r < n && w - r < buf.Length && err.None?
        invariant Valid() && Pending() == old(Pending()) && Going(old(err), old(rd.answers))
        invariant n <= |old(Buffered())| ==> n <= w - r && rd.answers == old(rd.answers)
        decreases if err.None? then 1 else 0, buf.Length - (w - r)
      {
        FillOn(old(err), old(rd.answers));
      }
    }

    /** Skips the next `n` bytes, or as many as come before an error. */
    method Discard(n: int) returns (discarded: nat, e: Option<Error>)
      requires Valid()
      modifies this`r, this`w, this`err, this`lastByte, this`lastRuneSize, this`delivered, buf, rd
      ensures Valid()
      ensures n < 0 ==> discarded == 0 && e == Some(NegativeCount) && delivered == old(delivered)
      ensures 0 <= n ==> discarded <= n && (e.None? <==> discarded == n)
      ensures |old(Pending())| >= discarded
      ensures delivered == old(delivered) + old(Pending())[..discarded]
      ensures Pending() == old(Pending())[discarded..]
      ensures n <= 0 ==> lastByte == old(lastByte) && lastRuneSize == old(lastRuneSize) && r <= old(r)
      ensures 0 < n ==> lastByte == -1 && lastRuneSize == -1
      ensures 0 <= n && e.Some? && FinalErrors() ==> Pending() == []
      ensures Reports(e, old(err), old(rd.answers))
    {
      if n < 0 {
        return 0, Some(NegativeCount);
      }
      if n == 0 {
        return 0, None;
      }
      lastByte, lastRuneSize := -1, -1;
      discarded, e := DiscardAll(n, delivered, Pending());
    }

    method DiscardAll(n: nat, ghost start: seq<byte>, ghost whole: seq<byte>) returns (discarded: nat, e: Option<Error>)
      requires Valid() && 0 < n && lastByte == -1 && lastRuneSize == -1 && start == delivered && whole == Pending()
      modifies this`r, this`w, this`err, this`delivered, buf, rd
      ensures Valid() && Discarded(start, whole, discarded)
      ensures discarded <= n && (e.None? <==> discarded == n)
      ensures e.Some? && FinalErrors() ==> Pending() == []
      ensures (e.Some? ==> Foreign(e)) && Reports(e, old(err), old(rd.answers))
    {
      var remain: nat := n;
      discarded, e := 0, None;
      assert start + whole[..0] == start && whole[0..] == whole;
      while true
        invariant Valid() && 0 < remain && discarded + remain == n
        invariant Discarded(start, whole, discarded)
        invariant lastByte == -1 && lastRuneSize == -1
        invariant Going(old(err), old(rd.answers)) && (err.None? || rd.answers == old(rd.answers))
        decreases remain
      {
        var skip := DiscardMore(remain, start, whole, discarded, old(err), old(rd.answers));
        remain := remain - skip;
        discarded := discarded + skip;
        if remain == 0 {
          return discarded, None;
        }
        if err.Some? {
          e := ResetErr();
          return;
        }
      }
    }

    /** So many bytes, and no others, have gone. */
    ghost predicate Discarded(start: seq<byte>, whole: seq<byte>, n: nat)
      requires r <= w <= buf.Length
      reads this, buf, rd
    {
      n <= |whole| && delivered == start + whole[..n] && Pending() == whole[n..]
    }

    method DiscardMore(limit: nat, ghost start: seq<byte>, ghost whole: seq<byte>, ghost done: nat,
        ghost was: Option<Error>, ghost seen: seq<Answer>) returns (skip: nat)
      requires Valid() && 0 < limit && lastByte == -1 && lastRuneSize == -1 && Discarded(start, whole, done)
      requires Going(was, seen) && (err.None? || rd.answers == seen)
      modifies this`r, this`w, this`err, this`delivered, buf, rd
      ensures Valid() && skip <= limit && Discarded(start, whole, done + skip)
      ensures skip < limit ==> Buffered() == []
      ensures skip == 0 ==> err.Some?
      ensures Going(was, seen)
    {
      skip := DiscardChunk(limit, was, seen);
      AppendNext(start, whole, done, skip);
    }

    /** Skips what is buffered, up to `limit` bytes, after one fill if that is nothing. */
    method DiscardChunk(limit: nat, ghost was: Option<Error>, ghost seen: seq<Answer>) returns (skip: nat)
      requires Valid() && 0 < limit && lastByte == -1 && lastRuneSize == -1
      requires Going(was, seen) && (err.None? || rd.answers == seen)
      modifies this`r, this`w, this`err, this`delivered, buf, rd
      ensures Valid() && skip <= limit && skip <= |old(Pending())|
      ensures delivered == old(delivered) + old(Pending())[..skip]
      ensures Pending() == old(Pending())[skip..]
      ensures skip < limit ==> Buffered() == []
      ensures skip == 0 ==> err.Some?
      ensures Going(was, seen)
    {
      FillIfEmpty(was, seen);
      skip := if w - r > limit then limit else w - r;
      Skip(skip);
    }

    method FillIfEmpty(ghost was: Option<Error>, ghost seen: seq<Answer>)
      requires Valid() && Going(was, seen) && (err.None? || rd.answers == seen)
      modifies this`r, this`w, this`err, buf, rd
      ensures Valid() && Pending() == old(Pending())
      ensures r < w || err.Some?
      ensures Going(was, seen)
    {
      if w - r == 0 {
        ghost var pending, mid := err, rd.answers;
        Fill();
        TellsOn(err, was, seen, pending, mid);
      }
    }

    /** Advances over the next `k` buffered bytes with nothing to unread. */
    method Skip(k: nat)
      requires Valid() && k <= w - r && lastByte == -1 && lastRuneSize == -1
      modifies this`r, this`delivered
      ensures Valid() && r == old(r) + k && k <= |old(Pending())|
      ensures delivered == old(delivered) + old(Pending())[..k]
      ensures Pending() == old(Pending())[k..]
    {
      SliceOfSlice(buf, r, k, w);
      assert Buffered()[..k] == Pending()[..k];
      delivered := delivered + Buffered()[..k];
      r := r + k;
      assert Buffered() == old(Buffered())[k..];
    }

    predicate CanUnreadByte()
      reads this
    {
      lastByte >= 0 && (r > 0 || w == 0)
    }

    /** At most one read of the source; a large read into an empty buffer bypasses it. */
    method Read(p: array<byte>, lo: nat) returns (n: nat, e: Option<Error>)
      requires Valid() && lo <= p.Length && p != buf
      modifies this, buf, rd, p
      ensures Valid() && n <= p.Length - lo
      ensures p[..lo] == old(p[..lo])
      ensures delivered == old(delivered) + p[lo..lo + n]
      ensures crBack ==> old(crBack)
      ensures old(Pending()) == p[lo..lo + n] + Pending()
      ensures n > 0 ==> lastRuneSize == -1 && !crBack
      ensures n == 0 ==> lastRuneSize == old(lastRuneSize) && r <= old(r)
      ensures n > 0 ==> CanUnreadByte()
      ensures e.Some? ==> err.None? && Buffered() == [] && (FinalErrors() ==> Pending() == [])
      ensures n == 0 && e.None? && lo < p.Length ==> rd.gap < old(rd.gap)
      ensures old(r) < old(w) || p.Length - lo < buf.Length ==> p[lo + n..] == old(p[lo + n..])
      ensures Passes(e, old(err), old(rd.answers))
      ensures |rd.answers| <= |old(rd.answers)| + if old(Buffered()) == [] && old(err).None? then 1 else 0
    {
      if lo == p.Length && r < w {
        return 0, None;
      }
      if lo == p.Length || (r == w && err.Some?) {
        e := ResetErr();
        return 0, e;
      }
      if r == w {
        n, e := ReadThrough(p, lo);
        return;
      }
      n := CopyOut(p, lo);
      e := None;
    }

    /** With nothing buffered: a large read bypasses the buffer, a small one refills it once. */
    method ReadThrough(p: array<byte>, lo: nat) returns (n: nat, e: Option<Error>)
      requires Valid() && lo < p.Length && p != buf && r == w && err.None?
      modifies this, buf, rd, p
      ensures Valid() && n <= p.Length - lo
      ensures p[..lo] == old(p[..lo])
      ensures delivered == old(delivered) + p[lo..lo + n]
      ensures crBack ==> old(crBack)
      ensures old(Pending()) == p[lo..lo + n] + Pending()
      ensures n > 0 ==> lastRuneSize == -1 && !crBack
      ensures n == 0 ==> lastRuneSize == old(lastRuneSize) && r <= old(r)
      ensures n > 0 ==> CanUnreadByte()
      ensures e.Some? ==> err.None? && Buffered() == [] && (FinalErrors() ==> Pending() == [])
      ensures n == 0 && e.None? ==> rd.gap < old(rd.gap)
      ensures p.Length - lo < buf.Length ==> p[lo + n..] == old(p[lo + n..])
      ensures Passes(e, None, old(rd.answers))
      ensures |rd.answers| == |old(rd.answers)| + 1
    {
      if p.Length - lo >= buf.Length {
        n, e := ReadPast(p, lo);
        return;
      }
      n, e := RefillAndCopy(p, lo);
    }

    method RefillAndCopy(p: array<byte>, lo: nat) returns (n: nat, e: Option<Error>)
      requires Valid() && lo < p.Length && p != buf && r == w && err.None?
      modifies this, buf, rd, p
      ensures Valid() && n <= p.Length - lo && p[..lo] == old(p[..lo])
      ensures delivered == old(delivered) + p[lo..lo + n]
      ensures crBack ==> old(crBack)
      ensures old(Pending()) == p[lo..lo + n] + Pending()
      ensures n > 0 ==> lastRuneSize == -1 && !crBack
      ensures n == 0 ==> lastRuneSize == old(lastRuneSize) && r <= old(r)
      ensures n > 0 ==> CanUnreadByte()
      ensures e.Some? ==> err.None? && Buffered() == [] && (FinalErrors() ==> Pending() == [])
      ensures n == 0 && e.None? ==> rd.gap < old(rd.gap)
      ensures p[lo + n..] == old(p[lo + n..])
      ensures Passes(e, None, old(rd.answers))
      ensures |rd.answers| == |old(rd.answers)| + 1
    {
      n := Refill();
      if n == 0 {
        e := ResetErr();
        return 0, e;
      }
      n := CopyOut(p, lo);
      e := None;
    }

    /** One read into the empty buffer, whose start is free again. */
    method Refill() returns (n: nat)
      requires Valid() && r == w && err.None?
      modifies this`r, this`w, this`err, buf, rd
      ensures Valid() && |Buffered()| == n && Pending() == old(Pending())
      ensures r == 0
      ensures n == 0 && err.None? ==> rd.gap < old(rd.gap)
      ensures Told(err, None, old(rd.answers)) && |rd.answers| == |old(rd.answers)| + 1
    {
      r, w := 0, 0;
      assert Pending() == rd.rest;
      var failed;
      n, failed := ReadBehind();
      OneAnswer(old(rd.answers), rd.answers[|rd.answers| - 1]);
    }

    /** As many buffered bytes as `p[lo..]` has room for. */
    method CopyOut(p: array<byte>, lo: nat) returns (n: nat)
      requires Valid() && lo < p.Length && p != buf && r < w
      modifies this`r, this`delivered, this`lastByte, this`lastRuneSize, this`crBack, p
      ensures Valid() && 0 < n <= p.Length - lo && CanUnreadByte()
      ensures lastRuneSize == -1 && !crBack
      ensures p[..lo] == old(p[..lo])
      ensures delivered == old(delivered) + p[lo..lo + n]
      ensures old(Pending()) == p[lo..lo + n] + Pending()
      ensures p[lo + n..] == old(p[lo + n..])
    {
      n := if w - r < p.Length - lo then w - r else p.Length - lo;
      CopyTo(p, lo, Buffered()[..n]);
      assert p[lo..lo + n] == p[..lo + n][lo..];
      TakeSome(n);
    }

    /** The source's next bytes straight into `p`; the buffer is empty. */
    method ReadPast(p: array<byte>, lo: nat) returns (n: nat, e: Option<Error>)
      requires Valid() && lo < p.Length && p != buf && r == w && err.None?
      modifies this`lastByte, this`lastRuneSize, this`delivered, this`crBack, rd, p
      ensures Valid() && n <= p.Length - lo
      ensures p[..lo] == old(p[..lo])
      ensures delivered == old(delivered) + p[lo..lo + n]
      ensures crBack ==> old(crBack)
      ensures old(Pending()) == p[lo..lo + n] + Pending()
      ensures n > 0 ==> lastRuneSize == -1 && !crBack
      ensures n == 0 ==> lastRuneSize == old(lastRuneSize)
      ensures n > 0 ==> CanUnreadByte()
      ensures e.Some? && FinalErrors() ==> Pending() == []
      ensures n == 0 && e.None? ==> rd.gap < old(rd.gap)
      ensures Passes(e, None, old(rd.answers))
      ensures |rd.answers| == |old(rd.answers)| + 1
    {
      n, e := rd.Read(p, lo);
      OneAnswer(old(rd.answers), rd.answers[|rd.answers| - 1]);
      assert Pending() == rd.rest;
      delivered := delivered + p[lo..lo + n];
      assert n == 0 ==> delivered == old(delivered);
      if n > 0 {
        lastByte := p[lo + n - 1] as int;
        lastRuneSize := -1;
        crBack := false;
      }
    }

    method ReadByte() returns (c: byte, e: Option<Error>)
      requires Valid()
      modifies this, buf, rd
      ensures Valid()
      ensures lastRuneSize == -1 && (e.None? ==> !crBack)
      ensures crBack ==> old(crBack)
      ensures e.None? ==> delivered == old(delivered) + [c] && old(Pending()) == [c] + Pending() && CanUnreadByte()
      ensures e.Some? ==> delivered == old(delivered) && Pending() == old(Pending()) && Buffered() == []
      ensures e.Some? && FinalErrors() ==> Pending() == []
      ensures (e.Some? ==> Foreign(e)) && Reports(e, old(err), old(rd.answers))
      ensures old(Buffered()) != [] ==> e.None? && rd.answers == old(rd.answers)
    {
      lastRuneSize := -1;
      while r == w
        invariant old(Buffered()) != [] ==> r < w && rd.answers == old(rd.answers)
        invariant Going(old(err), old(rd.answers))
        invariant Valid() && lastRuneSize == -1 && crBack == old(crBack)
        invariant delivered == old(delivered) && Pending() == old(Pending())
        decreases if r == w then 1 else 0, if err.None? then 1 else 0
      {
        if err.Some? {
          e := ResetErr();
          return 0, e;
        }
        FillOn(old(err), old(rd.answers));
      }
      c := buf[r];
      assert |Buffered()| == w - r && Buffered()[0] == c;
      assert Buffered()[..1] == [c];
      Take(1);
      e := None;
    }

    /** Puts `lastByte` back in front. The stream is whole again exactly when that is
        the byte delivered last. */
    method UnreadByte() returns (e: Option<Error>)
      requires Valid()
      modifies this`r, this`w, this`lastByte, this`lastRuneSize, this`delivered, buf
      ensures Valid()
      ensures e.None? ==> lastByte == lastRuneSize == -1
      ensures e.Some? ==> lastByte == old(lastByte) && lastRuneSize == old(lastRuneSize) && r <= old(r)
      ensures e.None? <==> old(CanUnreadByte())
      ensures e.Some? ==> e == Some(InvalidUnreadByte) && delivered == old(delivered) && Pending() == old(Pending())
      ensures e.None? ==> delivered == old(delivered)[..|old(delivered)| - 1]
      ensures e.None? ==> Pending() == [old(lastByte) as byte] + old(Pending())
      ensures e.None? ==>
        (delivered + Pending() == old(delivered + Pending()) <==>
         old(delivered)[|old(delivered)| - 1] as int == old(lastByte))
      ensures e.None? && !old(crBack) ==> delivered + Pending() == old(delivered + Pending())
    {
      if lastByte < 0 || (r == 0 && w > 0) {
        return Some(InvalidUnreadByte);
      }
      SplitLast(delivered, lastByte as byte, Pending());
      PutBack();
      e := None;
    }

    /** Makes room in front of the buffered bytes and puts `lastByte` there. */
    method PutBack()
      requires Valid() && CanUnreadByte()
      modifies this`r, this`w, this`lastByte, this`lastRuneSize, this`delivered, buf
      ensures Valid() && lastByte == lastRuneSize == -1
      ensures delivered == old(delivered)[..|old(delivered)| - 1]
      ensures Pending() == [old(lastByte) as byte] + old(Pending())
    {
      ghost var was := Buffered();
      if r > 0 {
        r := r - 1;
      } else {
        w := 1;
      }
      buf[r] := lastByte as byte;
      assert buf[r + 1..w] == was;
      assert Buffered() == [lastByte as byte] + was;
      Associative([lastByte as byte], was, rd.rest);
      lastByte, lastRuneSize := -1, -1;
      delivered := delivered[..|delivered| - 1];
    }

    /** The next rune, decoded from enough bytes that no further byte could change it,
        unless an error keeps them away. */
    method ReadRune() returns (c: int, size: nat, e: Option<Error>)
      requires Valid()
      modifies this, buf, rd
      ensures Valid()
      ensures if e.None? then !crBack else lastRuneSize == -1
      ensures crBack ==> old(crBack)
      ensures size <= |old(Pending())| && delivered == old(delivered) + old(Pending())[..size]
      ensures Pending() == old(Pending())[size..]
      ensures e.Some? ==> size == 0 && (FinalErrors() ==> old(Pending()) == [])
      ensures e.None? ==> 1 <= size == lastRuneSize <= r && CanUnreadByte()
      ensures e.None? ==> exists seen :: DecidedBy(seen, old(Pending())) && (c, size) == Decode(seen)
      ensures e.None? && FinalErrors() ==> (c, size) == Decode(old(Pending()))
      ensures (e.Some? ==> Foreign(e)) && Reports(e, old(err), old(rd.answers))
      ensures FullRune(old(Buffered())) ==> rd.answers == old(rd.answers)
    {
      FillRune();
      lastRuneSize := -1;
      if r == w {
        e := ResetErr();
        return 0, 0, e;
      }
      ghost var seen := Buffered();
      c, size := TakeRune();
      assert DecidedBy(seen, old(Pending()));
      e := None;
    }

    /** Fills until the buffer holds a full rune. */
    method FillRune()
      requires Valid()
      modifies this`r, this`w, this`err, buf, rd
      ensures Valid() && Pending() == old(Pending())
      ensures DecidedBy(Buffered(), Pending())
      ensures FinalErrors() && r < w ==> Decode(Buffered()) == Decode(Pending())
      ensures r == w && FinalErrors() ==> Pending() == []
      ensures Going(old(err), old(rd.answers)) && (r == w ==> err.Some?)
      ensures FullRune(old(Buffered())) ==> rd.answers == old(rd.answers)
    {
      while r + UTF_MAX > w && !FullRune(buf[r..w]) && err.None? && w - r < buf.Length
        invariant Valid() && Pending() == old(Pending()) && Going(old(err), old(rd.answers))
        invariant FullRune(old(Buffered())) ==> FullRune(buf[r..w]) && rd.answers == old(rd.answers)
        decreases if err.None? then 1 else 0, buf.Length - (w - r)
      {
        FillOn(old(err), old(rd.answers));
      }
      if r < w {
        SettledRune(Buffered(), rd.rest);
      }
    }

    /** Decoding `seen` settles the next rune of `pending`, unless an error hides the rest. */
    ghost predicate DecidedBy(seen: seq<byte>, pending: seq<byte>)
      reads this
    {
      seen <= pending && (FullRune(seen) || err.Some?)
    }

    method TakeRune() returns (c: int, size: nat)
      requires Valid() && r < w
      modifies this`r, this`delivered, this`lastByte, this`lastRuneSize, this`crBack
      ensures Valid() && err == old(err) && !crBack && (c, size) == Decode(old(Buffered())) && CanUnreadByte()
      ensures 1 <= size == lastRuneSize <= r && size <= |old(Pending())|
      ensures delivered == old(delivered) + old(Pending())[..size]
      ensures Pending() == old(Pending())[size..]
    {
      ghost var seen := Buffered();
      c, size := DecodeBuffered();
      assert seen[..size] == Pending()[..size];
      TakeSome(size);
      KeepRuneSize(size);
    }

    method KeepRuneSize(size: nat)
      requires Valid() && 1 <= size <= UTF_MAX && size <= r && size <= |delivered|
      requires buf[r - size..r] == delivered[|delivered| - size..]
      modifies this`lastRuneSize
      ensures Valid() && lastRuneSize == size
    {
      assert forall i :: r - size <= i < r ==> buf[i] == buf[r - size..r][i - (r - size)];
      lastRuneSize := size;
    }

    method DecodeBuffered() returns (c: int, size: nat)
      requires r < w <= buf.Length
      ensures (c, size) == Decode(Buffered()) && 1 <= size <= w - r && size <= UTF_MAX
    {
      assert Buffered()[0] == buf[r];
      c, size := buf[r] as int, 1;
      if c >= RUNE_SELF {
        var d := Decode(buf[r..w]);
        c, size := d.0, d.1;
      }
    }

    method UnreadRune() returns (e: Option<Error>)
      requires Valid()
      modifies this`r, this`lastByte, this`lastRuneSize, this`delivered
      ensures Valid()
      ensures e.None? ==> lastByte == lastRuneSize == -1
      ensures e.Some? ==> lastByte == old(lastByte) && lastRuneSize == old(lastRuneSize) && r <= old(r)
      ensures e.None? <==> 0 < old(lastRuneSize) <= old(r)
      ensures e.Some? ==> e == Some(InvalidUnreadRune) && delivered == old(delivered) && Pending() == old(Pending())
      ensures e.None? ==> delivered == old(delivered)[..|old(delivered)| - old(lastRuneSize)]
      ensures delivered + Pending() == old(delivered + Pending())
    {
      if lastRuneSize < 0 || r < lastRuneSize {
        return Some(InvalidUnreadRune);
      }
      ghost var back := |delivered| - lastRuneSize;
      r := r - lastRuneSize;
      assert buf[r..r + lastRuneSize] == delivered[back..];
      assert Buffered() == delivered[back..] + old(Buffered());
      assert delivered == delivered[..back] + delivered[back..];
      delivered := delivered[..back];
      lastByte, lastRuneSize := -1, -1;
      e := None;
    }

    /** The bytes up to a delimiter, an error or a full buffer, whichever comes first.
        What was scanned before a fill is not scanned again. */
    method ReadSlice(delim: byte) returns (line: seq<byte>, e: Option<Error>)
      requires Valid()
      modifies this, buf, rd
      ensures Valid()
      ensures crBack ==> old(crBack)
      ensures delivered == old(delivered) + line && old(Pending()) == line + Pending()
      ensures |line| <= buf.Length
      ensures e.None? ==> line != [] && line[|line| - 1] == delim && delim !in line[..|line| - 1]
      ensures e.Some? ==> delim !in line && Buffered() == []
      ensures line == [] ==> old(Buffered()) == [] && lastByte == old(lastByte) && crBack == old(crBack) && r <= old(r)
      ensures e == Some(BufferFull) ==> r == w == buf.Length && line == buf[..]
      ensures e.Some? && e != Some(BufferFull) && FinalErrors() ==> Pending() == []
      ensures line != [] ==> lastByte == line[|line| - 1] as int && !crBack && CanUnreadByte()
      ensures lastRuneSize == -1 || (line == [] && lastRuneSize == old(lastRuneSize))
      ensures SliceTold(e, old(err), old(rd.answers))
      ensures rd.answers == old(rd.answers) || delim !in old(Buffered())
    {
      var k;
      k, e := SeekDelim(delim);
      line := TakeSlice(k);
    }

    /** How many buffered bytes to hand out, filling the buffer as needed. */
    method SeekDelim(delim: byte) returns (k: nat, e: Option<Error>)
      requires Valid()
      modifies this`r, this`w, this`err, buf, rd
      ensures Valid() && k <= w - r && Pending() == old(Pending())
      ensures e.None? ==> 0 < k && buf[r + k - 1] == delim && delim !in buf[r..r + k - 1]
      ensures e.Some? ==> k == w - r && delim !in Buffered()
      ensures r <= old(r)
      ensures k == 0 ==> old(Buffered()) == []
      ensures e == Some(BufferFull) ==> k == buf.Length
      ensures e.Some? && e != Some(BufferFull) && FinalErrors() ==> rd.rest == []
      ensures SliceTold(e, old(err), old(rd.answers))
      ensures rd.answers == old(rd.answers) || delim !in old(Buffered())
    {
      var s: nat := 0;
      ghost var held := Buffered();
      k, e := 0, None;
      while k == 0 && e.None?
        invariant Valid() && k <= w - r && Pending() == old(Pending()) && old(w - r) <= w - r && r <= old(r)
        invariant Asked(held, delim, old(rd.answers))
        invariant if k == 0 && e.None? then Scanned(s, delim) && Going(old(err), old(rd.answers))
          else Sought(k, delim, e, old(err), old(rd.answers))
        decreases k == 0 && e.None?, if err.None? then 1 else 0, buf.Length - (w - r)
      {
        k, s, e := SeekOn(s, delim, held, old(err), old(rd.answers));
        if e.Some? {
          return;
        }
      }
    }

    /** The search is over: the delimiter is found, or there is a reason to look no further. */
    ghost predicate Sought(k: nat, delim: byte, e: Option<Error>, was: Option<Error>, seen: seq<Answer>)
      reads this, buf, rd
    {
      && k <= w - r && w <= buf.Length && SliceTold(e, was, seen)
      && (e.None? ==> 0 < k && buf[r + k - 1] == delim && delim !in buf[r..r + k - 1])
      && (e.Some? ==> k == w - r && delim !in Buffered())
      && (e == Some(BufferFull) ==> k == buf.Length)
      && (e.Some? && e != Some(BufferFull) && FinalErrors() ==> rd.rest == [])
    }

    /** Looks through what is new in the buffer, and fills it once more if nothing is found. */
    method SeekOn(s: nat, delim: byte, ghost held: seq<byte>, ghost was: Option<Error>,
        ghost seen: seq<Answer>) returns (k: nat, s': nat, e: Option<Error>)
      requires Valid() && Scanned(s, delim) && Going(was, seen) && Asked(held, delim, seen)
      modifies this`r, this`w, this`err, buf, rd
      ensures Valid() && Pending() == old(Pending()) && old(w - r) <= w - r && r <= old(r)
      ensures Asked(held, delim, seen)
      ensures if k > 0 || e.Some? then Sought(k, delim, e, was, seen)
        else Scanned(s', delim) && Going(was, seen) && old(err).None? && (err.None? ==> old(w - r) < w - r)
    {
      k, s', e := 0, s, None;
      var i := Scan(s, delim);
      if i >= 0 {
        return i + 1, s, None;
      }
      assert delim !in held;
      s', e := LookFurther(delim, was, seen);
      if e.Some? {
        k := w - r;
      }
    }

    /** The source was asked only for want of `delim` in the buffer. */
    ghost predicate Asked(held: seq<byte>, delim: byte, seen: seq<Answer>)
      requires r <= w <= buf.Length
      reads this, buf, rd
    {
      delim !in held || (rd.answers == seen && Buffered() == held)
    }

    /** The first `s` buffered bytes do not hold `delim`. */
    ghost predicate Scanned(s: nat, delim: byte)
      reads this, buf
    {
      r + s <= w <= buf.Length && delim !in buf[r..r + s]
    }

    method LookFurther(delim: byte, ghost was: Option<Error>,
        ghost seen: seq<Answer>) returns (s: nat, e: Option<Error>)
      requires Valid() && delim !in Buffered() && Going(was, seen)
      modifies this`r, this`w, this`err, buf, rd
      ensures Valid() && Pending() == old(Pending()) && w - r >= old(w - r)
      ensures e.None? ==> old(err).None? && Scanned(s, delim) && (err.None? ==> w - r > old(w - r))
      ensures r <= old(r)
      ensures e.Some? ==> delim !in Buffered()
      ensures e == Some(BufferFull) ==> w - r == buf.Length
      ensures e.Some? && e != Some(BufferFull) && FinalErrors() ==> rd.rest == []
      ensures if e.Some? then SliceTold(e, was, seen) else Going(was, seen)
    {
      s := 0;
      e := GiveUp(delim);
      if e.None? {
        s := FillScanned(delim, was, seen);
      }
    }

    /** A full buffer is the one complaint of its own that a search has. */
    predicate Hands(e: Option<Error>) {
      e.Some? && e != Some(BufferFull) ==> Foreign(e)
    }

    ghost predicate SliceTold(e: Option<Error>, was: Option<Error>, seen: seq<Answer>)
      reads this`err, rd`answers
    {
      Hands(e) && (e.Some? ==> err.None?) && Reports(e, was, seen)
    }

    /** Why not to look further: an error is pending, or the buffer is full. */
    method GiveUp(delim: byte) returns (e: Option<Error>)
      requires Valid() && delim !in Buffered()
      modifies this`err
      ensures Valid() && err.None?
      ensures e.None? ==> old(err).None? && w - r < buf.Length
      ensures e == Some(BufferFull) ==> w - r == buf.Length
      ensures e.Some? && e != Some(BufferFull) && FinalErrors() ==> rd.rest == []
      ensures e == if old(err).Some? then old(err) else if w - r == buf.Length then Some(BufferFull) else None
    {
      if err.Some? {
        e := ResetErr();
        return;
      }
      e := if w - r >= buf.Length then Some(BufferFull) else None;
    }

    /** Where `delim` is in the buffer, given that the first `s` bytes do not hold it. */
    method Scan(s: nat, delim: byte) returns (i: int)
      requires Scanned(s, delim)
      ensures i < 0 ==> delim !in Buffered()
      ensures i >= 0 ==> r + i < w && buf[r + i] == delim && delim !in buf[r..r + i]
    {
      i := IndexByte(buf[r + s..w], delim);
      if i < 0 {
        forall j | r <= j < w
          ensures buf[j] != delim
        {
          assert if j < r + s then buf[j] == buf[r..r + s][j - r] else buf[j] == buf[r + s..w][j - r - s];
        }
      } else {
        forall j | r <= j < r + s + i
          ensures buf[j] != delim
        {
          if j < r + s {
            assert buf[j] == buf[r..r + s][j - r];
          } else {
            assert buf[j] == buf[r + s..w][..i][j - r - s];
          }
        }
        i := s + i;
      }
    }

    /** Fills behind bytes that do not hold `delim`, and counts them. */
    method FillScanned(delim: byte, ghost was: Option<Error>, ghost seen: seq<Answer>) returns (s: nat)
      requires Valid() && w - r < buf.Length && delim !in Buffered() && err.None? && Going(was, seen)
      modifies this`r, this`w, this`err, buf, rd
      ensures Valid() && Scanned(s, delim)
      ensures r <= old(r)
      ensures Pending() == old(Pending())
      ensures w - r >= old(w - r) && (err.None? ==> w - r > old(w - r))
      ensures Going(was, seen)
    {
      s := w - r;
      ghost var scanned := Buffered();
      FillOn(was, seen);
      assert buf[r..r + s] == Buffered()[..s] == scanned;
    }

    method TakeSlice(k: nat) returns (line: seq<byte>)
      requires Valid() && k <= w - r
      modifies this`r, this`delivered, this`lastByte, this`lastRuneSize, this`crBack
      ensures Valid() && r == old(r) + k && line == buf[old(r)..r]
      ensures line == old(buf[r..r + k])
      ensures k > 0 ==> line[..k - 1] == old(buf[r..r + k - 1])
      ensures delivered == old(delivered) + line && old(Pending()) == line + Pending()
      ensures line != [] ==> lastByte == line[|line| - 1] as int && !crBack && lastRuneSize == -1
      ensures line == [] ==> lastByte == old(lastByte) && crBack == old(crBack) && lastRuneSize == old(lastRuneSize)
    {
      line := buf[r..r + k];
      assert line == Buffered()[..k];
      Take(k);
    }

    /** A line, or the front of one too long for the buffer. A carriage return at the end
        of a full buffer goes back, in case a line feed follows it. */
    method ReadLine() returns (line: seq<byte>, isPrefix: bool, e: Option<Error>, ghost slice: seq<byte>)
      requires Valid()
      modifies this, buf, rd
      ensures Valid() && delivered == old(delivered) + slice
      ensures LinePart(old(Pending()), line, slice, Pending(), isPrefix)
      ensures e.Some? ==> line == slice == [] && !isPrefix
      ensures |slice| <= buf.Length
      ensures isPrefix ==> e.None? && err.None? && LineFront(line)
      ensures lastRuneSize == -1 || (slice == [] && lastRuneSize == old(lastRuneSize) && r <= old(r))
      ensures e.None? && !isPrefix ==> slice != []
      ensures !isPrefix && LF !in slice ==> Buffered() == [] && (FinalErrors() ==> Pending() == [])
      ensures !isPrefix ==> (crBack ==> old(crBack)) && (e.None? ==> CanUnreadByte() && !crBack)
      ensures e.Some? ==> old(Buffered()) == [] && lastByte == old(lastByte) && crBack == old(crBack)
      ensures LineTold(slice, isPrefix, e, old(err), old(rd.answers))
    {
      var read;
      read, e := ReadLineSlice();
      slice := read;
      if e == Some(BufferFull) {
        line := KeepPrefix(read, old(err), old(rd.answers));
        return line, true, None, line;
      }
      isPrefix := false;
      if |read| == 0 {
        return [], false, e, [];
      }
      e := None;
      line := EndLine(old(Pending()), read, Pending());
    }

    /** A slice as `ReadLine` uses it. */
    method ReadLineSlice() returns (line: seq<byte>, e: Option<Error>)
      requires Valid()
      modifies this, buf, rd
      ensures Valid() && (crBack ==> old(crBack))
      ensures delivered == old(delivered) + line && old(Pending()) == line + Pending()
      ensures |line| <= buf.Length && (e.None? ==> OneLine(line) && line[|line| - 1] == LF)
      ensures e.Some? ==> LF !in line && Buffered() == []
      ensures line == [] ==> old(Buffered()) == [] && lastByte == old(lastByte) && crBack == old(crBack) && r <= old(r)
      ensures e == Some(BufferFull) ==> r == w == buf.Length && line == buf[..]
      ensures e.Some? && e != Some(BufferFull) && FinalErrors() ==> Pending() == []
      ensures line != [] ==> lastByte == line[|line| - 1] as int && !crBack && CanUnreadByte()
      ensures lastRuneSize == -1 || (line == [] && lastRuneSize == old(lastRuneSize))
      ensures if e == Some(BufferFull) then LineTold([], true, None, old(err), old(rd.answers))
        else LineTold(line, false, if line == [] then e else None, old(err), old(rd.answers))
    {
      line, e := ReadSlice(LF);
      LineTells(line, e, old(err), old(rd.answers));
    }

    /** An error that ended a line is neither handed out with the line nor pending any more. */
    ghost predicate Forgets(was: Option<Error>, seen: seq<Answer>)
      reads this`err, rd`answers
    {
      err.None? && exists lost :: Foreign(lost) && Told(lost, was, seen)
    }

    ghost predicate LineTold(slice: seq<byte>, isPrefix: bool, e: Option<Error>, was: Option<Error>, seen: seq<Answer>)
      reads this`err, rd`answers
    {
      && (e.Some? ==> Foreign(e))
      && (isPrefix ==> e.None? && err.None?)
      && (if LF in slice || isPrefix || e.Some? then Reports(e, was, seen) else Forgets(was, seen))
    }

    lemma LineTells(read: seq<byte>, e: Option<Error>, was: Option<Error>, seen: seq<Answer>)
      requires SliceTold(e, was, seen) && (LF in read <==> e.None?)
      ensures if e == Some(BufferFull) then LineTold([], true, None, was, seen)
        else LineTold(read, false, if read == [] then e else None, was, seen)
    {
    }

    /** What was told of the last part is so of the whole line. */
    lemma LineTellsOn(taken: seq<byte>, slice: seq<byte>, isPrefix: bool, e: Option<Error>, was: Option<Error>,
        seen: seq<Answer>, mid: seq<Answer>)
      requires LineTold(slice, isPrefix, e, None, mid) && seen <= mid && None == Settle(was, mid[|seen|..])
      requires (mid == seen || mid[|mid| - 1].Brought?) && (LF in taken <==> LF in slice)
      ensures LineTold(taken, isPrefix, e, was, seen)
    {
      if LF in slice || isPrefix || e.Some? {
        TellsOn(if e.Some? then e else err, was, seen, None, mid);
      } else {
        var lost :| Foreign(lost) && Told(lost, None, mid);
        TellsOn(lost, was, seen, None, mid);
      }
    }

    /** With what went back, the front of a line fills the buffer; its last byte is remembered. */
    ghost predicate LineFront(line: seq<byte>)
      requires r <= w <= buf.Length
      reads this, buf
    {
      && Buffered() == (if crBack then [CR] else [])
      && |line + Buffered()| == buf.Length > 0
      && (crBack <==> (line + Buffered())[buf.Length - 1] == CR)
      && lastByte == (line + Buffered())[buf.Length - 1] as int
      && CanUnreadByte()
    }

    /** The full buffer just read, less a carriage return that goes back. */
    method KeepPrefix(slice: seq<byte>, ghost was: Option<Error>, ghost seen: seq<Answer>) returns (line: seq<byte>)
      requires LineTold([], true, None, was, seen)
      requires Valid() && r == w == buf.Length && slice == buf[..] && LF !in slice
      requires lastByte == slice[|slice| - 1] as int && lastRuneSize == -1 && !crBack
      requires |slice| <= |delivered| && delivered[|delivered| - |slice|..] == slice
      modifies this`r, this`delivered, this`crBack
      ensures Valid() && LF !in line && LineFront(line)
      ensures delivered == old(delivered)[..|old(delivered)| - |slice|] + line
      ensures slice + old(Pending()) == line + Pending()
      ensures LinePart(slice + old(Pending()), line, line, Pending(), true)
      ensures LineTold(line, true, None, was, seen)
    {
      line := slice;
      ghost var before := |delivered| - |slice|;
      assert delivered == delivered[..before] + slice;
      if line[|line| - 1] == CR {
        PutBackCR();
        line := line[..|line| - 1];
        assert slice == line + [CR];
      } else {
        assert slice == line + [];
      }
      assert line + Buffered() == slice;
    }

    method EndLine(ghost whole: seq<byte>, slice: seq<byte>, ghost rest: seq<byte>) returns (line: seq<byte>)
      requires whole == slice + rest && OneLine(slice)
      ensures LinePart(whole, line, slice, rest, false)
      ensures LF in slice <==> slice[|slice| - 1] == LF
    {
      line := DropEnding(slice);
      SliceEndsLine(whole, slice, rest);
    }

    method DropEnding(slice: seq<byte>) returns (line: seq<byte>)
      requires slice != []
      ensures line == StripEnding(slice)
    {
      line := slice;
      if line[|line| - 1] == LF {
        var drop := 1;
        if |line| > 1 && line[|line| - 2] == CR {
          drop := 2;
        }
        line := line[..|line| - drop];
      }
    }

    /** Joins `ReadLine` fragments until one is not a prefix. */
    method ReadWholeLine() returns (line: seq<byte>, e: Option<Error>, ghost taken: seq<byte>)
      requires Valid()
      modifies this, buf, rd
      ensures Valid()
      ensures delivered == old(delivered) + taken && LinePart(old(Pending()), line, taken, Pending(), false)
      ensures LF in taken || FinalErrors() ==> CutLine(old(Pending())) == (line, Pending())
      ensures LF !in taken ==> line == taken && Buffered() == [] && (FinalErrors() ==> Pending() == [])
      ensures if e.Some? then LF !in taken else taken != []
      ensures LineTold(taken, false, e, old(err), old(rd.answers))
    {
      var isPrefix;
      ghost var whole := Pending();
      line, isPrefix, e, taken := ReadLine();
      while isPrefix
        invariant LineSoFar(old(delivered), whole, line, taken, isPrefix, e)
        invariant LineTold(taken, isPrefix, e, old(err), old(rd.answers))
        decreases isPrefix, |Pending()|
      {
        line, isPrefix, e, taken := ReadNextPart(whole, old(delivered), line, taken, old(err), old(rd.answers));
      }
      if LF in taken || FinalErrors() {
        LinePartCuts(whole, line, taken, Pending());
      }
    }

    /** This part of the line came off the stream; if it is the last without a line end, nothing
        is left that could be read. */
    ghost predicate LineSoFar(start: seq<byte>, whole: seq<byte>, line: seq<byte>, taken: seq<byte>, isPrefix: bool,
        e: Option<Error>)
      reads this, buf, rd
    {
      && Valid() && delivered == start + taken && LinePart(whole, line, taken, Pending(), isPrefix)
      && (if e.Some? then !isPrefix && LF !in taken else taken != [])
      && (!isPrefix && LF !in taken ==> Buffered() == [] && (FinalErrors() ==> Pending() == []))
    }

    method ReadNextPart(ghost whole: seq<byte>, ghost start: seq<byte>, line: seq<byte>,
        ghost taken: seq<byte>, ghost was: Option<Error>,
        ghost seen: seq<Answer>) returns (line': seq<byte>, isPrefix: bool, e: Option<Error>, ghost taken': seq<byte>)
      requires LineSoFar(start, whole, line, taken, true, None) && LineTold(taken, true, None, was, seen)
      modifies this, buf, rd
      ensures LineSoFar(start, whole, line', taken', isPrefix, e) && LineTold(taken', isPrefix, e, was, seen)
      ensures isPrefix ==> |Pending()| < |old(Pending())|
    {
      ghost var slice, mid, answers := [], Pending(), rd.answers;
      var fragment;
      fragment, isPrefix, e, slice := ReadLine();
      LineTellsOn(taken + slice, slice, isPrefix, e, was, seen, answers);
      LinePartJoins(whole, line, taken, mid, fragment, slice, Pending(), isPrefix);
      Associative(start, taken, slice);
      line' := line + fragment;
      taken' := taken + slice;
    }

    method PutBackCR()
      requires Valid() && MIN_READ_BUFFER_SIZE <= r && MIN_READ_BUFFER_SIZE <= |delivered|
      requires lastByte == CR as int && lastRuneSize == -1
      requires delivered[|delivered| - 1] == buf[r - 1] == CR
      modifies this`r, this`delivered, this`crBack
      ensures Valid() && crBack && lastByte == CR as int && r == old(r) - 1
      ensures delivered == old(delivered)[..|old(delivered)| - 1]
      ensures Buffered() == [CR] + old(Buffered()) && Pending() == [CR] + old(Pending())
    {
      r := r - 1;
      delivered := delivered[..|delivered| - 1];
      crBack := true;
    }

    /** Full buffers and a final fragment that together run up to the first delimiter. */
    method CollectFragments(delim: byte) returns (full: seq<seq<byte>>, frag: seq<byte>, totalLen: nat,
        e: Option<Error>)
      requires Valid()
      modifies this, buf, rd
      ensures Valid() && totalLen == |Concat(full) + frag|
      ensures crBack ==> old(crBack)
      ensures delivered == old(delivered) + (Concat(full) + frag)
      ensures Forgot(Concat(full) + frag, old(lastRuneSize), old(r))
      ensures ReadUpTo(old(Pending()), Concat(full) + frag, Pending(), delim, e.None?)
      ensures e.Some? && FinalErrors() ==> Pending() == []
      ensures (e.Some? ==> Foreign(e)) && Reports(e, old(err), old(rd.answers))
    {
      ghost var start, whole := delivered, Pending();
      full, totalLen := [], 0;
      frag, e := ReadFirstSlice(delim);
      assert Concat(full) + frag == frag;
      while e == Some(BufferFull)
        invariant Valid() && totalLen == |Concat(full)|
        invariant Collected(start, whole, Concat(full) + frag, delim, e, old(lastRuneSize), old(r))
        invariant SliceTold(e, old(err), old(rd.answers))
        invariant crBack ==> old(crBack)
        decreases |Pending()| + if e == Some(BufferFull) then 1 else 0
      {
        ghost var got := Concat(full) + frag;
        ConcatAppend(full, frag);
        full := full + [frag];
        totalLen := totalLen + |frag|;
        frag, e := ReadNextSlice(delim, start, whole, got, old(lastRuneSize), old(r), old(err), old(rd.answers));
      }
      totalLen := totalLen + |frag|;
    }

    /** Nothing was taken: no rune can be unread that could not be before. */
    ghost predicate Unmoved(rune: int, from: nat)
      reads this
    {
      lastRuneSize == -1 || (lastRuneSize == rune && r <= from)
    }

    /** These bytes came off the stream; unless they are whole, an error says why. */
    ghost predicate Collected(start: seq<byte>, whole: seq<byte>, got: seq<byte>, delim: byte, e: Option<Error>,
        rune: int, from: nat)
      requires r <= w <= buf.Length
      reads this, buf, rd
    {
      && delivered == start + got
      && ReadUpTo(whole, got, Pending(), delim, e.None?)
      && (e.Some? && e != Some(BufferFull) && FinalErrors() ==> Pending() == [])
      && Forgot(got, rune, from)
    }

    ghost predicate Forgot(got: seq<byte>, rune: int, from: nat)
      reads this
    {
      if got != [] then CanUnreadByte() && !crBack && lastRuneSize == -1 else Unmoved(rune, from)
    }

    method ReadFirstSlice(delim: byte) returns (frag: seq<byte>, e: Option<Error>)
      requires Valid()
      modifies this, buf, rd
      ensures Valid() && Collected(old(delivered), old(Pending()), frag, delim, e, old(lastRuneSize), old(r))
      ensures crBack ==> old(crBack)
      ensures SliceTold(e, old(err), old(rd.answers))
    {
      frag, e := ReadSlice(delim);
    }

    method ReadNextSlice(delim: byte, ghost start: seq<byte>, ghost whole: seq<byte>,
        ghost got: seq<byte>, ghost rune: int, ghost from: nat, ghost was: Option<Error>,
        ghost seen: seq<Answer>) returns (frag: seq<byte>, e: Option<Error>)
      requires Valid() && Collected(start, whole, got, delim, Some(BufferFull), rune, from)
      requires SliceTold(Some(BufferFull), was, seen)
      modifies this, buf, rd
      ensures Valid() && Collected(start, whole, got + frag, delim, e, rune, from)
      ensures crBack ==> old(crBack)
      ensures |Pending()| <= |old(Pending())| && (e == Some(BufferFull) ==> |Pending()| < |old(Pending())|)
      ensures SliceTold(e, was, seen)
    {
      ghost var mid, answers := Pending(), rd.answers;
      frag, e := ReadSlice(delim);
      TellsOn(if Foreign(e) then e else err, was, seen, None, answers);
      Associative(start, got, frag);
      ReadUpToJoins(whole, got, mid, frag, Pending(), delim, e.None?);
    }

    /** Everything up to and including the first delimiter, in a buffer of its own. */
    method ReadBytes(delim: byte) returns (bytes: seq<byte>, e: Option<Error>)
      requires Valid()
      modifies this, buf, rd
      ensures Valid() && delivered == old(delivered) + bytes
      ensures crBack ==> old(crBack)
      ensures Forgot(bytes, old(lastRuneSize), old(r))
      ensures ReadUpTo(old(Pending()), bytes, Pending(), delim, e.None?)
      ensures CutsRight(old(Pending()), bytes, Pending(), delim, e.None?, FinalErrors())
      ensures (e.Some? ==> Foreign(e)) && Reports(e, old(err), old(rd.answers))
    {
      var full, frag, totalLen;
      full, frag, totalLen, e := CollectFragments(delim);
      bytes := JoinInto(full, frag, totalLen);
      ReadCutsRight(old(Pending()), bytes, Pending(), delim, e.None?, FinalErrors());
    }

    method ReadString(delim: byte) returns (text: seq<byte>, e: Option<Error>)
      requires Valid()
      modifies this, buf, rd
      ensures Valid() && delivered == old(delivered) + text
      ensures crBack ==> old(crBack)
      ensures Forgot(text, old(lastRuneSize), old(r))
      ensures ReadUpTo(old(Pending()), text, Pending(), delim, e.None?)
      ensures CutsRight(old(Pending()), text, Pending(), delim, e.None?, FinalErrors())
      ensures (e.Some? ==> Foreign(e)) && Reports(e, old(err), old(rd.answers))
    {
      var full, frag, totalLen;
      full, frag, totalLen, e := CollectFragments(delim);
      text := JoinText(full, frag);
      ReadCutsRight(old(Pending()), text, Pending(), delim, e.None?, FinalErrors());
    }
  }

  /** A reader of the wanted size over `rd`; `given` is the same argument, if it is a reader
      itself, and is returned as it is when its buffer is large enough. */
  method NewReaderSize(given: Option<Reader>, rd: Source, size: int) returns (b: Reader)
    requires rd.Valid()
    ensures if given.Some? && given.value.buf.Length >= size then b == given.value else
      && fresh(b) && b.Valid() && b.rd == rd && b.delivered == [] && b.Pending() == rd.rest
      && b.buf.Length == if size < 16 then 16 else size
  {
    if given.Some? && given.value.buf.Length >= size {
      return given.value;
    }
    b := new Reader(rd, size);
  }

  /** The pieces appended to a string one by one. */
  method JoinText(full: seq<seq<byte>>, frag: seq<byte>) returns (text: seq<byte>)
    ensures text == Concat(full) + frag
  {
    text := [];
    for i := 0 to |full|
      invariant text == Concat(full[..i])
    {
      ConcatAppend(full[..i], full[i]);
      assert full[..i + 1] == full[..i] + [full[i]];
      text := text + full[i];
    }
    assert full[..|full|] == full;
    text := text + frag;
  }

  /** A buffer of exactly the right size, filled piece by piece. */
  method JoinInto(full: seq<seq<byte>>, frag: seq<byte>, totalLen: nat) returns (bytes: seq<byte>)
    requires totalLen == |Concat(full) + frag|
    ensures bytes == Concat(full) + frag
  {
    var out := new byte[totalLen];
    var n: nat := 0;
    for i := 0 to |full|
      invariant n == |Concat(full[..i])| <= out.Length
      invariant out[..n] == Concat(full[..i])
    {
      ConcatAppend(full[..i], full[i]);
      ConcatSplit(full, i + 1);
      assert full[..i + 1] == full[..i] + [full[i]];
      CopyTo(out, n, full[i]);
      n := n + |full[i]|;
    }
    assert full[..|full|] == full;
    CopyTo(out, n, frag);
    assert out[..] == out[..n + |frag|];
    bytes := out[..];
  }

  /** Both ends of a part of an array. */
  lemma SliceOfSlice(a: array<byte>, lo: nat, k: nat, hi: nat)
    requires lo + k <= hi <= a.Length
    ensures a[lo..hi][..k] == a[lo..lo + k] && a[lo..hi][k..] == a[lo + k..hi]
    ensures a[lo..hi] == a[lo..lo + k] + a[lo + k..hi]
  {
  }

  /** The front of a buffer, handed out, ends what was delivered and leaves the rest pending. */
  lemma FrontTaken(buffered: seq<byte>, rest: seq<byte>, delivered: seq<byte>, k: nat)
    requires 0 < k <= |buffered|
    ensures buffered + rest == buffered[..k] + (buffered[k..] + rest)
    ensures (delivered + buffered[..k])[|delivered|..] == buffered[..k]
  {
  }

  /** Go's `copy(out[at:], s)` where there is room for all of `s`. */
  method CopyTo(out: array<byte>, at: nat, s: seq<byte>)
    requires at + |s| <= out.Length
    modifies out
    ensures out[..at + |s|] == old(out[..at]) + s
    ensures out[at + |s|..] == old(out[at + |s|..])
  {
    forall i | 0 <= i < |s| {
      out[at + i] := s[i];
    }
    assert out[..at + |s|] == out[..at] + out[at..at + |s|];
  }

  /** Moving the last element of `d` to the front of `p`, as `c`, keeps the whole. */
  lemma SplitLast(d: seq<byte>, c: byte, p: seq<byte>)
    requires d != []
    ensures d[..|d| - 1] + ([c] + p) == d + p <==> d[|d| - 1] == c
  {
    var whole := d[..|d| - 1] + ([c] + p);
    assert whole[|d| - 1] == c && (d + p)[|d| - 1] == d[|d| - 1];
    if d[|d| - 1] == c {
      assert d == d[..|d| - 1] + [c];
    }
  }

  /** Four bytes always hold a full rune. */
  lemma SettledRune(seen: seq<byte>, rest: seq<byte>)
    requires seen != []
    ensures |seen| >= UTF_MAX ==> FullRune(seen)
    ensures FullRune(seen) || rest == [] ==> Decode(seen + rest) == Decode(seen)
  {
    if FullRune(seen) {
      FullRuneIsStable(seen, rest);
    } else if rest == [] {
      assert seen + rest == seen;
    }
  }
}
