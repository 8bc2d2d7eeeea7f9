/** The buffered writer: bytes it has accepted are either already sunk or still in
    `buf[..n]`, in order, whatever the sink does. */
module BufWriter {
  import opened Options
  import opened Sequences
  import opened Streams
  import opened Utf8

  const DEFAULT_BUF_SIZE: nat := 4096

  /** What a flush makes of a call of the sink: taking too little is an error too. */
  function Shortfall(u: Uptake): Option<Error> {
    if u.error.None? && u.short then Some(ShortWrite) else u.error
  }

  /** That a reader is used up is no error. */
  function ButEnd(e: Option<Error>): Option<Error> {
    if e == Some(EOF) then None else e
  }

  /** The sticky error is the one that the last of the sink's calls since `seen` came to, if
      there was one, and there was no error before that. */
  ghost predicate BlamedOn(was: Option<Error>, seen: seq<Uptake>, err: Option<Error>, uptakes: seq<Uptake>) {
    && seen <= uptakes
    && (forall i | |seen| <= i < |uptakes| - 1 :: uptakes[i].error.None?)
    && if uptakes == seen then err == was
       else
         var last := uptakes[|uptakes| - 1];
         was.None? && (err == last.error || (last.short && err == Shortfall(last)))
  }

  class Writer {
    var err: Option<Error>
    const buf: array<byte>
    var n: nat
    const wr: Sink

    ghost predicate Valid()
      reads this
    {
      0 < buf.Length && n <= buf.Length
    }

    /** Everything accepted so far: what the sink holds, then what is buffered. */
    ghost function Image(): seq<byte>
      requires Valid()
      reads this, buf, wr
    {
      wr.sunk + buf[..n]
    }

    ghost predicate Blames(was: Option<Error>, seen: seq<Uptake>)
      reads this`err, wr`uptakes
    {
      BlamedOn(was, seen, err, wr.uptakes)
    }

    constructor (wr: Sink, size: int)
      ensures Valid() && fresh(buf) && this.wr == wr
      ensures n == 0 && err == None
      ensures buf.Length == if size <= 0 then DEFAULT_BUF_SIZE else size
      ensures Image() == wr.sunk
    {
      var length := if size <= 0 then DEFAULT_BUF_SIZE else size;
      buf := new byte[length];
      this.wr := wr;
      n := 0;
      err := None;
    }

    function Available(): nat
      requires Valid()
      reads this
    {
      buf.Length - n
    }

    method ResetErr() returns (e: Option<Error>)
      requires Valid()
      modifies this`err
      ensures e == old(err) && err == None
    {
      e := err;
      err := None;
    }

    /** Go's `copy(buf[n:], p)` followed by advancing `n`. */
    method CopyIn(p: seq<byte>) returns (k: nat)
      requires Valid()
      modifies this`n, buf
      ensures Valid() && k == (if |p| < old(Available()) then |p| else old(Available()))
      ensures n == old(n) + k
      ensures Image() == old(Image()) + p[..k]
    {
      k := if |p| < Available() then |p| else Available();
      forall i | 0 <= i < k {
        buf[n + i] := p[i];
      }
      assert buf[..n + k] == old(buf[..n]) + p[..k];
      n := n + k;
    }

    method Flush() returns (e: Option<Error>)
      requires Valid()
      modifies this`n, this`err, buf, wr
      ensures Valid() && e == err
      ensures Image() == old(Image())
      ensures old(wr.sunk) <= wr.sunk
      ensures old(err).Some? ==> e == old(err) && n == old(n) && wr.sunk == old(wr.sunk)
      ensures wr.steady && old(err).None? ==> e.None?
      ensures e.None? ==> n == 0
      ensures Blames(old(err), old(wr.uptakes))
      ensures if old(err).Some? || old(n) == 0 then wr.uptakes == old(wr.uptakes)
        else |wr.uptakes| == |old(wr.uptakes)| + 1 && e == Shortfall(wr.uptakes[|old(wr.uptakes)|])
    {
      if err.Some? || n == 0 {
        return err;
      }
      ghost var base, held := wr.sunk, buf[..n];
      var k;
      k, e := wr.Write(buf[..n]);
      SinksFirst(base, held, k);
      if k < n && e.None? {
        e := Some(ShortWrite);
      }
      if e.Some? {
        KeepUnsunk(k);
        err := e;
        return;
      }
      n := 0;
      assert buf[..n] == [];
    }

    /** Moves what was not sunk to the front. */
    method KeepUnsunk(k: nat)
      requires Valid() && k <= n
      modifies this`n, buf
      ensures Valid() && buf[..n] == old(buf[..n])[k..]
    {
      if 0 < k < n {
        forall i | 0 <= i < n - k {
          buf[i] := buf[k + i];
        }
      }
      assert forall i | 0 <= i < n - k :: buf[i] == old(buf[k + i]);
      assert buf[..n - k] == old(buf[..n])[k..];
      n := n - k;
    }

    /** A large write over an empty buffer skips the buffer. */
    method WriteDirect(p: seq<byte>) returns (k: nat)
      requires Valid() && n == 0 && err.None? && |p| > 0
      modifies this`err, wr
      ensures Valid() && k <= |p| && Image() == old(Image()) + p[..k]
      ensures old(wr.sunk) <= wr.sunk
      ensures wr.steady ==> err.None?
      ensures k == 0 && err.None? ==> wr.gap < old(wr.gap)
      ensures Blames(None, old(wr.uptakes))
    {
      assert Image() == wr.sunk;
      k, err := wr.Write(p);
      assert Image() == wr.sunk;
    }

    /** Fills the rest of the buffer from `p`, then flushes. */
    method CopyAndFlush(p: seq<byte>) returns (k: nat)
      requires Valid() && err.None? && |p| > Available()
      modifies this`n, this`err, buf, wr
      ensures Valid() && k == old(Available()) && Image() == old(Image()) + p[..k]
      ensures old(wr.sunk) <= wr.sunk
      ensures wr.steady ==> err.None?
      ensures err.None? ==> n == 0
      ensures Blames(None, old(wr.uptakes))
    {
      k := CopyIn(p);
      var _ := Flush();
    }

    /** What the buffer has no room for goes past it if it is empty, and through it otherwise. */
    method WriteLong(p: seq<byte>) returns (k: nat)
      requires Valid() && err.None? && |p| > Available()
      modifies this`n, this`err, buf, wr
      ensures Valid() && k <= |p| && Image() == old(Image()) + p[..k]
      ensures old(wr.sunk) <= wr.sunk
      ensures wr.steady ==> err.None?
      ensures err.None? ==> n == 0 && (k == 0 ==> 0 < old(n) || wr.gap < old(wr.gap))
      ensures Blames(None, old(wr.uptakes))
    {
      if n == 0 {
        k := WriteDirect(p);
      } else {
        k := CopyAndFlush(p);
      }
    }

    /** The bytes counted are accepted, and only they are. */
    method Write(p: seq<byte>) returns (nn: nat, e: Option<Error>)
      requires Valid()
      modifies this`n, this`err, buf, wr
      ensures Valid() && e == err
      ensures nn <= |p| && Image() == old(Image()) + p[..nn]
      ensures old(wr.sunk) <= wr.sunk
      ensures wr.steady && old(err).None? ==> e.None?
      ensures e.None? ==> nn == |p|
      ensures Blames(old(err), old(wr.uptakes))
      ensures |p| <= old(Available()) ==> wr.uptakes == old(wr.uptakes) && wr.sunk == old(wr.sunk)
      ensures old(err).Some? ==> nn == 0 && e == old(err) && n == old(n) && wr.sunk == old(wr.sunk)
    {
      nn := 0;
      var rest := p;
      while |rest| > Available() && err.None?
        invariant Valid()
        invariant nn <= |p| && rest == p[nn..]
        invariant |p| <= old(Available()) ==>
          nn == 0 && n == old(n) && wr.uptakes == old(wr.uptakes) && wr.sunk == old(wr.sunk)
        invariant Image() == old(Image()) + p[..nn]
        invariant old(wr.sunk) <= wr.sunk
        invariant wr.steady && old(err).None? ==> err.None?
        invariant Blames(old(err), old(wr.uptakes))
        invariant old(err).Some? ==> nn == 0 && err == old(err) && n == old(n) && wr.sunk == old(wr.sunk)
        decreases |rest|, if err.None? then 1 else 0, n, wr.gap
      {
        var k := WriteLong(rest);
        AppendNext(old(Image()), p, nn, k);
        nn := nn + k;
        rest := rest[k..];
      }
      if err.Some? {
        return nn, err;
      }
      var k := CopyIn(rest);
      AppendNext(old(Image()), p, nn, k);
      nn := nn + k;
      e := None;
    }

    /** As `Write`, for a sink that is not itself a string writer: no direct writes. */
    method WriteString(s: seq<byte>) returns (nn: nat, e: Option<Error>)
      requires Valid()
      modifies this`n, this`err, buf, wr
      ensures Valid() && e == err
      ensures nn <= |s| && Image() == old(Image()) + s[..nn]
      ensures old(wr.sunk) <= wr.sunk
      ensures wr.steady && old(err).None? ==> e.None?
      ensures e.None? ==> nn == |s|
      ensures Blames(old(err), old(wr.uptakes))
      ensures |s| <= old(Available()) ==> wr.uptakes == old(wr.uptakes) && wr.sunk == old(wr.sunk)
      ensures old(err).Some? ==> nn == 0 && e == old(err) && n == old(n) && wr.sunk == old(wr.sunk)
    {
      nn := 0;
      var rest := s;
      while |rest| > Available() && err.None?
        invariant Valid()
        invariant nn <= |s| && rest == s[nn..]
        invariant |s| <= old(Available()) ==>
          nn == 0 && n == old(n) && wr.uptakes == old(wr.uptakes) && wr.sunk == old(wr.sunk)
        invariant Image() == old(Image()) + s[..nn]
        invariant old(wr.sunk) <= wr.sunk
        invariant wr.steady && old(err).None? ==> err.None?
        invariant Blames(old(err), old(wr.uptakes))
        invariant old(err).Some? ==> nn == 0 && err == old(err) && n == old(n) && wr.sunk == old(wr.sunk)
        decreases |rest|, if err.None? then 1 else 0, n
      {
        var k := CopyAndFlush(rest);
        AppendNext(old(Image()), s, nn, k);
        nn := nn + k;
        rest := rest[k..];
      }
      if err.Some? {
        return nn, err;
      }
      var k := CopyIn(rest);
      AppendNext(old(Image()), s, nn, k);
      nn := nn + k;
      e := None;
    }

    method WriteByte(c: byte) returns (e: Option<Error>)
      requires Valid()
      modifies this`n, this`err, buf, wr
      ensures Valid() && e == err
      ensures Image() == old(Image()) + if e.None? then [c] else []
      ensures old(wr.sunk) <= wr.sunk
      ensures wr.steady && old(err).None? ==> e.None?
      ensures Blames(old(err), old(wr.uptakes))
      ensures 0 < old(Available()) ==> wr.uptakes == old(wr.uptakes) && wr.sunk == old(wr.sunk)
      ensures old(err).Some? ==> e == old(err) && n == old(n) && wr.sunk == old(wr.sunk)
    {
      if err.Some? {
        return err;
      }
      if Available() <= 0 {
        e := Flush();
        if e.Some? {
          return;
        }
      }
      buf[n] := c;
      assert buf[..n + 1] == buf[..n] + [c];
      n := n + 1;
      e := None;
    }

    /** A whole encoding is accepted, or an error says why only `size` bytes of it were. */
    method WriteRune(r: int) returns (size: nat, e: Option<Error>)
      requires Valid()
      modifies this`n, this`err, buf, wr
      ensures Valid() && e == err
      ensures size <= |Encode(r)| && Image() == old(Image()) + Encode(r)[..size]
      ensures old(wr.sunk) <= wr.sunk
      ensures wr.steady && old(err).None? ==> e.None?
      ensures e.None? ==> size == |Encode(r)|
      ensures Blames(old(err), old(wr.uptakes))
      ensures old(err).Some? ==> size == 0 && e == old(err) && n == old(n) && wr.sunk == old(wr.sunk)
    {
      if 0 <= r < RUNE_SELF {
        e := WriteByte(r as byte);
        return if e.Some? then 0 else 1, e;
      }
      if err.Some? {
        return 0, err;
      }
      if Available() < UTF_MAX {
        e := Flush();
        if e.Some? {
          return 0, e;
        }
        if Available() < UTF_MAX {
          size, e := WriteString(Encode(r));
          return;
        }
      }
      size := CopyIn(Encode(r));
      e := None;
    }

    /** Everything taken from `r` is accepted, unless the final flush or `r` itself says
        otherwise; no byte is taken from `r` and then lost. */
    method ReadFrom(r: Source) returns (total: nat, e: Option<Error>)
      requires Valid() && r.Valid()
      modifies this`n, this`err, buf, wr, r
      ensures Valid() && r.Valid()
      ensures total <= |old(r.rest)| && r.rest == old(r.rest)[total..]
      ensures r.supplied == old(r.supplied) + old(r.rest)[..total]
      ensures Image() == old(Image()) + old(r.rest)[..total]
      ensures old(wr.sunk) <= wr.sunk
      ensures wr.steady && old(err).None? ==> err.None?
      ensures Blames(old(err), old(wr.uptakes)) && old(r.answers) <= r.answers
      ensures e == if err.Some? then err else ButEnd(Settle(None, r.answers[|old(r.answers)|..]))
      ensures e.None? && r.steady ==> r.rest == []
      ensures err.None? && r.steady && r.patience < MAX_CONSECUTIVE_EMPTY_READS ==> r.rest == []
      ensures old(err).Some? ==> total == 0 && e == err == old(err) && n == old(n) && wr.sunk == old(wr.sunk)
    {
      total := 0;
      if err.Some? {
        return 0, err;
      }
      e := None;
      while true
        invariant err.None? && Moved(r, old(Image()), old(r.rest), old(r.supplied), total)
        invariant old(wr.sunk) <= wr.sunk
        invariant Blames(old(err), old(wr.uptakes)) && Brings(r.answers, old(r.answers))
        decreases |r.rest|
      {
        var e1 := FlushIfFull(r, old(Image()), old(r.rest), old(r.supplied), total, old(err), old(wr.uptakes));
        if e1.Some? {
          return total, e1;
        }
        var m: nat;
        m, e := ReadMore(r, old(Image()), old(r.rest), old(r.supplied), old(r.answers), total);
        total := total + m;
        if m == 0 && e.None? {
          return total, Some(NoProgress);
        }
        if e.Some? {
          break;
        }
      }
      if e == Some(EOF) {
        e := FlushIfFull(r, old(Image()), old(r.rest), old(r.supplied), total, old(err), old(wr.uptakes));
      }
    }

    method FlushIfFull(ghost r: Source, ghost image: seq<byte>, ghost rest: seq<byte>, ghost supplied: seq<byte>,
        ghost total: nat, ghost was: Option<Error>, ghost seen: seq<Uptake>) returns (e: Option<Error>)
      requires err.None? && Moved(r, image, rest, supplied, total) && Blames(was, seen)
      modifies this`n, this`err, buf, wr
      ensures e == err && Moved(r, image, rest, supplied, total) && Blames(was, seen)
      ensures old(wr.sunk) <= wr.sunk && (wr.steady ==> e.None?)
      ensures e.None? ==> 0 < Available()
    {
      e := None;
      if Available() == 0 {
        e := Flush();
      }
    }

    /** So many bytes, and no others, have come from the reader and are accepted. */
    ghost predicate Moved(r: Source, image: seq<byte>, rest: seq<byte>, supplied: seq<byte>, total: nat)
      reads this, buf, wr, r
    {
      && Valid() && r.Valid() && total <= |rest|
      && r.rest == rest[total..] && r.supplied == supplied + rest[..total]
      && Image() == image + rest[..total]
    }

    ghost predicate Brings(answers: seq<Answer>, seen: seq<Answer>) {
      && seen <= answers && Settle(None, answers[|seen|..]).None?
      && (answers == seen || answers[|answers| - 1].Brought?)
    }

    method ReadMore(r: Source, ghost image: seq<byte>, ghost rest: seq<byte>, ghost supplied: seq<byte>,
        ghost seen: seq<Answer>, ghost total: nat) returns (m: nat, e: Option<Error>)
      requires Moved(r, image, rest, supplied, total) && 0 < Available() && Brings(r.answers, seen)
      modifies this`n, buf, r
      ensures total + m <= |rest| && Moved(r, image, rest, supplied, total + m)
      ensures e.Some? ==> FromOutside(e.value) && (r.steady ==> r.rest == [])
      ensures m == 0 && e.None? ==> MAX_CONSECUTIVE_EMPTY_READS <= r.patience
      ensures Heard(r.answers, seen, m, e)
    {
      ghost var mid := r.answers;
      m, e := ReadSome(r);
      SettlesOn(None, seen, mid, r.answers);
      AppendNext(image, rest, total, m);
      AppendNext(supplied, rest, total, m);
    }

    /** Up to a hundred tries to get something into the free part of the buffer. */
    method ReadSome(r: Source) returns (m: nat, e: Option<Error>)
      requires Valid() && r.Valid() && 0 < Available()
      modifies this`n, buf, r
      ensures Valid() && r.Valid() && m <= |old(r.rest)|
      ensures Image() == old(Image()) + old(r.rest)[..m]
      ensures r.rest == old(r.rest)[m..]
      ensures r.supplied == old(r.supplied) + old(r.rest)[..m]
      ensures e.Some? ==> FromOutside(e.value) && (r.steady ==> r.rest == [])
      ensures m == 0 && e.None? ==> MAX_CONSECUTIVE_EMPTY_READS <= r.patience
      ensures Heard(r.answers, old(r.answers), m, e)
    {
      m, e := TryRead(r);
      assert buf[..n + m] == buf[..n] + buf[n..n + m];
      n := n + m;
    }

    /** What these tries came to is what the reader's answers settle. */
    ghost predicate Heard(answers: seq<Answer>, seen: seq<Answer>, m: nat, e: Option<Error>) {
      && seen <= answers
      && Settle(None, answers[|seen|..]) == (if m == 0 && e.None? then Some(NoProgress) else e)
      && (m > 0 && e.None? ==> answers != seen && answers[|answers| - 1].Brought?)
    }

    method TryRead(r: Source) returns (m: nat, e: Option<Error>)
      requires Valid() && r.Valid() && 0 < Available()
      modifies buf, r
      ensures r.Valid() && m <= |old(r.rest)| && n + m <= buf.Length
      ensures buf[..n] == old(buf[..n]) && buf[n..n + m] == old(r.rest)[..m]
      ensures r.rest == old(r.rest)[m..]
      ensures r.supplied == old(r.supplied) + old(r.rest)[..m]
      ensures e.Some? ==> FromOutside(e.value) && (r.steady ==> r.rest == [])
      ensures m == 0 && e.None? ==> MAX_CONSECUTIVE_EMPTY_READS <= r.patience
      ensures Heard(r.answers, old(r.answers), m, e)
    {
      var tries: nat := 0;
      m, e := 0, None;
      assert r.answers[|r.answers|..] == [];
      while tries < MAX_CONSECUTIVE_EMPTY_READS && m == 0 && e.None?
        invariant r.Valid() && m <= |old(r.rest)| && n + m <= buf.Length
        invariant buf[..n] == old(buf[..n]) && buf[n..n + m] == old(r.rest)[..m]
        invariant r.rest == old(r.rest)[m..]
        invariant r.supplied == old(r.supplied) + old(r.rest)[..m]
        invariant e.Some? ==> FromOutside(e.value) && (r.steady ==> r.rest == [])
        invariant m == 0 && e.None? ==> r.gap + tries <= r.patience
        invariant tries <= MAX_CONSECUTIVE_EMPTY_READS
        invariant if m == 0 && e.None? then r.Idled(old(r.answers), tries)
          else Heard(r.answers, old(r.answers), m, e)
      {
        ghost var mid := r.answers;
        m, e := r.Read(buf, n);
        AnswerAdds(None, old(r.answers), mid, r.answers[|r.answers| - 1]);
        tries := tries + 1;
      }
    }
  }

  /** A writer of the wanted size over `w`; `given` is the same argument, if it is a writer
      itself, and is returned as it is when its buffer is large enough. */
  method NewWriterSize(given: Option<Writer>, w: Sink, size: int) returns (b: Writer)
    ensures if given.Some? && given.value.buf.Length >= size then b == given.value else
      && fresh(b) && b.Valid() && b.wr == w && b.n == 0 && b.err == None
      && b.buf.Length == if size <= 0 then 4096 else size
  {
    if given.Some? && given.value.buf.Length >= size {
      return given.value;
    }
    b := new Writer(w, size);
  }

  /** What is sunk and what is left of a buffer make it up again. */
  lemma SinksFirst(base: seq<byte>, held: seq<byte>, k: nat)
    requires k <= |held|
    ensures base + held[..k] + held[k..] == base + held
    ensures k == |held| ==> base + held[..k] + [] == base + held
  {
    assert held == held[..k] + held[k..];
  }
}
