/** Where a delimiter cuts a byte sequence, and what a line is. */
module Lines {
  import opened Streams

  const LF: byte := 10
  const CR: byte := 13

  function IndexByte(s: seq<byte>, c: byte): (i: int)
    ensures -1 <= i < |s|
    ensures i >= 0 ==> s[i] == c && c !in s[..i]
    ensures i < 0 ==> c !in s
  {
    if s == [] then -1
    else if s[0] == c then 0
    else
      var i := IndexByte(s[1..], c);
      assert i >= 0 ==> s[..i + 1] == [s[0]] + s[1..][..i];
      if i < 0 then -1 else i + 1
  }

  lemma {:induction false} IndexByteUnique(s: seq<byte>, c: byte, i: nat)
    requires i < |s| && s[i] == c && c !in s[..i]
    ensures IndexByte(s, c) == i
  {
    if i > 0 {
      assert s[..i][0] == s[0] && s[1..][..i - 1] == s[..i][1..];
      IndexByteUnique(s[1..], c, i - 1);
    }
  }

  /** The bytes up to and including the first `c`, or all of them, and what follows. */
  function CutAfter(s: seq<byte>, c: byte): (seq<byte>, seq<byte>) {
    var i := IndexByte(s, c);
    if i < 0 then (s, []) else (s[..i + 1], s[i + 1..])
  }

  lemma CutsAfter(a: seq<byte>, s: seq<byte>, c: byte)
    requires a != [] && a[|a| - 1] == c && c !in a[..|a| - 1]
    ensures CutAfter(a + s, c) == (a, s)
  {
    assert (a + s)[..|a| - 1] == a[..|a| - 1];
    IndexByteUnique(a + s, c, |a| - 1);
  }

  function DropCR(s: seq<byte>): seq<byte> {
    if s != [] && s[|s| - 1] == CR then s[..|s| - 1] else s
  }

  /** The line at the front of `s`, without its ending, and what follows that ending. An
      unfinished line keeps every byte. */
  function CutLine(s: seq<byte>): (seq<byte>, seq<byte>) {
    var i := IndexByte(s, LF);
    if i < 0 then (s, []) else (DropCR(s[..i]), s[i + 1..])
  }

  /** What `ReadLine` drops from a slice that ends at a line feed, if it does. */
  function StripEnding(s: seq<byte>): seq<byte> {
    if s != [] && s[|s| - 1] == LF then DropCR(s[..|s| - 1]) else s
  }

  /** A slice that holds no line feed except as its last byte. */
  predicate OneLine(s: seq<byte>) {
    s != [] && LF !in s[..|s| - 1]
  }

  lemma StripEndingCuts(slice: seq<byte>, s: seq<byte>)
    requires OneLine(slice)
    ensures LF !in StripEnding(slice)
    ensures slice[|slice| - 1] == LF || s == [] ==> CutLine(slice + s) == (StripEnding(slice), s)
  {
    var k := |slice| - 1;
    assert slice == slice[..k] + [slice[k]];
    if slice[k] == LF {
      assert (slice + s)[..k] == slice[..k];
      IndexByteUnique(slice + s, LF, k);
      assert (slice + s)[k + 1..] == s;
    } else if s == [] {
      assert slice + s == slice;
    }
  }

  /** `taken` came off the front of `whole`, leaving `rest`, and `text` was read from it:
      one line's beginning if there is `more` of it, else its end, if any. */
  ghost predicate LinePart(whole: seq<byte>, text: seq<byte>, taken: seq<byte>, rest: seq<byte>, more: bool) {
    && whole == taken + rest
    && (more ==> LF !in taken && !(taken != [] && taken[|taken| - 1] == CR && rest != [] && rest[0] == LF))
    && (!more && LF in taken ==> OneLine(taken) && text == StripEnding(taken))
    && (LF !in taken ==> text == taken)
  }

  /** A slice up to a line feed, or one without any, is a line's end. */
  lemma SliceEndsLine(whole: seq<byte>, slice: seq<byte>, rest: seq<byte>)
    requires whole == slice + rest && OneLine(slice)
    ensures LinePart(whole, StripEnding(slice), slice, rest, false)
    ensures LF in slice <==> slice[|slice| - 1] == LF
  {
    assert slice == slice[..|slice| - 1] + [slice[|slice| - 1]];
  }

  /** What is cut off the end of a slice is cut off the end of a longer one. */
  lemma StripEndingJoins(taken: seq<byte>, slice: seq<byte>)
    requires slice != [] && slice[|slice| - 1] == LF
    requires !(taken != [] && taken[|taken| - 1] == CR && slice[0] == LF)
    ensures StripEnding(taken + slice) == taken + StripEnding(slice)
  {
    var front := slice[..|slice| - 1];
    assert (taken + slice)[..|taken + slice| - 1] == taken + front;
    if front == [] {
      assert taken + front == taken;
    } else {
      assert DropCR(taken + front) == taken + DropCR(front);
    }
  }

  lemma LinePartJoins(whole: seq<byte>, text: seq<byte>, taken: seq<byte>, mid: seq<byte>, text2: seq<byte>,
      taken2: seq<byte>, rest: seq<byte>, more: bool)
    requires LinePart(whole, text, taken, mid, true) && LinePart(mid, text2, taken2, rest, more)
    ensures LinePart(whole, text + text2, taken + taken2, rest, more)
  {
    assert whole == taken + taken2 + rest;
    if LF in taken2 {
      assert taken2 == taken2[..|taken2| - 1] + [taken2[|taken2| - 1]];
      assert (taken + taken2)[..|taken + taken2| - 1] == taken + taken2[..|taken2| - 1];
      StripEndingJoins(taken, taken2);
    }
  }

  /** The part that completes a line is the line. */
  lemma LinePartCuts(whole: seq<byte>, text: seq<byte>, taken: seq<byte>, rest: seq<byte>)
    requires LinePart(whole, text, taken, rest, false)
    requires LF in taken || rest == []
    ensures CutLine(whole) == (text, rest)
  {
    if taken == [] {
      assert whole == [];
    } else {
      StripEndingCuts(taken, rest);
    }
  }

  /** `got` was read from `before`, leaving `after`: up to the first `delim` if `found`,
      and short of any `delim` if not. */
  ghost predicate ReadUpTo(before: seq<byte>, got: seq<byte>, after: seq<byte>, delim: byte, found: bool) {
    && before == got + after
    && (found ==> got != [] && got[|got| - 1] == delim && delim !in got[..|got| - 1])
    && (!found ==> delim !in got)
  }

  /** Unless an error breaks a read off early, the result depends on the stream alone:
      neither on the buffer nor on how the source splits it. */
  lemma ReadUpToCuts(before: seq<byte>, got: seq<byte>, after: seq<byte>, delim: byte, found: bool)
    requires ReadUpTo(before, got, after, delim, found) && (found || after == [])
    ensures CutAfter(before, delim) == (got, after)
    ensures found <==> delim in before
  {
    if found {
      CutsAfter(got, after, delim);
      assert before[|got| - 1] == delim;
    } else {
      assert before == got;
    }
  }

  /** With a delimiter found, or with final errors, what was read is the stream cut behind the
      first delimiter, and it is found if there is one. */
  ghost predicate CutsRight(before: seq<byte>, got: seq<byte>, after: seq<byte>, delim: byte, found: bool,
      final: bool) {
    && (found || final ==> CutAfter(before, delim) == (got, after))
    && (final ==> (found <==> delim in before))
  }

  lemma ReadCutsRight(before: seq<byte>, got: seq<byte>, after: seq<byte>, delim: byte, found: bool, final: bool)
    requires ReadUpTo(before, got, after, delim, found) && (final && !found ==> after == [])
    ensures CutsRight(before, got, after, delim, found, final)
  {
    if found || final {
      ReadUpToCuts(before, got, after, delim, found);
    }
  }

  lemma ReadUpToJoins(before: seq<byte>, got: seq<byte>, mid: seq<byte>, got2: seq<byte>, after: seq<byte>, delim: byte,
      found: bool)
    requires ReadUpTo(before, got, mid, delim, false) && ReadUpTo(mid, got2, after, delim, found)
    ensures ReadUpTo(before, got + got2, after, delim, found)
  {
    assert before == got + got2 + after;
    if found {
      assert (got + got2)[..|got + got2| - 1] == got + got2[..|got2| - 1];
    }
  }

  /** Every line of a stream, the last one possibly unfinished. */
  function AllLines(s: seq<byte>): seq<seq<byte>>
    decreases |s|
  {
    if s == [] then [] else [CutLine(s).0] + AllLines(CutLine(s).1)
  }

  /** A line as it is written: its text, and whether a carriage return stands before the feed. */
  datatype Line = Line(text: seq<byte>, withCR: bool)

  function WithEnding(line: Line): seq<byte> {
    line.text + if line.withCR then [CR, LF] else [LF]
  }

  function Terminated(lines: seq<Line>): seq<byte> {
    if lines == [] then [] else WithEnding(lines[0]) + Terminated(lines[1..])
  }

  /** No feed in it, and no carriage return that would count as part of the ending. */
  predicate Readable(line: Line) {
    LF !in line.text && (line.text != [] && !line.withCR ==> line.text[|line.text| - 1] != CR)
  }

  lemma EndingIsCut(line: Line, rest: seq<byte>)
    requires Readable(line)
    ensures CutLine(WithEnding(line) + rest) == (line.text, rest)
  {
    var s, k := WithEnding(line) + rest, |WithEnding(line)| - 1;
    var front := line.text + if line.withCR then [CR] else [];
    assert WithEnding(line) == front + [LF] && s[k] == LF && s[..k] == front && s[k + 1..] == rest;
    assert DropCR(front) == line.text;
    IndexByteUnique(s, LF, k);
  }

  /** Lines written with either ending, one after the other, are read back as they were. */
  lemma {:induction false} LinesRoundTrip(lines: seq<Line>)
    requires forall line <- lines :: Readable(line)
    ensures AllLines(Terminated(lines)) == Texts(lines)
  {
    if lines != [] {
      assert lines[0] in lines && forall line <- lines[1..] :: line in lines;
      EndingIsFirst(lines[0], Terminated(lines[1..]));
      LinesRoundTrip(lines[1..]);
    }
  }

  lemma EndingIsFirst(line: Line, rest: seq<byte>)
    requires Readable(line)
    ensures AllLines(WithEnding(line) + rest) == [line.text] + AllLines(rest)
  {
    EndingIsCut(line, rest);
  }

  function Texts(lines: seq<Line>): seq<seq<byte>> {
    if lines == [] then [] else [lines[0].text] + Texts(lines[1..])
  }
}
