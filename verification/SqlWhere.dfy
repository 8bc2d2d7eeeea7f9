/** What the `WHERE` part of a statement selects, read as the database reads it: `AND`
    binds tighter than `OR`, and text that does not parse is refused. */
module SqlWhere {
  import opened Sequences
  import opened SqlText

  type Row = map<string, int>

  /** A condition the text spells out in full (a parenthesised one too), a connective, or
      something no condition can be made of. */
  datatype Token = Atom(holds: Row -> bool) | And | Or | Broken

  /** A condition text; one with characters in it may still be blank. */
  datatype CondText = Empty | Text(tokens: seq<Token>)

  datatype QueryCond = QueryCond(fixedCols: seq<string>, fixedVals: seq<int>, inCols: seq<string>,
      inVals: seq<seq<int>>, inBatchSize: int)

  function Tokens(c: CondText): seq<Token> {
    if c.Empty? then [] else c.tokens
  }

  /** `Where` puts a space and more text behind a condition. */
  function Where(c: CondText, tokens: seq<Token>): CondText {
    Text(Tokens(c) + tokens)
  }

  /** Conditions with a connective between each two. */
  predicate WellFormed(ts: seq<Token>) {
    && ts != []
    && ts[0].Atom?
    && (|ts| == 1 || ((ts[1].And? || ts[1].Or?) && WellFormed(ts[2..])))
  }

  /** Whether the row meets the condition, if `before` tells so of the conjuncts in front. */
  predicate Holds(ts: seq<Token>, r: Row, before: bool)
    requires WellFormed(ts)
  {
    var now := before && ts[0].holds(r);
    if |ts| == 1 then now
    else if ts[1].And? then Holds(ts[2..], r, now)
    else now || Holds(ts[2..], r, true)
  }

  /** Whether it does so by an alternative other than the last. */
  predicate Early(ts: seq<Token>, r: Row, before: bool)
    requires WellFormed(ts)
  {
    var now := before && ts[0].holds(r);
    if |ts| == 1 then false
    else if ts[1].And? then Early(ts[2..], r, now)
    else now || Early(ts[2..], r, true)
  }

  predicate OrFree(ts: seq<Token>) {
    forall i | 0 <= i < |ts| :: !ts[i].Or?
  }

  lemma {:induction false} JoinedWellFormed(a: seq<Token>, b: seq<Token>)
    ensures WellFormed(a + [And] + b) <==> WellFormed(a) && WellFormed(b)
  {
    var ts := a + [And] + b;
    if |a| == 1 {
      assert ts[2..] == b;
    } else if |a| > 1 {
      assert ts[2..] == a[2..] + [And] + b;
      JoinedWellFormed(a[2..], b);
    }
  }

  /** Text added behind an `AND` binds to the last alternative only: the earlier ones hold
      without it. */
  lemma {:induction false} AndBindsToLast(a: seq<Token>, b: seq<Token>, r: Row, before: bool)
    requires WellFormed(a) && WellFormed(b) && OrFree(b)
    ensures WellFormed(a + [And] + b)
    ensures Holds(a + [And] + b, r, before) == (Early(a, r, before) || (Holds(a, r, before) && Holds(b, r, true)))
  {
    JoinedWellFormed(a, b);
    var ts := a + [And] + b;
    if |a| == 1 {
      assert ts[2..] == b;
      BeforeSplits(b, r, before && a[0].holds(r));
    } else {
      assert ts[2..] == a[2..] + [And] + b;
      AndBindsToLast(a[2..], b, r, if a[1].And? then before && a[0].holds(r) else true);
    }
  }

  lemma {:induction false} BeforeSplits(ts: seq<Token>, r: Row, before: bool)
    requires WellFormed(ts) && OrFree(ts)
    ensures Holds(ts, r, before) == (before && Holds(ts, r, true)) && !Early(ts, r, before)
  {
    if |ts| > 1 {
      BeforeSplits(ts[2..], r, before && ts[0].holds(r));
      BeforeSplits(ts[2..], r, ts[0].holds(r));
    }
  }

  /** So what is added narrows the condition at a row exactly if it holds there itself, or
      no alternative but the last does. */
  lemma AndNarrowsIff(a: seq<Token>, b: seq<Token>, r: Row)
    requires WellFormed(a) && WellFormed(b) && OrFree(b)
    ensures WellFormed(a + [And] + b)
    ensures Holds(a + [And] + b, r, true) == (Holds(a, r, true) && Holds(b, r, true)) <==>
      Holds(b, r, true) || !Early(a, r, true)
    ensures OrFree(a) ==> !Early(a, r, true)
  {
    AndBindsToLast(a, b, r, true);
    EarlyHolds(a, r, true);
    if OrFree(a) {
      BeforeSplits(a, r, true);
    }
  }

  lemma {:induction false} EarlyHolds(ts: seq<Token>, r: Row, before: bool)
    requires WellFormed(ts)
    ensures Early(ts, r, before) ==> Holds(ts, r, before)
  {
    if |ts| > 1 {
      EarlyHolds(ts[2..], r, if ts[1].And? then before && ts[0].holds(r) else true);
    }
  }

  /** Text added in front of an `AND` binds to the first alternative only. */
  lemma {:induction false} AndBindsToFirst(a: seq<Token>, b: seq<Token>, r: Row, before: bool)
    requires WellFormed(a) && WellFormed(b) && OrFree(a)
    ensures WellFormed(a + [And] + b)
    ensures Holds(a + [And] + b, r, before) == Holds(b, r, before && Holds(a, r, true))
    ensures Early(a + [And] + b, r, before) == Early(b, r, before && Holds(a, r, true))
  {
    JoinedWellFormed(a, b);
    var ts := a + [And] + b;
    if |a| == 1 {
      assert ts[2..] == b;
    } else {
      assert ts[2..] == a[2..] + [And] + b;
      AndBindsToFirst(a[2..], b, r, before && a[0].holds(r));
      BeforeSplits(a[2..], r, a[0].holds(r));
    }
  }

  lemma {:induction false} EarlyStays(a: seq<Token>, b: seq<Token>, r: Row, before: bool)
    requires WellFormed(a) && WellFormed(b) && OrFree(b)
    ensures WellFormed(a + [And] + b) && Early(a + [And] + b, r, before) == Early(a, r, before)
  {
    JoinedWellFormed(a, b);
    var ts := a + [And] + b;
    if |a| == 1 {
      assert ts[2..] == b;
      BeforeSplits(b, r, before && a[0].holds(r));
    } else {
      assert ts[2..] == a[2..] + [And] + b;
      EarlyStays(a[2..], b, r, if a[1].And? then before && a[0].holds(r) else true);
    }
  }

  /** The condition cut at each `OR`. */
  function Alternatives(ts: seq<Token>): (alts: seq<seq<Token>>)
    requires WellFormed(ts)
    ensures alts != []
  {
    if |ts| == 1 then [ts]
    else
      var rest := Alternatives(ts[2..]);
      if ts[1].And? then [[ts[0]] + rest[0]] + rest[1..] else [[ts[0]]] + rest
  }

  predicate AllHold(alt: seq<Token>, r: Row) {
    forall i | 0 <= i < |alt| && alt[i].Atom? :: alt[i].holds(r)
  }

  /** Does one of the alternatives before the n-th hold at the row, the first only if `before`
      does? */
  ghost predicate SomeHolds(alts: seq<seq<Token>>, n: int, r: Row, before: bool) {
    exists k :: 0 <= k < n && k < |alts| && AllHold(alts[k], r) && (k == 0 ==> before)
  }

  /** Reading a condition is asking whether some alternative holds as a whole. */
  lemma {:induction false} HoldsBySome(ts: seq<Token>, r: Row, before: bool)
    requires WellFormed(ts)
    ensures var alts := Alternatives(ts);
      && Holds(ts, r, before) == SomeHolds(alts, |alts|, r, before)
      && Early(ts, r, before) == SomeHolds(alts, |alts| - 1, r, before)
  {
    var alts := Alternatives(ts);
    var now := before && ts[0].holds(r);
    if |ts| == 1 {
      assert AllHold(alts[0], r) == ts[0].holds(r);
    } else {
      var rest := Alternatives(ts[2..]);
      HoldsBySome(ts[2..], r, if ts[1].And? then now else true);
      if ts[1].And? {
        FrontOfAll(ts[0], rest[0], r);
        forall n: int
          ensures SomeHolds(alts, n, r, before) == SomeHolds(rest, n, r, now)
        {
          SameSome(alts, rest, n, r, before, now);
        }
      } else {
        FrontOfAll(ts[0], [], r);
        assert alts[0] == [ts[0]] + [];
        OneMoreSome(alts, rest, |alts|, r, before);
        OneMoreSome(alts, rest, |alts| - 1, r, before);
      }
    }
  }

  lemma FrontOfAll(t: Token, alt: seq<Token>, r: Row)
    requires t.Atom?
    ensures AllHold([t] + alt, r) == (t.holds(r) && AllHold(alt, r))
  {
    var both := [t] + alt;
    assert both[0] == t && forall i | 0 <= i < |alt| :: both[i + 1] == alt[i];
  }

  lemma SameSome(alts: seq<seq<Token>>, rest: seq<seq<Token>>, n: int, r: Row, before: bool, now: bool)
    requires |alts| == |rest| > 0 && alts[1..] == rest[1..]
    requires (before && AllHold(alts[0], r)) == (now && AllHold(rest[0], r))
    ensures SomeHolds(alts, n, r, before) == SomeHolds(rest, n, r, now)
  {
    assert forall k | 1 <= k < |alts| :: alts[k] == alts[1..][k - 1] && rest[k] == rest[1..][k - 1];
  }

  lemma OneMoreSome(alts: seq<seq<Token>>, rest: seq<seq<Token>>, n: nat, r: Row, before: bool)
    requires 0 < n <= |alts| && |alts| == |rest| + 1 && alts[1..] == rest
    ensures SomeHolds(alts, n, r, before) == ((before && AllHold(alts[0], r)) || SomeHolds(rest, n - 1, r, true))
  {
    assert forall k | 0 <= k < |rest| :: rest[k] == alts[k + 1];
    if k :| 0 <= k < n - 1 && k < |rest| && AllHold(rest[k], r) {
      assert AllHold(alts[k + 1], r);
    }
    if k :| 0 < k < n && AllHold(alts[k], r) {
      assert AllHold(rest[k - 1], r);
    }
  }

  /** Conditions joined by `AND` parse exactly if each does, and without any `OR` they mean
      all of them. */
  lemma {:induction false} JoinMeansAll(parts: seq<seq<Token>>, r: Row)
    requires parts != []
    ensures WellFormed(JoinSep(parts, [And])) <==> forall p <- parts :: WellFormed(p)
    ensures (forall p <- parts :: OrFree(p)) ==> OrFree(JoinSep(parts, [And]))
    ensures (forall p <- parts :: WellFormed(p) && OrFree(p)) ==>
      (Holds(JoinSep(parts, [And]), r, true) <==> forall p <- parts :: Holds(p, r, true))
  {
    if |parts| > 1 {
      var rest := JoinSep(parts[1..], [And]);
      JoinMeansAll(parts[1..], r);
      JoinedWellFormed(parts[0], rest);
      assert parts[0] in parts && parts == [parts[0]] + parts[1..];
      if forall p <- parts :: WellFormed(p) && OrFree(p) {
        AndBindsToLast(parts[0], rest, r, true);
        BeforeSplits(parts[0], r, true);
      }
    }
  }

  function Cell(r: Row, col: string): int {
    if col in r then r[col] else 0
  }

  function Cells(r: Row, cols: seq<string>): seq<int> {
    seq(|cols|, i requires 0 <= i < |cols| => Cell(r, cols[i]))
  }

  function FixedParts(cols: seq<string>, vals: seq<int>): seq<seq<Token>>
    requires |cols| == |vals|
  {
    seq(|cols|, i requires 0 <= i < |cols| => [Atom(r => Cell(r, cols[i]) == vals[i])])
  }

  function InPart(cols: seq<string>, chunk: seq<seq<int>>): seq<Token> {
    [if cols == [] then Broken else Atom(r => Cells(r, cols) in chunk)]
  }

  /** The clauses of the `WHERE` part, as `BuildQuery` lines them up. */
  function Parts(q: QueryCond, c: CondText, chunk: seq<seq<int>>): seq<seq<Token>>
    requires |q.fixedCols| == |q.fixedVals|
  {
    Present(q.fixedCols != [], JoinSep(FixedParts(q.fixedCols, q.fixedVals), [And]), c.Text?, Tokens(c), chunk != [],
      InPart(q.inCols, chunk))
  }

  function WhereTokens(q: QueryCond, c: CondText, chunk: seq<seq<int>>): seq<Token>
    requires |q.fixedCols| == |q.fixedVals|
  {
    JoinSep(Parts(q, c, chunk), [And])
  }

  predicate Fixed(q: QueryCond, r: Row)
    requires |q.fixedCols| == |q.fixedVals|
  {
    forall i | 0 <= i < |q.fixedCols| :: Cell(r, q.fixedCols[i]) == q.fixedVals[i]
  }

  lemma FixedPartsMean(q: QueryCond, r: Row)
    requires |q.fixedCols| == |q.fixedVals| && q.fixedCols != []
    ensures var ts := JoinSep(FixedParts(q.fixedCols, q.fixedVals), [And]);
      WellFormed(ts) && OrFree(ts) && Holds(ts, r, true) == Fixed(q, r)
  {
    var parts := FixedParts(q.fixedCols, q.fixedVals);
    JoinMeansAll(parts, r);
    forall i | 0 <= i < |parts|
      ensures WellFormed(parts[i]) && OrFree(parts[i])
      ensures Holds(parts[i], r, true) == (Cell(r, q.fixedCols[i]) == q.fixedVals[i])
      ensures parts[i] in parts
    {
    }
  }

  /** The text parses exactly if it has a clause, the user's condition does, and the IN part
      names a column. */
  lemma WhereParses(q: QueryCond, c: CondText, chunk: seq<seq<int>>)
    requires |q.fixedCols| == |q.fixedVals|
    ensures WellFormed(WhereTokens(q, c, chunk)) <==>
      && (q.fixedCols != [] || c.Text? || chunk != [])
      && (c.Text? ==> WellFormed(c.tokens))
      && (chunk != [] ==> q.inCols != [])
  {
    var parts := Parts(q, c, chunk);
    if q.fixedCols != [] {
      FixedPartsMean(q, map[]);
    }
    assert c.Text? ==> c.tokens in parts;
    assert chunk != [] ==> InPart(q.inCols, chunk) in parts;
    if |parts| > 0 {
      JoinMeansAll(parts, map[]);
    }
  }

  /** Without a bare `OR` in the user's condition the text means all its clauses together. */
  lemma WhereMeansAll(q: QueryCond, c: CondText, chunk: seq<seq<int>>, r: Row)
    requires |q.fixedCols| == |q.fixedVals| && WellFormed(WhereTokens(q, c, chunk)) && OrFree(Tokens(c))
    ensures c.Text? ==> WellFormed(c.tokens)
    ensures Holds(WhereTokens(q, c, chunk), r, true) <==>
      && Fixed(q, r)
      && (c.Text? ==> Holds(c.tokens, r, true))
      && (chunk != [] ==> Cells(r, q.inCols) in chunk)
  {
    WhereParses(q, c, chunk);
    PartsMean(q, c, chunk, r);
    JoinMeansAll(Parts(q, c, chunk), r);
  }

  lemma PartsMean(q: QueryCond, c: CondText, chunk: seq<seq<int>>, r: Row)
    requires |q.fixedCols| == |q.fixedVals| && OrFree(Tokens(c))
    requires (c.Text? ==> WellFormed(c.tokens)) && (chunk != [] ==> q.inCols != [])
    ensures forall p <- Parts(q, c, chunk) :: WellFormed(p) && OrFree(p)
    ensures (forall p <- Parts(q, c, chunk) :: Holds(p, r, true)) <==>
      && Fixed(q, r)
      && (c.Text? ==> Holds(c.tokens, r, true))
      && (chunk != [] ==> Cells(r, q.inCols) in chunk)
  {
    var parts := Parts(q, c, chunk);
    if q.fixedCols != [] {
      FixedPartsMean(q, r);
      assert parts[0] in parts;
    }
    assert c.Text? ==> c.tokens in parts;
    assert chunk != [] ==> InPart(q.inCols, chunk) in parts;
  }

  predicate Listed(q: QueryCond, chunk: seq<seq<int>>, r: Row) {
    chunk != [] ==> Cells(r, q.inCols) in chunk
  }

  /** What the text selects, whatever the condition: the fixed columns restrict its first
      alternative and the IN part its last. */
  predicate Selects(q: QueryCond, c: CondText, chunk: seq<seq<int>>, r: Row)
    requires |q.fixedCols| == |q.fixedVals| && (c.Text? ==> WellFormed(c.tokens))
  {
    if c.Empty? then Fixed(q, r) && Listed(q, chunk, r)
    else Early(c.tokens, r, Fixed(q, r)) || (Holds(c.tokens, r, Fixed(q, r)) && Listed(q, chunk, r))
  }

  lemma WhereMeans(q: QueryCond, c: CondText, chunk: seq<seq<int>>, r: Row)
    requires |q.fixedCols| == |q.fixedVals| && WellFormed(WhereTokens(q, c, chunk))
    ensures c.Text? ==> WellFormed(c.tokens)
    ensures Holds(WhereTokens(q, c, chunk), r, true) == Selects(q, c, chunk, r)
  {
    WhereParses(q, c, chunk);
    if c.Empty? {
      WhereMeansAll(q, c, chunk, r);
    } else {
      WithFixed(q, c, r);
      if chunk != [] {
        WhereParses(q, c, []);
        assert Parts(q, c, chunk) == Parts(q, c, []) + [InPart(q.inCols, chunk)];
        JoinSepAppend(Parts(q, c, []), InPart(q.inCols, chunk), [And]);
        AndBindsToLast(WhereTokens(q, c, []), InPart(q.inCols, chunk), r, true);
      } else {
        EarlyHolds(c.tokens, r, Fixed(q, r));
      }
    }
  }

  lemma WithFixed(q: QueryCond, c: CondText, r: Row)
    requires |q.fixedCols| == |q.fixedVals| && c.Text? && WellFormed(c.tokens)
    ensures WellFormed(WhereTokens(q, c, []))
    ensures Holds(WhereTokens(q, c, []), r, true) == Holds(c.tokens, r, Fixed(q, r))
    ensures Early(WhereTokens(q, c, []), r, true) == Early(c.tokens, r, Fixed(q, r))
  {
    if q.fixedCols != [] {
      var fixed := JoinSep(FixedParts(q.fixedCols, q.fixedVals), [And]);
      FixedPartsMean(q, r);
      assert Parts(q, c, []) == [fixed, c.tokens];
      assert JoinSep([fixed, c.tokens], [And]) == fixed + [And] + c.tokens;
      AndBindsToFirst(fixed, c.tokens, r, true);
    } else {
      assert Parts(q, c, []) == [c.tokens];
    }
  }

  /** The same, alternative by alternative: the k-th counts at a row if it holds there, the
      fixed columns do if it is the first, and the IN part does if it is the last. */
  lemma WhereMeansSome(q: QueryCond, c: CondText, chunk: seq<seq<int>>, r: Row)
    requires |q.fixedCols| == |q.fixedVals| && c.Text? && WellFormed(WhereTokens(q, c, chunk))
    ensures WellFormed(c.tokens)
    ensures var alts := Alternatives(c.tokens);
      Holds(WhereTokens(q, c, chunk), r, true) <==>
        exists k :: 0 <= k < |alts| && AllHold(alts[k], r) &&
          (k == 0 ==> Fixed(q, r)) && (k == |alts| - 1 ==> Listed(q, chunk, r))
  {
    WhereMeans(q, c, chunk, r);
    HoldsBySome(c.tokens, r, Fixed(q, r));
  }

  /** The k-th alternative is cut off at a row: it is the first and the row misses the fixed
      columns, or the last and the row misses the IN part. */
  predicate CutOff(q: QueryCond, chunk: seq<seq<int>>, r: Row, k: nat, n: nat)
    requires |q.fixedCols| == |q.fixedVals|
  {
    (k == 0 && !Fixed(q, r)) || (k == n - 1 && !Listed(q, chunk, r))
  }

  /** The text means all its clauses together at a row exactly if the row meets the fixed
      columns and the IN part, or each alternative that holds there is cut off. */
  lemma WhereNarrowsIff(q: QueryCond, c: CondText, chunk: seq<seq<int>>, r: Row)
    requires |q.fixedCols| == |q.fixedVals| && c.Text? && WellFormed(WhereTokens(q, c, chunk))
    ensures WellFormed(c.tokens)
    ensures var alts := Alternatives(c.tokens);
      Holds(WhereTokens(q, c, chunk), r, true) == (Fixed(q, r) && Holds(c.tokens, r, true) && Listed(q, chunk, r)) <==>
        (Fixed(q, r) && Listed(q, chunk, r)) ||
        forall k | 0 <= k < |alts| && AllHold(alts[k], r) :: CutOff(q, chunk, r, k, |alts|)
  {
    WhereMeansSome(q, c, chunk, r);
    HoldsBySome(c.tokens, r, true);
    if Fixed(q, r) && Listed(q, chunk, r) {
      WhereMeans(q, c, chunk, r);
      EarlyHolds(c.tokens, r, true);
    }
  }

  predicate SameShape(a: seq<Token>, b: seq<Token>) {
    |a| == |b| && forall i | 0 <= i < |a| :: a[i].Atom? == b[i].Atom? && a[i].And? == b[i].And? && a[i].Or? == b[i].Or?
  }

  /** The same connectives between conditions that always hold. */
  function AlwaysTrue(ts: seq<Token>): (t: seq<Token>)
    ensures SameShape(ts, t)
  {
    seq(|ts|, i requires 0 <= i < |ts| => if ts[i].Atom? then Atom(r => true) else ts[i])
  }

  lemma {:induction false} ShapeParses(a: seq<Token>, b: seq<Token>)
    requires SameShape(a, b)
    ensures WellFormed(a) == WellFormed(b) && OrFree(a) == OrFree(b)
  {
    if |a| > 1 {
      ShapeParses(a[2..], b[2..]);
    }
    assert forall i | 0 <= i < |a| :: a[i].Or? == b[i].Or?;
  }

  lemma {:induction false} AlwaysTrueHolds(ts: seq<Token>, r: Row, before: bool)
    requires WellFormed(ts) && !OrFree(ts)
    ensures WellFormed(AlwaysTrue(ts)) && Holds(AlwaysTrue(ts), r, before)
    ensures Early(AlwaysTrue(ts), r, true)
  {
    var t := AlwaysTrue(ts);
    ShapeParses(ts, t);
    var rest := ts[2..];
    assert t[2..] == AlwaysTrue(rest);
    if ts[1].And? {
      assert forall i | 2 <= i < |ts| :: ts[i] == rest[i - 2];
      AlwaysTrueHolds(rest, r, before);
    } else {
      TrueIsTrue(rest, r);
    }
  }

  lemma {:induction false} TrueIsTrue(ts: seq<Token>, r: Row)
    requires WellFormed(ts)
    ensures WellFormed(AlwaysTrue(ts)) && Holds(AlwaysTrue(ts), r, true)
  {
    ShapeParses(ts, AlwaysTrue(ts));
    if |ts| > 1 {
      assert AlwaysTrue(ts)[2..] == AlwaysTrue(ts[2..]);
      TrueIsTrue(ts[2..], r);
    }
  }

  ghost predicate FixedRestricts(q: QueryCond, ts: seq<Token>, r: Row)
    requires |q.fixedCols| == |q.fixedVals|
  {
    WellFormed(WhereTokens(q, Text(ts), [])) && (Holds(WhereTokens(q, Text(ts), []), r, true) ==> Fixed(q, r))
  }

  ghost predicate BehindRestricts(ts: seq<Token>, b: seq<Token>, r: Row)
    requires WellFormed(b)
  {
    WellFormed(ts + [And] + b) && (Holds(ts + [And] + b, r, true) ==> Holds(b, r, true))
  }

  /** Fixed columns restrict every condition of a given shape, at every row, exactly if the
      shape has no bare `OR`. */
  lemma FixedRestrictsIffOrFree(q: QueryCond, ts: seq<Token>)
    requires |q.fixedCols| == |q.fixedVals| && q.fixedCols != [] && WellFormed(ts)
    ensures (forall ts', r | SameShape(ts, ts') :: FixedRestricts(q, ts', r)) <==> OrFree(ts)
  {
    forall ts', r | SameShape(ts, ts')
      ensures OrFree(ts) ==> FixedRestricts(q, ts', r)
    {
      ShapeParses(ts, ts');
      WithFixed(q, Text(ts'), r);
      if OrFree(ts) {
        BeforeSplits(ts', r, Fixed(q, r));
      }
    }
    if !OrFree(ts) {
      var r: Row := map[q.fixedCols[0] := q.fixedVals[0] + 1];
      assert !Fixed(q, r);
      AlwaysTrueHolds(ts, r, false);
      WithFixed(q, Text(AlwaysTrue(ts)), r);
      assert SameShape(ts, AlwaysTrue(ts)) && !FixedRestricts(q, AlwaysTrue(ts), r);
    }
  }

  /** And text behind a condition restricts every one of its shape exactly then. */
  lemma BehindRestrictsIffOrFree(ts: seq<Token>)
    requires WellFormed(ts)
    ensures (forall ts', b, r | SameShape(ts, ts') && WellFormed(b) && OrFree(b) :: BehindRestricts(ts', b, r)) <==>
      OrFree(ts)
  {
    forall ts', b, r | SameShape(ts, ts') && WellFormed(b) && OrFree(b)
      ensures OrFree(ts) ==> BehindRestricts(ts', b, r)
    {
      ShapeParses(ts, ts');
      AndBindsToLast(ts', b, r, true);
      if OrFree(ts) {
        BeforeSplits(ts', r, true);
      }
    }
    if !OrFree(ts) {
      var r: Row, b := map[], [Atom(r => false)];
      AlwaysTrueHolds(ts, r, true);
      AndBindsToLast(AlwaysTrue(ts), b, r, true);
      assert SameShape(ts, AlwaysTrue(ts)) && WellFormed(b) && OrFree(b) && !BehindRestricts(AlwaysTrue(ts), b, r);
    }
  }

  /** `tenant = 5 AND a OR b` selects a row of another tenant. */
  lemma OrEscapesFixed()
    ensures var q := QueryCond(["tenant"], [5], [], [], 0);
      var ts := WhereTokens(q, Text([Atom(r => false), Or, Atom(r => true)]), []);
      WellFormed(ts) && Holds(ts, map["tenant" := 6], true) && !Fixed(q, map["tenant" := 6])
  {
    var q := QueryCond(["tenant"], [5], [], [], 0);
    var c := [Atom(r => false), Or, Atom(r => true)];
    assert c[2..] == [Atom(r => true)];
    WithFixed(q, Text(c), map["tenant" := 6]);
  }
}
